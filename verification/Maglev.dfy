/** The Maglev assignment as a function: elements take turns in name order, and on its turn an
    element takes the first slot of its preference list that is still free
    (src/mgmt/common/maglev_table.py, `_populate_table`). */
module Maglev {
  import opened Bytes
  import opened Arithmetic
  import opened Permutations

  type Slots = seq<Option<string>>

  /** Python's truth of a table entry: neither None nor the empty name. */
  predicate Taken(slot: Option<string>) {
    slot.Some? && slot.value != ""
  }

  /** The first position of `p` at or after `k` whose slot is free, or |p|. */
  function FirstFree(p: seq<nat>, t: Slots, k: nat := 0): (r: nat)
    requires k <= |p| && forall j :: 0 <= j < |p| ==> p[j] < |t|
    ensures k <= r <= |p|
    ensures forall j :: k <= j < r ==> Taken(t[p[j]])
    ensures r < |p| ==> !Taken(t[p[r]])
    decreases |p| - k
  {
    if k == |p| || !Taken(t[p[k]]) then k else FirstFree(p, t, k + 1)
  }

  /** Names to place and their preference lists over `m` slots. */
  ghost predicate Ballot(names: seq<string>, perms: seq<seq<nat>>, m: nat) {
    && m > 0 && |names| == |perms| > 0
    && (forall i :: 0 <= i < |perms| ==> IsPermutation(perms[i], m))
    && (forall i :: 0 <= i < |names| ==> names[i] != "")
    && (forall i, j :: 0 <= i < j < |names| ==> names[i] != names[j])
  }

  /** The table after `n` turns. */
  ghost function Fill(names: seq<string>, perms: seq<seq<nat>>, m: nat, n: nat): (t: Slots)
    requires Ballot(names, perms, m)
    ensures |t| == m
  {
    if n == 0 then seq(m, _ => None)
    else
      var t := Fill(names, perms, m, n - 1);
      var i := (n - 1) % |names|;
      var k := FirstFree(perms[i], t);
      if k == m then t else t[perms[i][k] := Some(names[i])]
  }

  /** A table after `n` turns: entries are free or carry one of the names, `m - n` slots are free,
      and each element has exactly its share. */
  ghost predicate Shared(names: seq<string>, t: Slots, n: nat)
    requires |names| > 0
  {
    && (forall s :: 0 <= s < |t| ==> t[s].Some? ==> t[s].value in names)
    && multiset(t)[None] == |t| - n
    && (forall i :: 0 <= i < |names| ==> multiset(t)[Some(names[i])] == Share(n, |names|, i))
  }

  lemma {:induction false} Progress(names: seq<string>, perms: seq<seq<nat>>, m: nat, n: nat)
    requires Ballot(names, perms, m) && n <= m
    ensures Shared(names, Fill(names, perms, m, n), n)
    decreases n
  {
    hide Fill, Shared;
    if n == 0 {
      FillStart(names, perms, m);
      NoTurnYet(names, Fill(names, perms, m, 0));
    } else {
      Progress(names, perms, m, n - 1);
      ProgressStep(names, perms, m, n - 1);
    }
  }

  lemma ProgressStep(names: seq<string>, perms: seq<seq<nat>>, m: nat, n: nat)
    requires Ballot(names, perms, m) && n < m
    requires Shared(names, Fill(names, perms, m, n), n)
    ensures Shared(names, Fill(names, perms, m, n + 1), n + 1)
  {
    var s := Turn(names, perms, m, n);
    SharedStep(names, Fill(names, perms, m, n), n, s);
  }

  lemma SharedStep(names: seq<string>, t: Slots, n: nat, s: nat)
    requires |names| > 0 && Shared(names, t, n) && s < |t| && t[s] == None
    requires forall i, j :: 0 <= i < j < |names| ==> names[i] != names[j]
    ensures Shared(names, t[s := Some(names[n % |names|])], n + 1)
  {
    var i := n % |names|;
    var t' := t[s := Some(names[i])];
    assert multiset(t') == multiset(t) - multiset{None} + multiset{Some(names[i])};
    forall j | 0 <= j < |names|
      ensures multiset(t')[Some(names[j])] == Share(n + 1, |names|, j)
    {
      ShareStep(n, |names|, j);
      assert names[j] == names[i] <==> j == i;
    }
  }

  /** The slot taken on the `n`-th turn was free, is the element's first free one, and is all that
      the turn changes. */
  lemma Turn(names: seq<string>, perms: seq<seq<nat>>, m: nat, n: nat) returns (s: nat)
    requires Ballot(names, perms, m) && n < m
    requires Shared(names, Fill(names, perms, m, n), n)
    ensures var t, i := Fill(names, perms, m, n), n % |names|;
      && FirstFree(perms[i], t) < m
      && s == perms[i][FirstFree(perms[i], t)] && s < m && t[s] == None
      && Fill(names, perms, m, n + 1) == t[s := Some(names[i])]
  {
    var t, i := Fill(names, perms, m, n), n % |names|;
    FreeSlotFound(names, perms[i], t, n);
    s := perms[i][FirstFree(perms[i], t)];
  }

  lemma {:induction false} EmptyTable(m: nat)
    ensures var t: Slots := seq(m, _ => None);
      multiset(t)[None] == m && forall x: string :: multiset(t)[Some(x)] == 0
  {
    var t: Slots := seq(m, _ => None);
    if m > 0 {
      EmptyTable(m - 1);
      assert t == seq(m - 1, _ => None) + [None];
    }
  }

  lemma FillStart(names: seq<string>, perms: seq<seq<nat>>, m: nat)
    requires Ballot(names, perms, m)
    ensures forall s :: 0 <= s < m ==> Fill(names, perms, m, 0)[s] == None
  {
  }

  lemma NoTurnYet(names: seq<string>, t: Slots)
    requires |names| > 0 && forall s :: 0 <= s < |t| ==> t[s] == None
    ensures Shared(names, t, 0)
  {
    EmptyTable(|t|);
    assert t == seq(|t|, _ => None);
    assert forall i :: 0 <= i < |names| ==> Share(0, |names|, i) == 0;
  }

  /** While a slot is free, every preference list leads to one. */
  lemma FreeSlotFound(names: seq<string>, p: seq<nat>, t: Slots, n: nat)
    requires |names| > 0 && "" !in names && n < |t| && Shared(names, t, n) && IsPermutation(p, |t|)
    ensures FirstFree(p, t) < |t| && t[p[FirstFree(p, t)]] == None
  {
    assert None in t;
    var s :| 0 <= s < |t| && t[s] == None;
    assert s in p;
    var k :| 0 <= k < |t| && p[k] == s;
  }

  /** A filled slot keeps its owner. */
  lemma {:induction false} Stable(names: seq<string>, perms: seq<seq<nat>>, m: nat, n: nat, n': nat, s: nat)
    requires Ballot(names, perms, m) && n <= n' <= m && s < m
    requires Fill(names, perms, m, n)[s].Some?
    ensures Fill(names, perms, m, n')[s] == Fill(names, perms, m, n)[s]
    decreases n'
  {
    if n < n' {
      Stable(names, perms, m, n, n' - 1, s);
      StableStep(names, perms, m, n' - 1, s);
    }
  }

  lemma StableStep(names: seq<string>, perms: seq<seq<nat>>, m: nat, n: nat, s: nat)
    requires Ballot(names, perms, m) && n < m && s < m
    requires Fill(names, perms, m, n)[s].Some?
    ensures Fill(names, perms, m, n + 1)[s] == Fill(names, perms, m, n)[s]
  {
    Progress(names, perms, m, n);
    var s' := Turn(names, perms, m, n);
  }

  /** The whole table: every slot is filled, and the i-th of n elements owns exactly
      m / n + (1 if i < m mod n) slots, also when there are more elements than slots. */
  lemma Loads(names: seq<string>, perms: seq<seq<nat>>, m: nat)
    requires Ballot(names, perms, m)
    ensures var t := Fill(names, perms, m, m);
      && (forall s :: 0 <= s < m ==> t[s].Some? && t[s].value in names)
      && (forall i :: 0 <= i < |names| ==>
            multiset(t)[Some(names[i])] == m / |names| + if i < m % |names| then 1 else 0)
  {
    Progress(names, perms, m, m);
    var t := Fill(names, perms, m, m);
    assert None !in t;
  }

  /** Turn priority: if an element owns the k-th slot of its list, it got it on one of its own
      turns, when that slot was free and every slot it prefers had been taken before. */
  lemma TurnPriority(names: seq<string>, perms: seq<seq<nat>>, m: nat, i: nat, k: nat) returns (n: nat)
    requires Ballot(names, perms, m) && i < |names| && k < m
    requires Fill(names, perms, m, m)[perms[i][k]] == Some(names[i])
    ensures n < m && n % |names| == i
    ensures Fill(names, perms, m, n)[perms[i][k]] == None
    ensures Fill(names, perms, m, n + 1)[perms[i][k]] == Some(names[i])
    ensures forall j :: 0 <= j < k ==> Fill(names, perms, m, n)[perms[i][j]].Some?
  {
    hide Fill, Shared;
    var s := perms[i][k];
    n := LastFree(names, perms, m, s, m);
    Stable(names, perms, m, n + 1, m, s);
    Progress(names, perms, m, n);
    var s' := Turn(names, perms, m, n);
    assert s' == s && names[n % |names|] == names[i];
  }

  /** The last turn before which a slot that ends up filled was still free. */
  lemma {:induction false} LastFree(names: seq<string>, perms: seq<seq<nat>>, m: nat, s: nat,
                                    upTo: nat) returns (n: nat)
    requires Ballot(names, perms, m) && s < m && upTo <= m
    requires Fill(names, perms, m, upTo)[s].Some?
    ensures n < upTo
    ensures Fill(names, perms, m, n)[s] == None && Fill(names, perms, m, n + 1)[s].Some?
    decreases upTo
  {
    if Fill(names, perms, m, upTo - 1)[s].Some? {
      n := LastFree(names, perms, m, s, upTo - 1);
    } else {
      n := upTo - 1;
    }
  }
}
