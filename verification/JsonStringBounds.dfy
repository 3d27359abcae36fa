/** The bytes written by the second pass always fit what the first pass reserved. */
module JsonStringBounds {
  import opened Bytes
  import opened JsonStrings

  /** The first pass, started at the head of `t`, steps exactly onto position `n`. */
  ghost predicate Lands(t: Text, n: int) {
    if n <= 0 then n == 0
    else if n > |t| then false
    else if t[0] == BACKSLASH then n >= 2 && Lands(t[2..], n - 2)
    else Lands(t[1..], n - 1)
  }

  lemma {:induction false} QuoteLands(t: Text)
    ensures FindQuote(t).Some? ==> Lands(t, FindQuote(t).value)
    decreases |t|
  {
    if t != [] && t[0] != QUOTE {
      if t[0] != BACKSLASH {
        QuoteLands(t[1..]);
      } else if |t| >= 2 {
        QuoteLands(t[2..]);
      }
    }
  }

  /** Room for the rest of the output: either the first pass also has a step at the head of `t`, or
      the head is the second byte of one of its escapes. */
  ghost predicate Room(t: Text, n: int, room: int)
    requires |t| > n
  {
    if n <= 0 then room >= 0
    else
      || (Lands(t, n) && room >= n - Pairs(t, n))
      || (Lands(t[1..], n - 1) && room >= n - Pairs(t[1..], n - 1))
  }

  lemma {:induction false} PairsBound(t: Text, n: nat)
    requires n <= |t|
    ensures 2 * Pairs(t, n) <= n
  {
    if n > 0 {
      if t[0] != BACKSLASH {
        PairsBound(t[1..], n - 1);
      } else if n >= 2 {
        PairsBound(t[2..], n - 2);
      }
    }
  }

  lemma RoomIsRoom(t: Text, n: int, room: int)
    requires |t| > n && Room(t, n, room)
    ensures room >= 0
  {
    if n > 0 {
      PairsBound(t, n);
      PairsBound(t[1..], n - 1);
    }
  }

  lemma LandsBehind(t: Text, n: nat)
    requires 0 < n < |t| && Lands(t, n)
    ensures var k := if t[0] == BACKSLASH then 2 else 1;
      k <= n && Lands(t[k..], n - k) && Pairs(t, n) == Pairs(t[k..], n - k) + k - 1
  {
  }

  /** After `c` bytes the first pass is at a step, or inside an escape; at most every second byte
      was a skipped backslash. */
  lemma {:induction false} Advance(t: Text, n: nat, c: nat)
    requires n < |t| && Lands(t, n) && c <= n
    ensures || (Lands(t[c..], n - c) && 2 * (Pairs(t, n) - Pairs(t[c..], n - c)) <= c)
            || (c < n && Lands(t[c + 1..], n - c - 1) && 2 * (Pairs(t, n) - Pairs(t[c + 1..], n - c - 1)) <= c + 1)
    decreases c
  {
    hide Lands, Pairs;
    if c == 0 {
      assert t[c..] == t;
    } else {
      var k := if t[0] == BACKSLASH then 2 else 1;
      LandsBehind(t, n);
      if c >= k {
        Advance(t[k..], n - k, c - k);
        assert t[k..][c - k..] == t[c..];
        if c < n {
          assert t[k..][c + 1 - k..] == t[c + 1..];
        }
      }
    }
  }

  /** Taking `c` bytes for at most `w` bytes of output leaves room, if `w` is at most half of `c`. */
  lemma RoomAfter(t: Text, n: nat, room: int, c: nat, w: nat)
    requires n < |t| && Room(t, n, room) && 2 <= c <= n && 2 * w <= c
    ensures Room(t[c..], n - c, room - w)
  {
    if Lands(t, n) && room >= n - Pairs(t, n) {
      Advance(t, n, c);
    } else {
      Advance(t[1..], n - 1, c - 1);
      assert t[1..][c - 1..] == t[c..];
      if c < n {
        assert t[1..][c..] == t[c + 1..];
      }
    }
    if c < n {
      assert t[c..][1..] == t[c + 1..];
    }
    if c == n {
      PairsBound(t[c..], 0);
    }
  }

  /** A byte that is no backslash is copied. */
  lemma RoomAfterPlain(t: Text, n: nat, room: int)
    requires n < |t| && n > 0 && Room(t, n, room) && t[0] != BACKSLASH
    ensures Room(t[1..], n - 1, room - 1)
  {
  }

  /** A two-byte escape gives one byte, even if it starts at the last byte of the string. */
  lemma RoomAfterEscape(t: Text, n: nat, room: int)
    requires n < |t| && n > 0 && Room(t, n, room) && t[0] == BACKSLASH
    ensures Room(t[2..], n - 2, room - 1)
  {
    if n >= 2 {
      RoomAfter(t, n, room, 2, 1);
    }
  }

  /** A \u literal of 6 bytes gives at most 3, one of 12 gives 4. */
  lemma RoomAfterLiteral(t: Text, n: nat, room: int, l: Literal)
    requires n < |t| && Room(t, n, room) && ReadLiteral(t, n) == Some(l)
    ensures Room(t[l.length..], n - l.length, room - Utf8Length(l.codepoint))
  {
    RoomAfter(t, n, room, l.length, Utf8Length(l.codepoint));
  }

  /** For every input: what a literal decodes to, with its terminator, fits the allocation of the
      first pass, which counts every skipped backslash out. */
  lemma {:induction false} DecodedFits(t: Text, n: int, room: int)
    requires |t| > n && Room(t, n, room)
    ensures Unescape(t, n).Some? ==> |Unescape(t, n).value| <= room
    decreases n
  {
    if n <= 0 {
    } else if t[0] != BACKSLASH {
      RoomAfterPlain(t, n, room);
      DecodedFits(t[1..], n - 1, room - 1);
    } else if t[1] == LOWER_U {
      if ReadLiteral(t, n).Some? {
        var l := ReadLiteral(t, n).value;
        RoomAfterLiteral(t, n, room, l);
        DecodedFits(t[l.length..], n - l.length, room - Utf8Length(l.codepoint));
      }
    } else if ShortEscape(t[1]).Some? {
      RoomAfterEscape(t, n, room);
      DecodedFits(t[2..], n - 2, room - 1);
    }
  }

  lemma AllocationSuffices(t: Text)
    requires FindQuote(t).Some?
    ensures var n := FindQuote(t).value;
      && Room(t, n, n - Pairs(t, n))
      && (Unescape(t, n).Some? ==> |Unescape(t, n).value| + 1 <= (n + 1 - Pairs(t, n)) + 1)
  {
    var n := FindQuote(t).value;
    QuoteLands(t);
    DecodedFits(t, n, n - Pairs(t, n));
  }
}
