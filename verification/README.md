# Arion DP: four models and what they are proved to do

Arion DP is a data plane for multi-tenant cloud networks. This project models, in Dafny, the four
pieces of it whose correctness is not visible from any single function, and proves what they are for.

- **The JSON codec** of the `transit` command line tool (`src/extern/cJSON.c`). `JsonText` is the
  meaning of the code: a tree type, the text the printer writes for a tree, and what the parser
  does, on suffixes of the input. `JsonStrings` and `JsonLiterals` do the same for string literals,
  and `JsonStringBounds` bounds their length. `JsonPrinter` and `JsonParser` are the code itself: a
  buffer that grows and is written in place, and an offset that moves through a NUL-terminated input.
  `JsonGrammar` is the grammar without the parser: that of RFC 8259, and the wider one of what the code
  lets pass (`Tolerable`: every byte up to 32 as a blank, the numbers `strtod` takes, unescaped control
  bytes, \u in front of anything). `JsonDocuments` shows that exactly the texts of the wider grammar are accepted, as what they
  denote, step by step with `JsonSteps`. `JsonCharacters` has the escapes, UTF-16 and UTF-8 as the
  standards define them. `JsonRoundTrip` and `JsonParsed` hold the theorems about printing and parsing.
  `JsonCompare` says when two trees compare equal; `JsonLists` and `JsonNodes` are the linked nodes,
  with their list edits, comparison and duplication.
- **The Maglev lookup table** (`src/mgmt/common/maglev_table.py`). `Maglev` is the assignment as a
  function of the turns taken, `MaglevTables` the class with its loops, arrays and the difference
  to the previous table. `Permutations` has the number theory, `Names` the order of names.
- **Gateway address rebalancing** (`src/mgmt/manager/project/api/nodes.py`, `utils.py`). `Clusters` is
  the state machine of a cluster: the first node, a joining node, a leaving node. `Droplets` has the
  droplets and a joining node's loops, `Dealing` a leaving node's; `Addresses`, `GatewayLists` and
  `GatewayRange` have the texts and MACs of addresses.
- **Packet rewriting** (`src/xdp/trn_transit_xdp.c`, `src/xdp/trn_kern.h`). `TransitSpec` says for
  every frame and every content of the maps what comes out, `TransitTheorems` what that means for the
  bytes; `Transit` is the program, a packet object filled stage by stage with a frame that is
  overwritten in place. `Checksum` and `IpRewrite` have the one's-complement arithmetic, from RFC 1071
  and RFC 1624.

Each method that changes state is proved against a function of the state before. Where a property
holds only under a condition, the condition is stated as an if-and-only-if: printed trees parse back to
themselves exactly if they nest at most 1000 containers and every number is finite; a text is accepted,
with nothing behind it, exactly if it is one of the wider grammar that nests at most 1000 containers, has
numbers of at most 63 bytes and no half of a surrogate pair alone; a JSON text of RFC 8259 is read as the
tree it denotes exactly if besides no string has a NUL; printing succeeds exactly if the text and two
more bytes fit; trees compare equal exactly if both are consistent and equal as values; a joining node
gets nothing exactly if there are not more addresses than droplets; a frame is sent back, passed, dropped
or asks for an unknown endpoint exactly under conditions on its bytes and the maps.

Numbers are IEEE 754 doubles (`JsonNumbers`), compared as C compares them. The C library's `strtod` and
`sprintf` are parameters. Theorems that print numbers assume of them what the C standard and IEEE 754
say (`Sound`): for a finite double "%1.15g" and "%1.17g" give a number of RFC 8259 of at most 25 bytes,
17 digits read back as the same double, and a text that reads as an equal double has its sign.
`JsonLibc` has a library of which all this is true.

Where code and documentation differ, the model follows the code. `cJSON.h` advises to allocate 5 bytes
more than the text for a preallocated buffer; the code needs the text, its NUL, and one byte more.

To check everything: `dafny verify dfyconfig.toml`.

## Model

| member | source | states |
|---|---|---|
| JsonRoundTrip.DocumentRoundTrip | src/extern/cJSON.c:1010-1093 | for every tree with NUL-free strings and both formats, parsing the rendered text gives the tree with null for each number that is not finite, exactly if containers nest at most 1000 deep; it gives the same tree exactly if also every number is finite |
| JsonRoundTrip.ValueRoundTrip | src/extern/cJSON.c:1222-1348 | the same for a value anywhere inside a text, at any depth and in front of any rest that does not continue a number |
| JsonRoundTrip.RenderIsGrammar | src/extern/cJSON.c:1277-1348 | every rendering, in either format, is a text of the RFC 8259 grammar that the parser supports and that denotes the tree, with null for numbers that are not finite |
| JsonRoundTrip.NulledIsSame | src/extern/cJSON.c:499-502 | replacing numbers that are not finite by null changes nothing exactly if all are finite, and never the nesting |
| JsonDocuments.DocumentParses | src/extern/cJSON.c:1010-1093 | what the parser makes of every text of the wider grammar, with any blanks before it, an optional byte order mark and anything behind it: the tree it denotes with strings cut at a NUL, exactly if it nests at most 1000 containers, its numbers have at most 63 bytes each, no half of a surrogate pair is alone, and only blanks and NULs follow where nothing may; else nothing, but for a single long number whose front is accepted if more may follow |
| JsonDocuments.AcceptedExactly | src/extern/cJSON.c:1010-1093 | for every text and tree: the text is accepted as that tree, with nothing behind it, if and only if it is a text of the wider grammar between blanks, within these limits, that denotes the tree with strings cut at a NUL |
| JsonDocuments.AcceptedIsTolerable | src/extern/cJSON.c:1010-1093 | whatever is accepted, whether more may follow or not, starts with a text of the wider grammar within the limits and is the tree which that denotes; everything else is rejected |
| JsonDocuments.ValueIsTolerable | src/extern/cJSON.c:1222-1274 | the same for a value anywhere in a text: what is consumed is a text of the wider grammar, and what is returned is what it denotes |
| JsonDocuments.MemberRead | src/extern/cJSON.c:1563-1588 | a member is taken only if a name, a colon and a value stand there, with blanks between, and is what these denote |
| JsonDocuments.DocumentIsRead | src/extern/cJSON.c:1010-1093 | a JSON text of RFC 8259 is read as the tree it denotes, with nothing behind it, if and only if besides these three conditions no string has a NUL |
| JsonDocuments.LoneHalfRejected | src/extern/cJSON.c:606-640 | a concrete JSON text with half a surrogate pair that is rejected |
| JsonDocuments.LongNumberRejected | src/extern/cJSON.c:289-324 | a number of 64 digits is rejected if nothing may follow, and else read as its first 63 |
| JsonDocuments.NulCuts | src/extern/cJSON.c:811-818 | a concrete JSON text with a NUL in a string, read as the empty string |
| JsonDocuments.BadDigitsAccepted | src/extern/cJSON.c:550-583 | a concrete text that is none of RFC 8259, four bytes behind \u that are no digits, accepted as the empty string |
| JsonGrammar.LawfulIsTolerable | src/extern/cJSON.c:1222-1274 | every text of RFC 8259 is one of the wider grammar |
| JsonGrammar.TokensAreAscii | src/extern/cJSON.c:1231-1270 | the words and the structural characters are those of RFC 8259, sections 2 and 3 |
| JsonGrammar.NulInMeaning | src/extern/cJSON.c:811-818 | whether a text denotes a NUL can be seen on its string literals |
| JsonGrammar.CutIsSame | src/extern/cJSON.c:811-818 | a tree is what C keeps of it exactly if no string and no name has a NUL |
| JsonGrammar.ValueParses | src/extern/cJSON.c:1222-1274 | every value of the wider grammar at any depth, in front of any rest that does not continue a number, parses to what it denotes exactly within the limits |
| JsonGrammar.ElementsParse | src/extern/cJSON.c:1383-1432 | the elements of an array of the wider grammar are read in order up to the bracket, the rest of the input left untouched, exactly within the limits; an array with any other element is rejected |
| JsonGrammar.FieldsParse | src/extern/cJSON.c:1537-1604 | the same for the members of an object, with blanks anywhere between |
| JsonGrammar.NumberParses | src/extern/cJSON.c:276-350 | every number of the wider grammar: read whole, as the double strtod gives for it, exactly if it has at most 63 bytes; of a longer one what strtod takes of the first 63 bytes is read, and the parser stops in front of a byte of the same number |
| JsonGrammar.DepthIsNesting | src/extern/cJSON.c:1356-1360 | the depth of a text is the nesting of the tree it denotes |
| JsonNumbers.NumberTaken | src/extern/cJSON.c:320-324 | strtod takes every number of the wider grammar whole, those of RFC 8259 section 6 among them |
| JsonNumbers.TakenIsNumber | src/extern/cJSON.c:320-324 | of every text that starts like a number strtod takes nothing or a number of the wider grammar |
| JsonNumbers.NumberTextReads | src/extern/cJSON.c:499-517 | what is printed for a finite number is an RFC 8259 number of at most 25 bytes that reads back as that number; it is the text with 15 digits exactly if that reads as an equal number, or both texts are the same |
| JsonLibc.ExactIsSound | src/extern/cJSON.c:499-517 | there is a C library that meets what is assumed of printed numbers |
| JsonParsed.ReformattingKeepsMeaning | src/extern/cJSON.c:1010-1170 | every text the parser accepts is printed, in either format, as a text that is accepted with nothing behind it; it gives the same tree exactly if every number was read as a finite one, and null in place of the others |
| JsonParsed.OverflowBecomesNull | src/extern/cJSON.c:320-330 | a number read as infinite, 1e999, is accepted, printed as null and read back as null |
| JsonParsed.ParsedIsPrintable | src/extern/cJSON.c:1222-1274 | every accepted value has NUL-free strings and keys, and no container opened past the nesting limit |
| JsonStrings.Utf8IsRfc3629 | src/extern/cJSON.c:650-697 | the bytes stored for every code point a literal can denote are the RFC 3629 sequence of exactly that code point |
| JsonStrings.CombineIsUtf16 | src/extern/cJSON.c:636-643 | the two UTF-16 units of every character from 0x10000 to 0x10FFFF are read as that character |
| JsonStrings.PairIsUtf16 | src/extern/cJSON.c:606-643 | two units are taken together exactly if they are a surrogate pair, and then as the character RFC 2781 encodes by them |
| JsonStrings.ShortEscapeIsRfc8259 | src/extern/cJSON.c:770-792 | every one-letter escape stands for the character RFC 8259 section 7 gives for it, and no other letter for any |
| JsonStrings.HexValueIsDigit | src/extern/cJSON.c:556-572 | a byte is read as the value of the hexadecimal digit it is, in small or capital letters, and no other byte as a digit |
| JsonStrings.Hex4Spells | src/extern/cJSON.c:550-583 | four digits are read as the number they spell, most significant first |
| JsonStrings.SpelledIsHex4 | src/extern/cJSON.c:550-583 | every four bytes that spell a number are digits, read as that number |
| JsonStrings.ReadLiteral | src/extern/cJSON.c:587-648 | an accepted escape of one or two UTF-16 units denotes no surrogate, at most 0x10FFFF, and has length 12 exactly above the basic plane |
| JsonLiterals.LiteralParses | src/extern/cJSON.c:708-834 | every literal, with any mix of unescaped bytes, short escapes and \u escapes, parses exactly if no half of a surrogate pair is alone, and then to the UTF-8 of the characters that the escapes of RFC 8259 and UTF-16 denote, up to a NUL |
| JsonLiterals.ParsedIsLiteral | src/extern/cJSON.c:708-834 | whatever parses as a string is such a literal in front of the rest, and gives what it denotes |
| JsonLiterals.WellFormedIsLiteral | src/extern/cJSON.c:708-834 | every literal of RFC 8259 section 7 is one of these |
| JsonLiterals.PiecesDecode | src/extern/cJSON.c:754-812 | the second pass decodes every piece of such a literal, exactly if no half of a surrogate pair is alone |
| JsonLiterals.HalfRejected | src/extern/cJSON.c:606-640 | the second half of a pair, and the first in front of the end of the literal or of anything but a second half, is rejected |
| JsonLiterals.ClosedIsFound | src/extern/cJSON.c:721-743 | the first pass finds the quote behind a body exactly if the body has no quote of its own but those a backslash hides |
| JsonLiterals.NulInDenoted | src/extern/cJSON.c:811-818 | a literal denotes a NUL exactly if one of its pieces is one |
| JsonLiterals.StringRoundTrip | src/extern/cJSON.c:837-956 | a NUL-free string survives escaping and parsing byte for byte |
| JsonLiterals.PieceOf | src/extern/cJSON.c:910-951 | what the printer writes for a byte is a well-formed piece that denotes exactly that byte: itself exactly for printable bytes but quote and backslash, \u with small digits exactly for control bytes without a letter of their own |
| JsonStringBounds.AllocationSuffices | src/extern/cJSON.c:721-752 | for every input the decoded bytes and their NUL fit what the first pass allocates, also where the two passes disagree on which backslash starts an escape |
| JsonStringBounds.DecodedFits | src/extern/cJSON.c:756-809 | the same from every point of the second pass on, in the room that is left |
| JsonStringBounds.Advance | src/extern/cJSON.c:725-739 | wherever the second pass stands, the first pass was at a step there or one byte on, and at most every second byte before it was a skipped backslash |
| JsonStringBounds.RoomAfterLiteral | src/extern/cJSON.c:650-700 | a unit escape never needs more room than the first pass left for its bytes |
| JsonPrinter.PrintBuffer.Ensure | src/extern/cJSON.c:383-468 | room is made exactly if the text, the request and a NUL fit the preallocated size or INT_MAX; growth doubles the need or goes to INT_MAX, and keeps the text so far |
| JsonPrinter.PrintBuffer.Store | src/extern/cJSON.c:383-390 | every write lies behind the offset and inside what the last reservation granted |
| JsonPrinter.PrintBuffer.UpdateOffset | src/extern/cJSON.c:471-481 | the scan for the NUL ends exactly at the end of the text printed so far |
| JsonPrinter.PrintBuffer.PrintNumber | src/extern/cJSON.c:484-547 | a number is appended as null if it is not finite, else with 15 digits if they read back as an equal number, else with 17, exactly if the text has at most 25 bytes and fits |
| JsonPrinter.PrintBuffer.CountEscapes | src/extern/cJSON.c:864-888 | the counting loop predicts the escaped length exactly, and counts none only if nothing is escaped |
| JsonPrinter.PrintBuffer.PrintString | src/extern/cJSON.c:837-956 | the quoted text is appended by copying or byte by byte, exactly if it fits |
| JsonPrinter.PrintBuffer.PrintByte | src/extern/cJSON.c:912-950 | one byte is appended as itself or as its escape, including the NUL that sprintf leaves behind |
| JsonPrinter.PrintBuffer.PrintValue | src/extern/cJSON.c:1277-1348 | through all nested calls and reallocations the buffer ends up holding the old text and the rendering, exactly if every number is short and the text and two bytes fit; the depth is restored |
| JsonPrinter.PrintBuffer.PrintArray | src/extern/cJSON.c:1445-1504 | the same for arrays |
| JsonPrinter.PrintBuffer.PrintItems | src/extern/cJSON.c:1468-1492 | after the loop the buffer holds the rendered elements with their separators; it fails only if a number is too long or the elements do not fit |
| JsonPrinter.PrintBuffer.PrintObject | src/extern/cJSON.c:1616-1727 | the same for objects, formatted and unformatted |
| JsonPrinter.PrintBuffer.PrintMembers | src/extern/cJSON.c:1643-1707 | after the loop the buffer holds the rendered members, each on its own indented line if formatted |
| JsonPrinter.PrintBuffer.PrintMember | src/extern/cJSON.c:1645-1704 | one member is appended with indentation, separator, comma and line end, exactly if it fits |
| JsonPrinter.PrintBuffer.CloseObject | src/extern/cJSON.c:1709-1726 | the closing brace is indented to the outer level, and what is reserved for it suffices exactly |
| JsonPrinter.Print | src/extern/cJSON.c:1097-1159 | the result is a new buffer that holds the rendering and its NUL and nothing else; with a sound C library it exists exactly if the text and two bytes fit INT_MAX |
| JsonPrinter.SoundNumbersFit | src/extern/cJSON.c:484-523 | a sound C library's number texts never overrun the printer's own buffer |
| JsonPrinter.PrintPreallocated | src/extern/cJSON.c:1202-1219 | printing into the caller's buffer succeeds exactly if the text and two bytes fit, and leaves the rendering and its NUL there |
| JsonParser.ParseBuffer.SkipWhitespace | src/extern/cJSON.c:973-991 | the offset moves over blanks as the grammar says and never past the last byte |
| JsonParser.ParseBuffer.FindEnd | src/extern/cJSON.c:721-743 | the first pass finds the closing quote and counts the skipped backslashes, or fails exactly if there is no quote |
| JsonParser.ParseBuffer.ParseHex4 | src/extern/cJSON.c:550-583 | four digits are read as their value, anything else as 0 |
| JsonParser.ParseBuffer.Utf16LiteralToUtf8 | src/extern/cJSON.c:587-705 | an escape is decoded into the output in place, only its bytes change, and a malformed one changes nothing |
| JsonParser.ParseBuffer.EncodeUtf8 | src/extern/cJSON.c:650-701 | the backward loop stores exactly the bytes of the code point |
| JsonParser.ParseBuffer.DecodeEscape | src/extern/cJSON.c:763-808 | one escape is decoded in bounds, or the whole literal is rejected; the room for the rest still suffices |
| JsonParser.ParseBuffer.Decode | src/extern/cJSON.c:754-812 | the second pass stays inside the allocated output on every input and gives what the literal denotes |
| JsonParser.ParseBuffer.ParseString | src/extern/cJSON.c:708-834 | two passes over the input compute the string the grammar says and stop behind its quote |
| JsonParser.ParseBuffer.ParseNumber | src/extern/cJSON.c:276-350 | the copied bytes, at most 63, and what strtod takes of them are those of the grammar, and the value is the double strtod gives |
| JsonParser.ParseBuffer.ParseValue | src/extern/cJSON.c:1222-1274 | on every input the recursive parser accepts, rejects, and leaves offset and depth as the grammar says |
| JsonParser.ParseBuffer.ParseArray | src/extern/cJSON.c:1351-1442 | the same for arrays, with the limit of 1000 open containers |
| JsonParser.ParseBuffer.ParseItems | src/extern/cJSON.c:1383-1423 | the element loop collects exactly the elements of the grammar, in order |
| JsonParser.ParseBuffer.ParseObject | src/extern/cJSON.c:1507-1613 | the same for objects |
| JsonParser.ParseBuffer.ParseMembers | src/extern/cJSON.c:1537-1595 | the member loop collects exactly the members of the grammar, in order |
| JsonParser.ParseBuffer.ParseMember | src/extern/cJSON.c:1563-1588 | the offset and the member are as specified: a name, a colon and a value, with blanks anywhere between, or failure |
| JsonParser.Parse | src/extern/cJSON.c:1010-1093 | a whole C string is parsed as the grammar says, byte order mark, leading blanks and the optional demand for nothing behind the value included |
| JsonCompare.CompareExactly | src/extern/cJSON.c:2840-2963 | for all trees: they compare equal exactly if each is consistent in itself (no NaN, repeated keys with equal values) and, objects read as unordered maps and zeros without sign, they are the same |
| JsonCompare.CompareSymmetric | src/extern/cJSON.c:2840-2963 | the order of the arguments never matters, also with repeated keys |
| JsonCompare.CompareTransitive | src/extern/cJSON.c:2840-2963 | equality is transitive for all trees |
| JsonCompare.CompareReflexive | src/extern/cJSON.c:2564-2641 | a copy compares equal to its original exactly if no number is NaN and every repeated key has an equal value |
| JsonCompare.CompareDistinct | src/extern/cJSON.c:2922-2958 | with distinct keys, equal exactly if equal as unordered values with no NaN in them |
| JsonCompare.CopyNotEqual | src/extern/cJSON.c:2922-2958 | a concrete object with a repeated key that does not compare equal to its copy |
| JsonCompare.CopyNotEqualIgnoringCase | src/extern/cJSON.c:104-126 | the same for keys that differ in case only, when case is ignored |
| JsonCompare.Find | src/extern/cJSON.c:1782-1812 | lookup finds the first member with the key, and no earlier one has it |
| JsonCompare.LowerByteLowers | src/extern/cJSON.c:104-126 | lowering a byte replaces the capital letters of ASCII by the small ones and keeps all others |
| JsonNodes.CaseInsensitiveStrcmp | src/extern/cJSON.c:104-126 | the comparison gives 0 exactly for strings that differ in the case of ASCII letters only |
| JsonNodes.GetObjectItem | src/extern/cJSON.c:1782-1812 | the walk along the list ends at the first child with the key, or with null |
| JsonNodes.Compare | src/extern/cJSON.c:2840-2963 | on nodes the recursive walk terminates and answers by kinds, values and children, or yes for one and the same node, whatever nodes the two trees share |
| JsonNodes.EquatedIsSame | src/extern/cJSON.c:2864-2868 | for trees that share no node, and for consistent values whatever nodes they share, nodes compare as their values do |
| JsonNodes.SameNodeSameValue | src/extern/cJSON.c:2864-2868 | one node stands for one value only |
| JsonNodes.CompareElements | src/extern/cJSON.c:2898-2920 | the two lists are walked in step, and a longer one is not equal |
| JsonNodes.CompareMembers | src/extern/cJSON.c:2926-2939 | every member of the one object is compared with the one found under its key in the other |
| JsonNodes.Duplicate | src/extern/cJSON.c:2564-2641 | the copy is made of fresh nodes only, stands for the same value (without children if not recursive), and every original node keeps every field |
| JsonNodes.CompareWithCopy | src/extern/cJSON.c:2564-2641 | on nodes, a recursive copy compares equal to its original exactly if the value is consistent |
| JsonNodes.CopyChildren | src/extern/cJSON.c:2607-2630 | the copied children form a well-linked list in the same order with the same keys |
| JsonLists.ChildrenUnique | src/extern/cJSON.c:1753-1770 | in a well-linked list the links determine the sequence of children |
| JsonLists.GetArrayItem | src/extern/cJSON.c:1753-1780 | the child at the index, null past the end and for a negative index |
| JsonLists.AddItemToArray | src/extern/cJSON.c:1858-1885 | appends a node as it is; the list is well linked afterwards exactly if the node had no next link, nor, alone in the list, a previous one |
| JsonLists.DetachItemViaPointer | src/extern/cJSON.c:2085-2113 | removes exactly that child, which then points nowhere, and keeps the list well linked |
| JsonLists.DetachItemFromArray | src/extern/cJSON.c:2115-2123 | removes the child at the index, or nothing |
| JsonLists.InsertItemInArray | src/extern/cJSON.c:2155-2182 | inserts before the index, whatever links the new node had; past the end it appends the node as it is; a negative index changes nothing |
| JsonLists.ReplaceItemViaPointer | src/extern/cJSON.c:2184-2217 | puts the replacement in the child's place and unlinks the child; a node replaced by itself stays |
| JsonLists.ReplaceItemInArray | src/extern/cJSON.c:2219-2227 | the same by index, nothing outside the list |
| Permutations.PrimeStepsPermute | src/mgmt/common/maglev_table.py:126-138 | for every prime size and every offset and skip below it, the preference list is a permutation of the slots |
| Permutations.NoZeroDivisors | src/mgmt/common/maglev_table.py:136-137 | modulo a prime no product of smaller numbers vanishes |
| Permutations.InjectiveIsPermutation | src/mgmt/common/maglev_table.py:126-138 | a list of all different slots, as many as there are, misses none |
| Permutations.StepsOfPermutation | src/mgmt/common/maglev_table.py:131-138 | a preference list starts at the offset and goes on by the skip, around the table |
| Maglev.Loads | src/mgmt/common/maglev_table.py:104-124 | the full table has no empty slot and the i-th of n sorted elements owns exactly m/n slots, one more if i < m mod n, also for n > m |
| Maglev.Progress | src/mgmt/common/maglev_table.py:108-124 | after every turn exactly one more slot is taken and every element has its exact share of the turns |
| Maglev.FreeSlotFound | src/mgmt/common/maglev_table.py:114-117 | while a slot is free every element finds one, so no resume index runs past the table |
| Maglev.TurnPriority | src/mgmt/common/maglev_table.py:112-124 | an element that owns the k-th slot of its list got it on its own turn, when every slot it prefers had been taken |
| Maglev.Stable | src/mgmt/common/maglev_table.py:115-118 | a taken slot never changes hands while the table fills |
| MaglevTables.SortNames | src/mgmt/common/maglev_table.py:113 | the names, each once, in ascending order of their characters |
| MaglevTables.MaglevTable.PermutationSteps | src/mgmt/common/maglev_table.py:126-138 | the list of an element starts at its CRC-32 modulo the size and goes on by its Adler-32 modulo the size less one, plus one |
| Names.LeqIsPrecedes | src/mgmt/common/maglev_table.py:113 | one name is sorted before another exactly if it is a proper prefix of it, or has the smaller character at the first place where they differ |
| Names.SortedByCharacters | src/mgmt/common/maglev_table.py:113 | in the sorted names each stands behind exactly those that precede it in this sense |
| MaglevTables.MaglevTable.ComputePermutations | src/mgmt/common/maglev_table.py:126-138 | the loop computes the preference list of the element, which starts at its CRC-32 and steps by its Adler-32, or encoding its name fails |
| MaglevTables.NextFree | src/mgmt/common/maglev_table.py:114-117 | the resume index moves to the element's first free slot and stays in range |
| MaglevTables.TakeTurn | src/mgmt/common/maglev_table.py:114-120 | one turn of the loops is one turn of the assignment |
| MaglevTables.MaglevTable.RunTurns | src/mgmt/common/maglev_table.py:108-124 | the two unbounded loops terminate with the table after exactly as many turns as slots |
| MaglevTables.MaglevTable.TableLoads | src/mgmt/common/maglev_table.py:104-124 | in the table of n elements only they own slots, each m/n of the m slots, and one more exactly if fewer than m mod n of the names precede it |
| MaglevTables.MaglevTable.Add | src/mgmt/common/maglev_table.py:45-54 | the element is added and a rebuild is due, or it exists or its name is not ASCII and nothing changes |
| MaglevTables.MaglevTable.Remove | src/mgmt/common/maglev_table.py:56-63 | the element is removed and a rebuild is due, or nothing changes |
| MaglevTables.MaglevTable.GetTable | src/mgmt/common/maglev_table.py:30-43 | after any sequence of calls the table depends on the current elements only, with these loads, and after a rebuild the lists hold exactly the pairs of owners that changed |
| MaglevTables.MaglevTable.GeneratePrevElementsMap | src/mgmt/common/maglev_table.py:79-102 | under each new owner exactly the owners it replaced, without duplicates or empty lists, and both counters equal to the numbers of pairs and of owners |
| Addresses.IpRoundTrip | src/mgmt/manager/project/api/utils.py:23-34 | the dotted text of every 32-bit address is read back as that address |
| Addresses.IpShape | src/mgmt/manager/project/api/utils.py:23 | the text of an address has four decimal numbers without leading zeros, its octets, most significant first |
| Addresses.MacRoundTrip | src/mgmt/manager/project/api/utils.py:12-37 | the text of every 48-bit MAC is read back as that MAC |
| Addresses.MacShape | src/mgmt/manager/project/api/utils.py:12-15 | the text of a MAC has six pairs of small hexadecimal digits, its bytes, most significant first |
| Addresses.OrDisjoint | src/mgmt/manager/project/api/utils.py:28-31 | or-ing a number into zero low bits is adding it |
| Addresses.MacTellsIp | src/mgmt/manager/project/api/utils.py:28-31 | the MAC derived from an address is the prefix plus the address |
| Addresses.MacInjective | src/mgmt/manager/project/api/utils.py:28-31 | different addresses have different MACs |
| GatewayRange.GetGwsFromIpRange | src/mgmt/manager/project/api/utils.py:17-26 | the list has every address of the range exactly once, with its MAC |
| GatewayRange.RangeSize | src/mgmt/manager/project/api/utils.py:18-21 | the range has as many address texts as numbers |
| GatewayRange.RangePairing | src/mgmt/manager/project/api/utils.py:21-31 | within a range the MAC determines the address |
| GatewayRange.NewCluster | src/mgmt/manager/project/api/nodes.py:258-262 | a cluster without droplets is valid for every configured range |
| GatewayLists.ItfEntrances | src/mgmt/manager/project/api/nodes.py:95-111 | every entrance sent to a node pairs an address with its own MAC |
| Droplets.Droplet.Give | src/mgmt/manager/project/api/nodes.py:212-227 | popping the last address and removing its MAC by value keeps the two lists aligned |
| Droplets.Droplet.Take | src/mgmt/manager/project/api/nodes.py:476-479 | appending an address and its MAC keeps the two lists aligned |
| Droplets.Pass | src/mgmt/manager/project/api/nodes.py:211-227 | one pass takes the last address from every droplet that has more than one, in their order, and loses none |
| Droplets.Collect | src/mgmt/manager/project/api/nodes.py:206-232 | the loop terminates after the least number of passes that collects t addresses, with at most t + donors - 1 of them, in the order of passes and donors; every donor of L addresses is left with L less that number, but at least one; it never gives up, and loses or duplicates nothing |
| Droplets.LeastIsLeast | src/mgmt/manager/project/api/nodes.py:206-232 | as many passes or more collect t addresses, fewer do not |
| Droplets.RoundsAt | src/mgmt/manager/project/api/nodes.py:210-215 | pass q takes the address with q others behind it, and it stands behind all those of earlier passes and those the same pass takes from the lists in front |
| Clusters.FairShareIsShare | src/mgmt/manager/project/api/nodes.py:200-201 | the share t of a node that joins n droplets is the number with t (n + 1) <= total < (t + 1) (n + 1), and nothing exactly if total < n + 1 |
| Clusters.FairShareFits | src/mgmt/manager/project/api/nodes.py:200-205 | a positive fair share is no more than what the droplets own beyond one address each |
| Clusters.SplitDonors | src/mgmt/manager/project/api/nodes.py:191-199 | the loop counts all addresses and collects exactly the droplets with more than one |
| Clusters.SortByLength | src/mgmt/manager/project/api/nodes.py:208 | a permutation of the droplets, ordered by the length of their lists, those of the same length in their old order |
| Clusters.CollectFrom | src/mgmt/manager/project/api/nodes.py:205-233 | the same seen over all droplets of the cluster, donors or not; the addresses come in turn from the longest list first, of equally long ones the first first |
| Clusters.Cluster.AddNode | src/mgmt/manager/project/api/nodes.py:190-275 | the first node gets all, in the given order; a later one the addresses that the least sufficient number of passes collects for its share t with t (n + 1) <= total < (t + 1) (n + 1), in turn from the longest list first, or nothing, exactly if total < n + 1; the addresses stay partitioned, unless the name of the new droplet is taken: then exactly the collected ones are lost |
| Clusters.DropletNameIs | src/mgmt/manager/project/api/nodes.py:244 | a droplet is named after its node, with a prefix, small letters for capital ones and dashes for underscores |
| Clusters.SameDropletName | src/mgmt/manager/project/api/nodes.py:244 | two nodes have the same droplet name exactly if their names differ in case and in underscores for dashes only |
| Clusters.NamesCollide | src/mgmt/manager/project/api/nodes.py:244 | two concrete node names with the same droplet name |
| Clusters.Cluster.RemoveNode | src/mgmt/manager/project/api/nodes.py:442-496 | the addresses stay partitioned; those of the leaving droplet are dealt round-robin to the others, shortest first and equally long ones in their order, each gaining floor or ceiling of its share and no spread growing beyond one; without such a droplet, or without others, nothing changes |
| Clusters.Cluster.Partition | src/mgmt/manager/project/api/nodes.py:190-275 | in every reachable state every address of the range is on exactly one list in exactly one place |
| Clusters.Extend | src/mgmt/manager/project/api/nodes.py:244-250 | a new droplet for what the others gave completes the partition again |
| Clusters.Survive | src/mgmt/manager/project/api/nodes.py:473-482 | after the dealing the survivors partition the range |
| Dealing.Deal | src/mgmt/manager/project/api/nodes.py:475-482 | the loop deals the addresses exactly round-robin, with their MACs |
| Dealing.DealtShare | src/mgmt/manager/project/api/nodes.py:475-479 | each of m survivors keeps what it had and gains floor or ceiling of k/m addresses |
| Dealing.DealtCard | src/mgmt/manager/project/api/nodes.py:475-479 | the j-th address that survivor i of m gains is address i + j m of the leaving droplet |
| Dealing.DealtConserves | src/mgmt/manager/project/api/nodes.py:475-479 | dealing loses and duplicates nothing |
| Dealing.DealtSpread | src/mgmt/manager/project/api/nodes.py:472-479 | because the shortest are served first, the spread afterwards is at most the larger of the old spread and 1 |
| Dealing.DealtEvenly | src/mgmt/manager/project/api/nodes.py:472-479 | even shares and bounded spread, together, for the lists in the order they are served |
| Checksum.OnesFoldUnique | src/xdp/trn_kern.h:249-258 | a 16-bit number congruent to the sum modulo 0xffff, and zero only with it, is the folded sum |
| Checksum.FoldHelper | src/xdp/trn_kern.h:249-258 | four conditional folds suffice for every 64-bit accumulator |
| Checksum.ByteOrderIndependent | src/xdp/trn_kern.h:249-258 | the host-order sum is the network-order sum up to a factor of 256 modulo 0xffff, and zero only with it (RFC 1071, section 2) |
| Checksum.VerifiesInNetworkOrder | src/xdp/trn_kern.h:249-269 | data whose host-order words verify sum to 0xffff as a receiver adds them |
| Checksum.CheckWordVerifies | src/xdp/trn_kern.h:261-269 | storing the complement of the sum of the other words makes the data verify |
| Checksum.UpdateL4Csum | src/xdp/trn_kern.h:272-277 | the incremental form computes RFC 1624 Eqn. 3 with 32-bit operands, 64-bit complement included |
| Checksum.UpdateIsRecomputation | src/xdp/trn_kern.h:272-277 | updating the correct checksum of a sum gives the correct checksum of the new sum, for every pair of addresses |
| Checksum.UpdateIsAccepted | src/xdp/trn_kern.h:272-277 | updating any check word that a receiver accepts gives one that it accepts, also where zero was sent as 0xffff |
| IpRewrite.ReaddressedVerifies | src/xdp/trn_kern.h:450-467 | after the rewrite the ten header words sum to 0xffff in one's complement, whatever they were before |
| IpRewrite.Ipv4Csum | src/xdp/trn_kern.h:261-269 | the loop over ten words computes the folded complement of the header |
| IpRewrite.SetSrcDstIpCsum | src/xdp/trn_kern.h:450-467 | only the header changes: the addresses, the lowered TTL and the check word |
| IpRewrite.InnerL4CsumUpdate | src/xdp/trn_kern.h:470-503 | only the check word of the parsed transport header changes, and only for a new address |
| IpRewrite.SetSrcDstInnerIpCsum | src/xdp/trn_kern.h:506-532 | header and transport check word change together; a header outside the packet changes nothing |
| IpRewrite.TcpStaysCorrect | src/xdp/trn_kern.h:470-532 | if the inner TCP checksum was correct, then after any change of both addresses it is the checksum computed from scratch |
| IpRewrite.UdpStaysCorrect | src/xdp/trn_kern.h:470-532 | the same for a UDP checksum, two bytes at its own place |
| IpRewrite.L4StaysAccepted | src/xdp/trn_kern.h:470-532 | a segment whose words and pseudo-header sum to 0xffff, as a receiver adds them, does so after any change of both addresses |
| IpRewrite.NoChecksumStays | src/xdp/trn_kern.h:470-503 | a check word of zero, for no checksum, is zero after both updates exactly if old and new addresses have the same sum modulo 0xffff |
| TransitSpec.FirstEntrance | src/xdp/trn_transit_xdp.c:630-666 | the first configured entrance with the MAC, none before it having it |
| TransitTheorems.OnlyTxWrites | src/xdp/trn_transit_xdp.c:209-666 | a verdict other than TX leaves every byte as it was |
| TransitTheorems.VniIsBigEndian | src/xdp/trn_kern.h:228-231 | the program's network identifier is the number whose big-endian bytes are the three of the tunnel header |
| TransitTheorems.TypesAndCodes | src/xdp/trn_transit_xdp.c:388-410 | frame types and ARP codes are the assigned numbers in network order |
| TransitTheorems.TxExactlyWhen | src/xdp/trn_transit_xdp.c:469-666 | a frame goes back out exactly if MAC and outer address match the same entrance, the UDP port and role are those of a tunnel with a complete header, and it holds an answerable ARP request or a forwardable IPv4 packet of the network its bytes name |
| TransitTheorems.PassExactlyWhen | src/xdp/trn_transit_xdp.c:576-666 | a frame goes to the host stack exactly if it is not IPv4, or addressed to an entrance, alive and not UDP, or UDP but no tunnel of this role |
| TransitTheorems.DropExactlyWhen | src/xdp/trn_transit_xdp.c:373-628 | a frame is dropped by verdict exactly if it is addressed to an entrance and at the end of its life, or a tunnel whose inner frame is ARP other than a request, of another type, or without a security group rule |
| TransitTheorems.UnknownExactlyWhen | src/xdp/trn_transit_xdp.c:209-467 | the endpoint is unknown exactly if an otherwise answerable or forwardable frame asks for one that is not stored |
| TransitTheorems.SgVerdictIs | src/xdp/trn_transit_xdp.c:132-206 | the security groups pass a packet exactly if the egress rule and, for TCP and UDP, the ingress rule are there, and drop it exactly if one that is reached is not |
| TransitTheorems.ForUsIsIp | src/xdp/trn_transit_xdp.c:597-666 | only frames whose MAC and outer address match one entrance get past the outer headers |
| TransitTheorems.OuterFields | src/xdp/trn_transit_xdp.c:311-321 | the outer rewrite sets MACs, addresses and check word, lowers the TTL by one, and leaves every other byte |
| TransitTheorems.ForwardedIp | src/xdp/trn_transit_xdp.c:209-371 | a forwarded packet goes to the host stored under exactly the inner destination and the number whose big-endian bytes are the frame's network identifier, and nothing else changes but the inner destination MAC |
| TransitTheorems.AnsweredArp | src/xdp/trn_transit_xdp.c:373-467 | an answered request comes back as the reply of RFC 826 along the reversed outer path, with the MAC stored under the requested address and the frame's network identifier, and nothing else changes |
| Transit.TransitPacket.SgCheck | src/xdp/trn_transit_xdp.c:132-206 | the security group verdict of the packet, without touching it |
| Transit.TransitPacket.ProcessInnerIp | src/xdp/trn_transit_xdp.c:209-371 | the in-place rewrite of a forwarded packet is the specified frame |
| Transit.TransitPacket.ProcessInnerArp | src/xdp/trn_transit_xdp.c:373-467 | the in-place swaps of an answered request are the specified frame |
| Transit.TransitPacket.ProcessInnerEth | src/xdp/trn_transit_xdp.c:469-493 | the in-place stage computes the specified verdict and frame: bounds, then ARP or IPv4 by type |
| Transit.TransitPacket.ProcessGeneve | src/xdp/trn_transit_xdp.c:495-556 | the stage computes the specified outcome, which enters the inner frame only behind a complete Geneve header with the expected options |
| Transit.TransitPacket.ProcessVxlan | src/xdp/trn_transit_xdp.c:558-574 | the stage computes the specified outcome, which enters the inner frame only behind a complete VXLAN header |
| Transit.TransitPacket.ProcessUdp | src/xdp/trn_transit_xdp.c:576-595 | the stage computes the specified outcome: the tunnel by destination port and role |
| Transit.TransitPacket.ProcessIp | src/xdp/trn_transit_xdp.c:597-628 | the stage computes the specified outcome: the outer destination must be the address of the entrance found by MAC |
| Transit.TransitPacket.ProcessEth | src/xdp/trn_transit_xdp.c:630-666 | the whole staged program computes the specified verdict and frame |
| Transit.Run | src/xdp/trn_transit_xdp.c:668-752 | the frame is what the specified program leaves, no byte written unless it is transmitted; the verdict is aborted, passed or transmitted exactly if the program says so, and for an unknown endpoint the socket of the queue if there is one, else a drop |
| Bytes.Overwrite | src/xdp/trn_kern.h:297-305 | copying over a stretch of bytes changes exactly that stretch |

## Left out

JSON codec

- The arithmetic of `strtod` and `sprintf`: they are functions of which only what `Sound` says is used; that 1e999 reads as infinite is a premise of `OverflowBecomesNull`. The integer copy of a number's value.
- Freeing nodes; `JsonLists.ReplaceItemViaPointer` stops where the replaced node is unlinked.
- Raw items, reference items, constant keys, `cJSON_Minify`, allocation failure, hooks and locales.
- The nodes the parser links as it goes: it collects the elements in order as sequences.
- The position reported for a failed parse, and the offset a failed step leaves behind.
- `cJSON_PrintBuffered`: a start buffer of size zero is grown by copying one byte from it.
- Guards against null lists and null item pointers where no caller passes them; a null `valuestring`.
- `cJSON_AddItemToObject` and the replacement of members by key: an append and a replacement with a key set before.
- The bit operations of hexadecimal digits and UTF-8 bytes are written as the arithmetic they amount to.

Maglev table

- CRC-32 and Adler-32 are arbitrary functions of the name.
- MaglevTables.MaglevTable.GetTable: a rebuild without elements is excluded, because there the source loops forever; an empty element name may be added but not be there at a rebuild, because a slot is tested for truth.
- Logging and the `dump` methods.

Rebalancing

- Kubernetes, the database, Hazelcast, RPC and the rows of gateways per node; every remote call succeeds, but for the creation of a droplet whose name is taken. The range of a cluster exists.
- What `int()` accepts beyond plain digits (blanks, underscores, signs), and addresses whose text is not canonical.
- Clusters.Cluster.RemoveNode: the division by zero for the last droplet is an outcome that changes nothing.

Packet rewriting

- The security group lookup tables are finite maps from keys to verdicts; the kernel's trie is not part of this model.
- IPv4 headers with options: the program assumes 20 bytes throughout, and so does the model.
- Tail calls, redirects, AF_XDP sockets beyond the verdict, flow contexts, debug output, the disabled tail options, and pointer checks that cannot fail.
- `trn_update_l4_csum_port` and its callers.
- The host is little-endian; addresses are their four bytes in memory.
