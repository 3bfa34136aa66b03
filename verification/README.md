# Verified model of the asn1c core

asn1c compiles ASN.1 modules to C. This project models, in Dafny, the parts of the compiler whose
correctness is not visible from any single body, and proves what those parts are for:

| file | what it models |
|---|---|
| `Edges`, `Split`, `Crange` | integer ranges as mutable lists of pieces: splitting, intersection, union, canonical form (`libasn1fix/asn1fix_crange.c`) |
| `ConstraintTree`, `Evaluation`, `BareTrees` | constraint trees: the set of integers a tree admits, the set it evaluates to, and how the two compare, with and without exclusions and open ends |
| `ComputeRange` | the evaluation of a tree to a range, in place, proved to yield exactly that set |
| `RangeTest`, `ValueCheck`, `OctetReading` | the C test emitted for a range, the way from a constraint tree to the test (`libasn1compiler/asn1c_constraint.c`), and reading the value that is tested from octets (`skeletons/INTEGER.c`) |
| `AlphabetTables` | the two lookup tables for a permitted alphabet |
| `NodeLists`, `HashModel`, `Genhash` | the hash with its TINY and NORMAL modes, LRU list and iterators (`libasn1common/genhash.c`) |
| `HashRuns`, `LruRuns` | whole runs of hash operations: against a finite map, and which entries a limit evicts |
| `Iteration`, `HashIteration`, `IteratorLinks` | whole iterations over a changing hash, and the linked list of active iterators |
| `Fdeps` | activation of file dependency chains (`libasn1compiler/asn1c_fdeps.c`) |
| `Retrieve`, `Tags` | the walks along type references: terminal type, tag collection, the least tag of a CHOICE (`libasn1fix`) |
| `TagOctets` | identifier octets: from the compiler's tags to those of the runtime, written and read (`skeletons/ber_tlv_tag.c`) |
| `TagMap`, `SetMaps` | the map from tags to members with its group offsets, by tag and for canonical XER, and what a SET makes of both (`libasn1compiler/asn1c_C.c`) |
| `TagSearch` | how the decoder of a SEQUENCE finds an element in that map (`skeletons/constr_SEQUENCE_ber.c`) |
| `Integers` (modules `Integers`, `IntegerOctets`) | integer numerals and INTEGER octets (`libasn1parser/asn1p_integer.c`) |
| `BitString` | comparison of BIT STRING values (`skeletons/BIT_STRING.c`) |
| `Sorting`, `Wrappers` | a stand-in for `qsort` (that for `bsearch` is in `TagSearch`); the option type |

Objects that the C code updates in place are classes here, its loops are loops, and every method is tied
to a specification that does not follow its steps: ranges to the sets of integers they denote, the hash to
a list of entries, the walks to reachability in the graph. `dafny verify dfyconfig.toml` checks everything.

## What the proofs found

The following hold of the code as written; each is stated with its exact condition and with a concrete input.

- **A union whose first operand evaluates to nothing is empty.** The first operand keeps its "empty" flag when
  the others are merged in, so every other operand is lost. For every union that evaluates to a set, it is the
  union of its operands' sets if and only if the first one has members whenever any has (`Evaluation.UnionIff`);
  `((1..2) ^ (5..6)) | (8..9)` loses 8 (`HiddenOperandIsLost`, `ComputeRange.EvaluateHiddenOperand`). An operand
  that merely admits nothing hides nothing: in `(5 EXCEPT 5) | 8`, 8 is kept (`KeptBehindExcept`).
- **A part that covers the natural range is left out of the test.** In a range of several parts, a part that
  covers all values of the C variable contributes no test, while the tests of the other parts remain, so the
  test rejects what the covering part allows. The emitted test is right if and only if no part covers the
  natural range (`RangeTest.Emit`); `OctetRangeIsLost` has the example 0..255 | 300..400 for an octet. When
  every part contains some natural value, this cannot happen (`MeetingPartsNeverCover`), and neither can it for
  the test of an INTEGER value (`ValueCheck.NoPartCovers`).
- **Exclusions and open ends are ignored.** A tree evaluates to what its bare tree does, which has no exclusions, no
  open ends and no incompatible parts (`BareTrees.EvaluatedAsBare`); if that is exact, it evaluates to just what the
  bare tree admits (`BareDecides`), and its check is right if and only if exclusions and open ends take away nothing
  that can be stored (`ValueCheck.IgnoredIff`). The check of `(0..<10) EXCEPT 5` accepts 5 and 10
  (`ExclusionIsIgnored`).
- **Some value checks are left out.** If the bare tree is exact, the check is left out if and only if that admits
  nothing, is open at both ends, or admits just 0..4294967295; that is wrong exactly when a value that can be
  stored is forbidden (`ValueCheck.CompileCheck`). `EmptyIsUnchecked` has `(1..2) ^ (5..6)`, `GapIsUnchecked` has
  `(MIN..1) | (5..MAX)`, and for 0..4294967295 it depends on the stored type (`Uint32IsUnchecked`). A BOOLEAN is
  checked rightly if and only if some truth value is admitted.
- **Negative numbers pass as unsigned ones.** The type of the tested variable follows from the range, that of the
  stored value from the terminal type. Where a signed value is read into an unsigned variable, a check that is not
  left out is right if and only if the range has none of the numbers that only the unsigned type has; the other
  way round, if and only if it has such a number just when it has the negative one for which it passes
  (`ValueCheck.StoredIff`). Without wide types, a stored -5 passes the check of (0..MAX) (`MinusFiveIsAccepted`).
  Where the value is kept as octets, they are read without their sign, or the sign is stored in an unsigned
  variable: the check is right if and only if the range does not call for that, and has no member that is too
  large for a signed variable unless the sign alone decides (`OctetsRightIff`). In (0..4000000000), the octet of -1
  is read as 255 and accepted (`MinusOneIsAccepted`).
- **Numerals that pass the minimum.** Reading a negative numeral one digit of which reproduces the minimum's
  magnitude (up to the last digit) and that continues with another digit overflows a signed multiplication
  instead of reporting a range error. This happens if and only if a proper prefix of the digits is that large
  (`Integers.PassesTheMinimum`); ten times the minimum is an example (`MinimumTimesTen`).
- **The printed minimum is one too small.** Where `long` is narrower than the compiler's integer type, the
  minimum prints as the number before it, so it does not read back, and the returned length counts the
  terminator, contrary to `libasn1parser/asn1p_integer.h:40-44`. The minimum is the only such input: every other
  value makes the round trip (`Integers.RoundTrip`, an equivalence).
- **Deleting from the slots can change a lookup.** In TINY mode without iterators the last entry takes the place
  of the deleted one and may overtake an earlier entry with its key, be it the deleted key or another one
  (`HashModel.SwapRemoveLookup`, an equivalence; `SwapRemoveOvertakes`). With distinct keys it is harmless.
- **A limit may evict an entry that was used after one that stays.** The switch to buckets makes the oldest slot
  the most recent one, the limit is ignored before it, and lookups are not recorded while there is no limit. In
  every run from the empty hash, an addition evicts the least recently used entries if and only if what is kept
  is newer where the order of the list leaves that in doubt: where the evicted entry was looked up in its place
  without a limit, or neither was used since the switch (`LruRuns.EvictsOldestIff`). If the slots were filled in
  turn and no evicted entry was looked up so, that is exactly when nothing is evicted or all entries kept where
  the switch put them were; for a list at its limit without any such lookup, exactly while at most one entry is
  where the switch put it (`InTurnEvictsOldestIff`). With a limit of 5 and six additions, entry 4 goes and
  entry 1 stays (`OlderKept`, and `OlderStays` on the hash itself). After six additions and a lookup of 4 without
  a limit, and then a limit of 6, the next addition evicts 4, which was used last of all (`NewestEvicted`, and
  `NewestGoes` on the hash).
- **Switching to buckets turns iterators round.** Upward iterators return again what they have returned, and all
  of them lose what they had ahead but for one entry: what an iterator has ahead stays the same if and only if it
  had nothing ahead (`HashIteration.Switch`; `FirstComesAgain`).
- **Closing an iterator drops all newer ones.** Back links of iterators are never set, so the list continues
  after the closed iterator; it alone goes if and only if it is the newest
  (`IteratorLinks.IteratorList.CloseActive`). Closing one of the dropped iterators next makes the closed one
  active again, or fails an assertion if no older one is left (`CloseThenNewer`). `IteratorLinks.OlderClosedFirst`
  opens two iterators and closes the older one first: the list is empty then, and closing the other one fails.
- **A canonical order may be lost.** The two maps of a SET are compared on as many bytes as they have entries. The
  encoder goes by the canonical order if and only if that is the order by tag, or the maps differ in their number of
  entries or in those bytes, entry by entry (`SetMaps.OrderKeptIff`). Up to eight entries whose first tags are of
  one class and mode do not differ in them (`OneClassLosesOrder`), nor do maps with the same first entry up to as
  many entries as that has bytes (`SameStartLosesOrder`). In SET { a [1], b [2], c [3], d [4], ..., e [0] }, and with
  any other number of up to seven root members, the last one comes first (`OrderIsLost`).
- **An element may be missing from the canonical map.** The encoder relies on one entry for every element, and
  asserts that there are as many entries as elements. The former holds if and only if no member is an untagged ANY
  and each untagged CHOICE has a key in its extension root, or just one outside (`SetMaps.EachElementOnceIff`); a SET
  of an untagged ANY has none (`AnyIsMissing`). The assertion does not tell: an ANY and a CHOICE with two additions
  and no root pass it (`AssertionIsNotEnough`).
- **Padding bits are compared.** A bit string is compared rightly with every zero-padded one if and only if it
  is zero-padded itself (`BitStrings.PaddingIff`); `PaddingIsCompared` is an example.
- **A tag that was never set.** For an untagged type of another module that is known by name only, no tag is
  fetched, yet the map takes the variable's content for one. What the map holds follows from the members' tags
  if and only if there is no such member (`TagMap.DeterminedIff`). With such a type as its only member, a SEQUENCE
  gets an empty map or one with an entry (`ExternalKeys`, and `ExternalDiffers` on the map itself).

## Model

| member | source | states |
|---|---|---|
| Edges.EdgeCompare | libasn1fix/asn1fix_crange.c:110-143 | orders edges as points of a line on which MIN lies below and MAX above every integer |
| Edges.OverlapMeansCommon | libasn1fix/asn1fix_crange.c:452-479 | two pieces overlap if and only if they share an integer |
| Split.RangeSplit | libasn1fix/asn1fix_crange.c:497-586 | splits exactly when the pieces overlap and ra is not within rb; the sorted result is below, common, above |
| Split.PartsPartition | libasn1fix/asn1fix_crange.c:497-586 | the parts partition ra in ascending order, and each is inside rb or disjoint from it |
| Split.PartsHaveFewerCuts | libasn1fix/asn1fix_crange.c:674-707 | replacing a piece by its parts lowers the total number of cut points, the measure of the split-and-retry loop |
| Crange.CheckEdgesWithin | libasn1fix/asn1fix_crange.c:192-238 | succeeds exactly when every edge lies in some piece of the range |
| Crange.FirstSplit | libasn1fix/asn1fix_crange.c:678-707 | finds a piece of the other range that still cuts this one, or shows that none does |
| Crange.Range.Clone | libasn1fix/asn1fix_crange.c:86-108 | a clone denotes the same range with the same flags |
| Crange.Range.SplitElements | libasn1fix/asn1fix_crange.c:674-707 | the loop ends with every piece inside or disjoint from every piece of the other range, and no integer is lost or gained |
| Crange.Range.DropForeign | libasn1fix/asn1fix_crange.c:711-733 | of settled pieces exactly the integers that are also in the other range remain |
| Crange.ReplaceLosesForeign | libasn1fix/asn1fix_crange.c:537-564 | what a split at the ends of the integer type loses lies in no piece of a canonical other range |
| Crange.Range.Intersect | libasn1fix/asn1fix_crange.c:588-739 | denotes exactly the integers of both; flagged empty exactly when there are none; fails exactly when the strict edge check does |
| Crange.Range.MergeIn | libasn1fix/asn1fix_crange.c:287-329 | the elements hold the integers they held and those of the other range, and nothing else |
| Crange.Range.Union | libasn1fix/asn1fix_crange.c:741-787 | the same integers in sorted, disjoint, non-adjacent pieces |
| Crange.Range.Canonicalize | libasn1fix/asn1fix_crange.c:789-826 | canonical result with the same integers; idempotent; swapped edges are put in order |
| Crange.WrapSubAdjacent | libasn1fix/asn1fix_crange.c:768-773 | the wrapping difference is 1 only for adjacent values |
| Crange.SeparatedUnique | libasn1fix/asn1fix_crange.c:741-787 | two lists of separated pieces with the same integers are equal |
| Crange.CanonicalUnique | libasn1fix/asn1fix_crange.c:789-826 | two canonical ranges that denote the same integers are equal |
| ComputeRange.Fill | libasn1fix/asn1fix_crange.c:336-450 | which literals give an edge, fail or are incompatible, and the edge given |
| ComputeRange.EdgesMean | libasn1fix/asn1fix_crange.c:336-450 | within the parent, lying between the filled edges is what the literals say, MIN and MAX being the parent's ends |
| ComputeRange.Constrain | libasn1fix/asn1fix_crange.c:1377-1399 | the parent range cut down to an interval; when it fails, and when an assertion does |
| ComputeRange.Leaf | libasn1fix/asn1fix_crange.c:1066-1076 | values and ranges yield exactly the set, error or incompatibility that their meaning in the parent set is |
| ComputeRange.Compute | libasn1fix/asn1fix_crange.c:967-1400 | for every tree with the bounds that the grammar has and every parent, the outcome is exactly what the tree evaluates to: the set, an error, an incompatible range, or just a marker |
| ComputeRange.Conjoin | libasn1fix/asn1fix_crange.c:1119-1200 | serial constraints and intersections yield the intersection of their parts' sets, leaving out markers and incompatible parts |
| ComputeRange.FindHead | libasn1fix/asn1fix_crange.c:1204-1228 | the first operand that is more than an extension marker |
| ComputeRange.Unite | libasn1fix/asn1fix_crange.c:1201-1317 | a union yields all its operands' sets together, or nothing when the first one is empty, or the first error or incompatible operand |
| ComputeRange.EvaluateHiddenOperand | libasn1fix/asn1fix_crange.c:1233-1277 | a union that admits 8 and yields a range without members |
| Evaluation.UnionIff | libasn1fix/asn1fix_crange.c:1233-1277 | every union that evaluates to a set is the union of its operands' sets if and only if its first operand has members whenever any has; else nothing is left |
| Evaluation.Contains | libasn1fix/asn1fix_crange.c:967-1400 | the set of a tree contains what the tree admits, with EXCEPT, open ends and incompatible parts, where no union hides its operands |
| Evaluation.Exactly | libasn1fix/asn1fix_crange.c:967-1400 | an exact tree evaluates to just what it admits |
| Evaluation.FailsIff | libasn1fix/asn1fix_crange.c:1382-1390 | an exact tree is an error if and only if some bound lies outside its parent set or an interval has no members there |
| Evaluation.HiddenOperandIsLost | libasn1fix/asn1fix_crange.c:1233-1277 | a union that admits 8 and evaluates to the empty set |
| Evaluation.KeptBehindExcept | libasn1fix/asn1fix_crange.c:1318-1329 | an operand behind an EXCEPT that admits nothing is kept, as EXCEPT is ignored |
| Evaluation.SingleMeans | libasn1fix/asn1fix_crange.c:343-397 | what a single value stands for in a parent set: a number, FALSE as 0 and TRUE as 1, just that member or an error; a string, all members of an unbounded set or an error |
| BareTrees.EvaluatedAsBare | libasn1fix/asn1fix_crange.c:1318-1329 | every tree evaluates to what it does without exclusions, open ends and the incompatible parts of intersections |
| BareTrees.BareDecides | libasn1fix/asn1fix_crange.c:967-1400 | if the bare tree is exact, the tree evaluates to just what that admits, and is an error if and only if that does not fit |
| BareTrees.BareKeptIff | libasn1fix/asn1fix_crange.c:1233-1277 | no union hides its operands if and only if, wherever a union of the bare tree admits anything, its first operand does |
| BareTrees.IncompatibleIff | libasn1fix/asn1fix_crange.c:1119-1352 | just those trees are reported as incompatible that are no range, or unions with such an operand or with markers only |
| RangeTest.EmitPiece | libasn1compiler/asn1c_constraint.c:908-933 | the test of one piece is right on natural values and absent exactly when the piece covers them all |
| RangeTest.EmitParts | libasn1compiler/asn1c_constraint.c:934-952 | the test of several parts accepts exactly what the parts that do not cover the natural range hold |
| RangeTest.Emit | libasn1compiler/asn1c_constraint.c:903-955 | the test is equivalent to membership on natural values if and only if no part covers them all |
| RangeTest.CoveringPartIsLost | libasn1compiler/asn1c_constraint.c:940-949 | when a part covers the natural range, no natural value is in a tested part although each is in the range |
| RangeTest.MeetingPartsNeverCover | libasn1compiler/asn1c_constraint.c:934-952 | if every part contains a natural value, none covers them all |
| RangeTest.OctetRangeIsLost | libasn1compiler/asn1c_constraint.c:940-949 | 0..255 and 300..400 for an octet: every octet is in the range and none in the tested parts |
| ValueCheck.CallsForUnsignedIff | libasn1compiler/asn1c_constraint.c:1111-1132 | a set calls for an unsigned variable if and only if it has no negative member and its greatest one fits `unsigned long` of 32 bits but not `long`, or it has none and the least one fits `long` |
| ValueCheck.SignMeans | libasn1compiler/asn1c_constraint.c:1111-1132 | when the variable is declared unsigned, and when the range is just that of 32 bits, in terms of the set |
| ValueCheck.NoPartCovers | libasn1compiler/asn1c_constraint.c:552-559 | no part of a tested INTEGER range covers what the declared variable can take |
| ValueCheck.CompileCheck | libasn1compiler/asn1c_constraint.c:348-567 | the check of a stored value that the variable holds rejects nothing admitted; where the bare tree is exact, it is a check of just what that admits, exactly when it is right: of integers stored as a signed or unsigned type or as octets, with the sign-only readings, and of a BOOLEAN, for which what is stored as 0 is accepted as FALSE and anything else as TRUE |
| ValueCheck.IgnoredIff | libasn1fix/asn1fix_crange.c:1318-1329 | a check that is right for the bare tree is right for the tree if and only if exclusions and open ends take away nothing that can be stored |
| ValueCheck.TruthsAreAdmitted | libasn1fix/asn1fix_crange.c:373-384 | a tree over FALSE, TRUE, MIN and MAX admits 0 and 1 just where it admits FALSE and TRUE, FALSE being less than TRUE |
| ValueCheck.StoredIff | libasn1compiler/asn1c_constraint.c:1015-1022 | a check that is not left out is right if and only if no stored value is taken for another, by the conversion to the type of the variable, with another outcome |
| ValueCheck.MinusFiveIsAccepted | libasn1compiler/asn1c_constraint.c:407-417 | the check of (0..MAX) without wide types accepts a stored -5 |
| ValueCheck.ExclusionIsIgnored | libasn1fix/asn1fix_crange.c:1318-1329 | the check of (0..<10) EXCEPT 5 accepts just 0 to 10, with 5 and 10 among them |
| ValueCheck.TrueIsTrue | libasn1compiler/asn1c_constraint.c:1081-1083 | the check of BOOLEAN (TRUE) accepts what is not 0 |
| ValueCheck.OctetsRightIff | libasn1compiler/asn1c_constraint.c:1024-1064 | of an integer kept as octets, a check is right if and only if its set does not call for an unsigned variable and fits a signed one or is decided by the sign |
| ValueCheck.UnsignedOctetsFail | libasn1compiler/asn1c_constraint.c:1045-1054 | read into an unsigned variable, some octets of a negative number are accepted or some member is rejected |
| ValueCheck.RunOnOctets | libasn1compiler/asn1c_constraint.c:1024-1064 | running the check on octets, through the conversions of the runtime, accepts what the reading specifies |
| ValueCheck.AdmitsBooleanSet | libasn1fix/asn1fix_crange.c:373-384 | a tree over FALSE, TRUE, MIN and MAX admits a set without gaps |
| ValueCheck.CheckBoolean | libasn1compiler/asn1c_constraint.c:355-357 | the check of a BOOLEAN accepts just the members of such a set, if it has any |
| ValueCheck.MinusOneIsAccepted | libasn1compiler/asn1c_constraint.c:1045-1054 | the check of (0..4000000000) accepts the octet of -1 |
| OctetReading.ToUmax | skeletons/INTEGER.c:271-296 | octets read without a sign, where that value fits |
| OctetReading.ToImax | skeletons/INTEGER.c:219-267 | the value of the octets, however many repeat the sign, where it fits |
| OctetReading.SignBit | skeletons/INTEGER.c:199-216 | the first bit tells a negative value; without it, the readings with and without a sign are the same |
| ValueCheck.EmptyIsUnchecked | libasn1compiler/asn1c_constraint.c:351-361 | a tree that admits nothing and is not checked |
| ValueCheck.GapIsUnchecked | libasn1compiler/asn1c_constraint.c:353-361 | a tree that does not admit 3 and is not checked |
| ValueCheck.Uint32IsUnchecked | libasn1compiler/asn1c_constraint.c:529-534 | 0..4294967295 is not checked, rightly just where the stored type is unsigned and has no more values |
| AlphabetTables.FillTable | libasn1compiler/asn1c_constraint.c:691-710 | each member has its position in ascending order, counted from 1, everything else 0 |
| AlphabetTables.Cardinal | libasn1compiler/asn1c_constraint.c:712-718 | the entries counted over the written part are all members |
| AlphabetTables.FillCodeToValue | libasn1compiler/asn1c_constraint.c:748-753 | the members in ascending order |
| AlphabetTables.EmitTables | libasn1compiler/asn1c_constraint.c:691-759 | both tables hold exactly the alphabet, and the declared size is its number of characters, as the alphabet width has it |
| AlphabetTables.AlphabetCharacters | libasn1compiler/asn1c_C.c:1910-1924 | the number of characters of the alphabet |
| AlphabetTables.MembersAre | libasn1compiler/asn1c_constraint.c:696-710 | the members met piece by piece are those of the range, in ascending order without repetition |
| AlphabetTables.LookupsAreInverse | libasn1compiler/asn1c_C.c:2360-2380 | the lookups are inverse bijections between alphabet and codes 0..n-1, keep the order, and answer -1 elsewhere; section 27.5 of X.691 (2002) |
| Genhash.AgreementMoveFront | libasn1common/genhash.c:230-259 | moving the first element of its key to the front keeps bucket and LRU order in agreement for every key |
| Genhash.AgreementRehashed | libasn1common/genhash.c:309-319 | buckets filled from the least recent element on agree with the LRU order for every key |
| Genhash.Hash.constructor | libasn1common/genhash.c:123-142 | a new hash is empty and in TINY mode |
| Genhash.Hash.RemoveElement | libasn1common/genhash.c:172-222 | unlinks an element from both lists and moves iterators off it; all invariants hold |
| Genhash.Hash.MoveToTop | libasn1common/genhash.c:224-260 | moves to the front of both lists, unless iterators run or there is no limit |
| Genhash.Hash.Rehash | libasn1common/genhash.c:305-323 | a larger table over the same elements satisfies the invariant; the LRU list is untouched |
| Genhash.Hash.ExpandTiny | libasn1common/genhash.c:324-383 | the entries keep their lookup order when they move into buckets, and iterators point at the same entries |
| Genhash.Hash.ExpandNormal | libasn1common/genhash.c:270-323 | growing the table keeps the invariant and changes neither the entries nor the iterators |
| Genhash.Hash.Evict | libasn1common/genhash.c:403-407 | exactly the suffix of the LRU list that leaves room for one element goes, and iterators keep what remains ahead |
| Genhash.Hash.NormalAdd | libasn1common/genhash.c:391-441 | the new element comes first, after eviction; iterators going towards it get it too |
| Genhash.Hash.Add | libasn1common/genhash.c:444-472 | the entries after an addition, in both modes and across the switch |
| Genhash.Hash.AddUnique | libasn1common/genhash.c:474-481 | adds if and only if the key has no entry |
| Genhash.Hash.Get | libasn1common/genhash.c:483-515 | returns the value of the first entry with the key; only its place in the order may change |
| Genhash.Hash.Del | libasn1common/genhash.c:517-598 | deletes the first entry with the key, if any; what iterators have ahead loses just that one |
| Genhash.Hash.IterInit | libasn1common/genhash.c:603-631 | a new iterator has all entries ahead, in the order asked for |
| Genhash.Hash.IterNext | libasn1common/genhash.c:633-671 | returns the first entry ahead and moves past it; other iterators are unaffected |
| HashModel.LookupMoveFront | libasn1common/genhash.c:224-260 | moving a found entry to the front changes no lookup |
| HashModel.SwapRemoveLookup | libasn1common/genhash.c:581-586 | deletion by swapping in the last entry gives every key the lookup that closing the gap gives it if and only if the last entry does not overtake one of its key with another value |
| HashModel.SwapRemoveOvertakes | libasn1common/genhash.c:581-586 | an example with duplicate keys in which it does |
| HashModel.DeleteRefines | libasn1common/genhash.c:517-598 | with distinct keys a deletion removes one binding of the finite map |
| HashRuns.StepRefines | libasn1common/genhash.c:444-598 | each operation answers as a finite map does and leaves the entries representing the updated map |
| HashRuns.RunRefinesMap | libasn1common/genhash.c:444-598 | over every run of addunique, get and del without a limit, all answers are those of a finite map |
| HashRuns.PerformAll | libasn1common/genhash.c:444-598 | the linked hash itself, under any sequence of addunique, get and del without a limit, answers as a finite map does, through the switch to buckets and every growth |
| LruRuns.RunSound | libasn1common/genhash.c:224-260 | from any list on, over every run: but for lookups without a limit, what was used since comes first in the order of last use, and the rest as it was |
| LruRuns.EvictsOldestIff | libasn1common/genhash.c:403-407 | over every run from the empty hash, through the switch: exactly when an addition evicts the least recently used entries |
| LruRuns.InTurnEvictsOldestIff | libasn1common/genhash.c:361-407 | over every run that fills the slots in turn: exactly when, by how many entries are where the switch put them and which of them were looked up without a limit |
| LruRuns.LimitHolds | libasn1common/genhash.c:391-441 | an addition to buckets leaves at most the limit, the new entry first and then a prefix of the old list |
| LruRuns.UseAll | libasn1common/genhash.c:224-598 | the linked hash itself goes through these states, under any sequence of additions, lookups, deletions and limits without iterators |
| LruRuns.OlderKept | libasn1common/genhash.c:361-369 | a list of which the next addition evicts an entry that was used after one that stays |
| LruRuns.OlderStays | libasn1common/genhash.c:361-369 | the hash after a limit of 5 and six additions holds 6, 5, 1, 2, 3 |
| LruRuns.NewestEvicted | libasn1common/genhash.c:241-247 | a list of which the next addition evicts the entry that was used last of all, by a lookup without a limit |
| LruRuns.NewestGoes | libasn1common/genhash.c:241-247 | the hash after six additions and a lookup of 4 without a limit, and a seventh under a limit of 6, holds 7, 6, 5, 1, 2, 3 |
| Iteration.EachReturnedOnce | libasn1common/genhash.c:600-671 | over every run of steps, cuts and additions, no element is returned twice, and a finished iteration has returned every element that was there throughout |
| HashIteration.Iterate | libasn1common/genhash.c:600-671 | the same of the linked hash in NORMAL mode, in both directions, under any sequence of steps, additions with evictions, deletions, lookups, limits and other iterators |
| HashIteration.TinyIterate | libasn1common/genhash.c:600-671 | the same in TINY mode up to the switch, with equal entries told apart |
| Iteration.SlotsDeleted | libasn1common/genhash.c:556-580 | a TINY deletion takes just the deleted entry, by its number, from what an iterator has ahead |
| Iteration.SlotsAppended | libasn1common/genhash.c:455-460 | an added slot joins what upward iterators have ahead, even finished ones, and no others |
| HashIteration.SwitchTurnsRound | libasn1common/genhash.c:371-380 | what an iterator of four slots has ahead before and after the switch, in both directions; it is the same if and only if it is nothing |
| HashIteration.Switch | libasn1common/genhash.c:324-383 | so for every iterator of a full TINY hash |
| HashIteration.FirstComesAgain | libasn1common/genhash.c:371-380 | an upward iterator that returns the first entry again and loses the last two |
| IteratorLinks.IteratorList.Init | libasn1common/genhash.c:603-610 | a new iterator is the head of the list, and the old one gets no back link |
| IteratorLinks.IteratorList.Done | libasn1common/genhash.c:673-684 | closing an iterator, active or dropped, makes the list that of those after it; an empty list fails the assertion |
| IteratorLinks.IteratorList.CloseActive | libasn1common/genhash.c:673-684 | the list continues after the closed iterator, which goes alone if and only if it is the newest |
| IteratorLinks.IteratorList.CloseThenNewer | libasn1common/genhash.c:673-684 | closing a dropped iterator makes the closed one active again, or fails the assertion if none is older |
| IteratorLinks.OpenIterator | libasn1common/genhash.c:603-631 | a new iterator is the newest of the list and of the positions that the hash keeps, and open |
| IteratorLinks.CloseIterator | libasn1common/genhash.c:673-684 | the positions that the hash keeps go as the links do; the newer iterators keep their links and stay open |
| IteratorLinks.OlderClosedFirst | libasn1common/genhash.c:673-684 | two iterators on a hash, the older one closed first: none is left, and closing the newer one fails the assertion |
| Fdeps.IncludeLine | libasn1compiler/asn1c_fdeps.c:36-57 | an include line asks for the name between its marks |
| Fdeps.QuotedLine | libasn1compiler/asn1c_fdeps.c:43-46 | an include line with quotes asks for the name between them |
| Fdeps.FileNameIff | libasn1compiler/asn1c_fdeps.c:36-57 | anything but a `#` line asks for itself; a line asks for its text in angle marks, or in quotes if no angle mark opens, and for nothing else |
| Fdeps.ChainSet.Activate | libasn1compiler/asn1c_fdeps.c:27-74 | terminates on cyclic dependencies and activates exactly the chains reachable through inactive ones, with the given reason; by plain names, all chains headed by the name, by a name that such a chain lists, and so on, and only these if all names are plain |
| Fdeps.ReachedByNames | libasn1compiler/asn1c_fdeps.c:59-73 | what names lead to by equality with the heads of chains is reachable, and among plain names nothing else is |
| Fdeps.ClosedReaches | libasn1compiler/asn1c_fdeps.c:59-73 | a set of chains closed under mention contains the end of every path through inactive chains |
| Retrieve.Modules.FindTerminal | libasn1fix/asn1fix_retrieve.c:470-569 | terminates on cyclic references, restores marks, flags exactly the targets on the way, and returns x if and only if x is the first final target reached outside marked expressions |
| Retrieve.Modules.FindTerminalType | libasn1fix/asn1fix_retrieve.c:455-458 | with no marks set, returns a type if and only if the chain of references comes to one that is no reference |
| Retrieve.Modules.FindConstrainedType | libasn1fix/asn1fix_retrieve.c:465-468 | with no marks set, returns the first target that has constraints or is no reference, or the type itself if it is none |
| Retrieve.Modules.AnswerIsConstrained | libasn1fix/asn1fix_retrieve.c:558-560 | the answer along paths is the n-th target, for the first n > 0 where that has constraints or is no reference |
| Retrieve.Modules.LocalDecides | libasn1fix/asn1fix_retrieve.c:530-545 | what a reference means in the module it names counts only where it has no meaning in its own |
| Retrieve.Modules.ReachesIff | libasn1fix/asn1fix_retrieve.c:527-569 | what a reference reaches is its target and what that reaches with the target marked: marks lose nothing |
| Retrieve.Modules.AnswerIsTerminal | libasn1fix/asn1fix_retrieve.c:470-569 | the answer along paths is the n-th target that is no reference, for some n |
| Tags.SkipDrops | libasn1fix/asn1fix_tags.c:4-20 | one pass with the skip counter gives the recursive definition with as many outer tags dropped; section 8.14 of X.690 |
| Tags.FullAddsAll | libasn1fix/asn1fix_tags.c:6-13 | with full collection no tag is left out |
| Tags.EffectiveIsKept | libasn1fix/asn1fix_tags.c:4-20 | the tags of the recursive definition are those that do not come right after an IMPLICIT one |
| Tags.Modules.AllCollected | libasn1fix/asn1fix_tags.c:46-90 | what full collection gives for each end of a chain: the own tags and that of a built-in type, in class UNIVERSAL and the default mode, of an ANY, or of an extension marker; or an error |
| Tags.Modules.BuiltInOctet | libasn1fix/asn1fix_tags.c:46-64 | the last tag of a built-in type goes into one identifier octet, which is its universal number; section 8.1.2 of X.690 |
| Tags.LesserIff | libasn1fix/asn1fix_tags.c:127-131 | a tag is less than another just where its identifier octet is, as far as one octet is enough |
| Tags.Collector.FetchFrom | libasn1fix/asn1fix_tags.c:25-105 | collects the tags written along the chain, or the least one of an untagged CHOICE, restores marks and terminates on cyclic references |
| Tags.Collector.LeastRootTag | libasn1fix/asn1fix_tags.c:107-140 | the least of the first tags that fetches of their own find for the alternatives up to the extension marker |
| Tags.Modules.ChainEnds | libasn1fix/asn1fix_tags.c:94-98 | a chain of references that ends never meets a mark of its own walk |
| Tags.Modules.ChainFails | libasn1fix/asn1fix_tags.c:94-98 | a chain without an end fails |
| Tags.FetchTags | libasn1fix/asn1fix_tags.c:142-177 | the tags of the recursive definition for what is written along the chain, or -1 without an end; all of them, with that of the built-in type, on full collection; the outermost one is the least that the type offers along references and alternatives, if it offers any |
| TagOctets.Emitted | libasn1compiler/asn1c_C.c:1551-1566 | the tag of the runtime has the class bits 0 to 3 for UNIVERSAL to PRIVATE, and the number |
| TagOctets.Fetch | skeletons/ber_tlv_tag.c:9-55 | reads the tag at the start, wants more, or finds the number too large |
| TagOctets.Serialize | skeletons/ber_tlv_tag.c:103-144 | the number of identifier octets, which are written if they fit; section 8.1.2 of X.690 |
| TagOctets.RoundTrip | skeletons/ber_tlv_tag.c:9-144 | what is written for a tag is read back as that tag, whatever follows |
| TagOctets.NoneBegins | skeletons/ber_tlv_tag.c:103-144 | no identifier octets are the beginning of those of another tag |
| TagOctets.WrittenJustSoIff | skeletons/ber_tlv_tag.c:9-144 | what is read would be written just so if and only if it was the shortest primitive encoding |
| Tags.Modules.FirstIsLeast | libasn1fix/asn1fix_tags.c:94-140 | no tag that is offered, however alternatives and references lead back to each other, is less than the one found: marks cut off nothing |
| Tags.Modules.FirstIsOffered | libasn1fix/asn1fix_tags.c:107-140 | the tag found is offered at the end of some path |
| TagMap.KeysOrdered | libasn1compiler/asn1c_C.c:1569-1595 | the comparison of class, value and element number is a total preorder |
| TagMap.SortedIff | libasn1compiler/asn1c_C.c:1569-1595 | sorting puts the smaller class first, then the smaller number, then the earlier element |
| TagMap.KeyIff | libasn1compiler/asn1c_C.c:1609-1760 | the map is to hold an element with a tag if and only if that element offers it, itself, by what it refers to, or by an alternative |
| TagMap.AllTaggableIff | libasn1compiler/asn1c_C.c:1690-1760 | it fails just where a member, a reference or an alternative, but no extension marker, has no tag to offer |
| TagMap.Map.Fill | libasn1compiler/asn1c_C.c:1609-1683 | fails exactly for members without a tag; otherwise adds exactly the keys of the members, by class, number and element, with exact offsets, or those of canonical XER in their order, with the offsets of runs |
| TagMap.Map.AddMember | libasn1compiler/asn1c_C.c:1685-1760 | adds one key for a tagged member, those of the alternatives for an untagged CHOICE (for canonical XER, the least of its root), none for an untagged ANY, and that of an unset tag for an untagged external type |
| TagMap.DeterminedIff | libasn1compiler/asn1c_C.c:1692-1723 | the keys follow from the members' tags if and only if no untagged external type is among them |
| TagMap.ExternalKeys | libasn1compiler/asn1c_C.c:1692-1723 | one untagged external type gives no key or one, by what its tag happens to be |
| TagMap.ExternalDiffers | libasn1compiler/asn1c_C.c:1692-1723 | so the maps of one and the same SEQUENCE differ |
| TagMap.Map.SetOffsets | libasn1compiler/asn1c_C.c:1659-1680 | after the loop the slots i+first..i+last are exactly those with the tag of slot i |
| TagMap.RunsAreExact | libasn1compiler/asn1c_C.c:1659-1680 | in a sorted map maximal runs of a tag contain every entry with it |
| TagMap.RunsExtend | libasn1compiler/asn1c_C.c:1666-1679 | one turn of the loop extends exact runs by one entry |
| TagSearch.SortedIsPartitioned | skeletons/constr_SEQUENCE_ber.c:81-110 | the compiler's order is one that the decoder's comparison can search |
| TagSearch.FindElement | skeletons/constr_SEQUENCE_ber.c:305-338 | the last element of the range that the map has for the tag, or none if and only if there is none |
| TagSearch.FindMember | skeletons/constr_SEQUENCE_ber.c:305-338 | from the members to the decoder: a tag leads to the last element of the range that offers it, or to none if and only if none does |
| SetMaps.RootComesSorted | libasn1compiler/asn1c_C.c:1641-1647 | in the canonical map the root members come first, by class and number of their tags, and the additions as written |
| SetMaps.ChoiceIsLeast | libasn1compiler/asn1c_C.c:1646-1651 | an untagged CHOICE stands for the least key of its extension root |
| SetMaps.EachElementOnceIff | skeletons/constr_SET_xer.c:259-270 | the canonical map lists each element once if and only if every member has one entry; its length, which is asserted, is the sum of their entries |
| SetMaps.AnyIsMissing | libasn1compiler/asn1c_C.c:1698-1704 | a SET of one untagged ANY has an element and an empty canonical map |
| SetMaps.AssertionIsNotEnough | skeletons/constr_SET_xer.c:259 | a SET of two elements whose canonical map has two entries, both of the second one |
| SetMaps.MakeMaps | libasn1compiler/asn1c_C.c:678-695 | both maps, the canonical one left out exactly when it is taken for the same, and exactly when the encoder goes by the canonical order |
| SetMaps.MapsAgreeIff | libasn1compiler/asn1c_C.c:1609-1683 | the keys of both maps agree if and only if there are as many and the canonical ones are sorted by tag |
| SetMaps.MapsOfOnce | libasn1compiler/asn1c_C.c:1609-1683 | both maps, with their offsets, follow from the members |
| SetMaps.TakenIff | libasn1compiler/asn1c_C.c:691-692 | the maps are taken for the same if and only if they have as many entries, and of every two the bytes that lie within the first as many agree |
| SetMaps.OrderKeptIff | libasn1compiler/asn1c_C.c:691-695 | for every SET: the encoder goes by the canonical order if and only if that is sorted by tag, or the maps differ in length or in the bytes compared |
| SetMaps.OneClassLosesOrder | libasn1compiler/asn1c_C.c:691-695 | up to eight entries whose first tags are of one class and mode: the canonical order is kept only if it is sorted by tag |
| SetMaps.SameStartLosesOrder | libasn1compiler/asn1c_C.c:691-695 | the same where the first entries are the same, up to as many entries as one has bytes |
| SetMaps.PlainSetsAgree | libasn1compiler/asn1c_C.c:1641-1656 | without extensions and untagged choices the two maps have the same keys |
| SetMaps.OrderIsLost | libasn1compiler/asn1c_C.c:691-695 | SET { a [1], b [2], ..., z [0] } with up to seven root members is left with the order by tag, z first |
| Integers.Parse | libasn1parser/asn1p_integer.c:32-89 | every outcome: exact value in range, sign only, empty, extra data, the first digit out of range, and overflow |
| Integers.SignsRead | libasn1parser/asn1p_integer.c:42-55 | digits alone or after a plus sign read as their number, after a minus sign as its negative |
| Integers.TooLarge | libasn1parser/asn1p_integer.c:57-78 | a range error is reported only for numerals beyond the limit that do not pass the minimum |
| Integers.PassedFrom | libasn1parser/asn1p_integer.c:57-78 | overflow happens only to numerals that pass the minimum, which are out of range |
| Integers.MinimumTimesTen | libasn1parser/asn1p_integer.c:57-78 | ten times the minimum passes it, in both widths |
| Integers.DigitsJoin | libasn1parser/asn1p_integer.c:143-155 | the digits of the upper part and the zero-filled digits of the lower part are those of the whole |
| Integers.Printer.Itoa | libasn1parser/asn1p_integer.c:101-110 | the text of every value fits the static buffer and is left there |
| Integers.Printer.ItoaTo | libasn1parser/asn1p_integer.c:112-165 | the text, its returned length, and failure exactly when text and terminator do not fit |
| Integers.Printer.InChunks | libasn1parser/asn1p_integer.c:142-155 | printing in groups of nine digits gives the decimal form |
| Integers.RoundTrip | libasn1parser/asn1p_integer.c:32-165 | reading what was printed gives the value back if and only if it was not the minimum printed as a constant |
| Integers.MinimumSpelled | libasn1parser/asn1p_integer.c:126-138 | the number that the constant for the minimum spells, in both widths |
| IntegerOctets.AsInteger | libasn1parser/asn1p_integer.c:167-188 | big-endian two's complement octets of the value, minimal, and no more than the width; section 8.3.2 of X.690 |
| IntegerOctets.MinimalIsShortest | libasn1parser/asn1p_integer.c:172-176 | no encoding of the value is shorter than a minimal one |
| IntegerOctets.MinimalIsUnique | libasn1parser/asn1p_integer.c:172-176 | a value has exactly one minimal encoding |
| BitStrings.TrailingZerosCount | skeletons/BIT_STRING.c:146-152 | the masks find the number of zero bits after the last one bit |
| BitStrings.Compactify | skeletons/BIT_STRING.c:132-168 | the octets up to the last one that is not zero, and its trailing zero bits, over the same buffer |
| BitStrings.TrimmedEnds | skeletons/BIT_STRING.c:132-168 | what is left has the same bits and ends with the last one bit |
| BitStrings.Compare | skeletons/BIT_STRING.c:174-219 | the sign is that of the lexicographic order of the bits continued with zeros |
| BitStrings.BranchesOrder | skeletons/BIT_STRING.c:189-209 | on compact strings, comparing octets, sizes and unused bits is the order of the bits |
| BitStrings.EqualUpToTrailingZeros | skeletons/BIT_STRING.c:174-219 | with zero padding, 0 if and only if the values differ only in trailing zero bits; section 22.7 of X.680 (08/2015) |
| BitStrings.PaddingIff | skeletons/BIT_STRING.c:132-219 | a bit string is compared rightly with every zero-padded one if and only if it is zero-padded itself |
| BitStrings.PaddingIsCompared | skeletons/BIT_STRING.c:132-168 | a one in the padding makes equal values differ |
| BitStrings.TotalOrder | skeletons/BIT_STRING.c:174-219 | the comparisons are antisymmetric and transitive |
| BitStrings.Trichotomy | skeletons/BIT_STRING.c:174-219 | any two octet strings are comparable, in exactly one way |

## Left out

- SIZE, FROM and REAL requests to the range evaluation, a missing constraint, and evaluation with strict visibility flags: only integer ranges are requested; the visibility and narrowing flags are then written but never read, and are dropped.
- Nested elements: an element of a range has no elements of its own, as the code asserts, so elements are values; the outer range is an object.
- ComputeRange.Compute: no tree uses MAX as a lower or MIN as an upper end, or either as a single value (`PlainBounds`): the grammar has them only as ends of intervals (`libasn1parser/asn1p_y.y:1979-1997`). A failed overlap assertion under a parent is the outcome Aborted, which counts as an error.
- Evaluation.Exactly: trees with EXCEPT, open ends or incompatible parts are not exact: evaluation ignores those, so the set is that of the bare tree (`BareTrees.BareDecides`).
- Sorting by `qsort`: the comparison functions are the program's; the sort itself is a stand-in, an insertion sort.
- Memory allocation failures, `errno` texts, logging, and freeing, in all files.
- RangeTest: tests are expression trees over mathematical integers; the suffixes of C literals and the printing are not modelled.
- ValueCheck.CompileCheck: a SIZE range beside the value range, and REAL, are left out. How the integer is stored (`libasn1compiler/asn1c_misc.c:434-554`) is a parameter, `long` has 32 or 64 bits and wraps around in conversions, and octets are there.
- AlphabetTables: the printed layout of the tables, and alphabets of a single piece, which use no table.
- Genhash: key equality is equality of values and the hash function is a function of the key; keys and values are never NULL. Destructor callbacks, `genhash_empty` and `genhash_destroy` are left out.
- Genhash: the bucket array and the four slots are sequences, elements are linked nodes. The positions of active iterators are a sequence, newest first, which the loops over iterators go through; the links between iterators are in `IteratorLinks`. The bucket limit is a positive constant of the hash; the code ignores a limit of 0 (`libasn1common/genhash.c:700-706`).
- HashIteration.TinyIterate: up to the switch to buckets, which turns iterators round; iterators are closed newest first.
- Fdeps: reading the dependency files, flattening, and the assertion on the length of a name.
- Retrieve: the lookup of symbols is a given function of the reference, in its own module or in the module of the reference; values (FTT_VALUE) are left out.
- Tags.FetchTags: the least tag of a CHOICE is related to what the CHOICE offers for a fetch of the outermost tag, the only one that asks for it (`libasn1compiler/asn1c_C.c:3668-3678`); the lookup of symbols is a given function.
- TagOctets.Emitted: tags whose number does not fit the expression that is printed for them (2 to the 29th or more).
- TagSearch.FindElement: the linear search among the next few elements that comes before (`skeletons/constr_SEQUENCE_ber.c:266-304`), and the decoding of what is found.
- TagMap.Map.Fill: outermost tags come from outside, and the members form a tree in which references are resolved.
- SetMaps.MakeMaps: the bytes of an entry are a function of its key and offsets, all of one size; the tagging mode and the member it was made from follow from the key, as the alternatives of a CHOICE have different tags.
- Integers.Printer.ItoaTo: the text of the constant for the minimum is given by the number it spells, not by its characters.
- IntegerOctets.AsInteger: printing the octets as C escapes is left out.
- BitStrings.Compare: arguments are never NULL; the code would not reach its tests for that.
- Text output of the compiler, the parser, modules and imports, parameterized types, information objects, and the other runtime codecs.
