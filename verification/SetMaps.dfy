/**
 The two maps of a SET: by tag, and in the order in which canonical XER encodes the elements
 (libasn1compiler/asn1c_C.c, `asn1c_lang_C_type_SET_def`; skeletons/constr_SET_xer.c).
 */
module SetMaps {
  import opened Wrappers
  import opened Sorting
  import opened TagMap

  // ----- The elements in the canonical map -----

  /** How many entries a member has in the canonical map. */
  function EntryCount(m: Member): nat {
    match m
    case Tagged(tag) => if tag.value == -1 then 0 else 1
    case KnownExternal(unset) => if unset.value == -1 then 0 else 1
    case Choice(ms) =>
      var root := EntryCountUpTo(ms, RootLength(ms));
      if root > 0 then 1 else EntryCountUpTo(ms, |ms|)
    case Reference(Some(target)) => EntryCount(target)
    case _ => 0
  }

  function EntryCountUpTo(ms: seq<Member>, n: nat): nat
    requires n <= |ms|
    decreases ms, n
  {
    if n == 0 then 0 else EntryCountUpTo(ms, n - 1) + if ms[n - 1] == Extensible then 0 else EntryCount(ms[n - 1])
  }

  /** How often element e occurs. */
  ghost function Times(ks: seq<Key>, e: int): nat {
    if ks == [] then 0 else (if ks[0].elNo == e then 1 else 0) + Times(ks[1..], e)
  }

  lemma {:induction false} TimesConcat(a: seq<Key>, b: seq<Key>, e: int)
    ensures Times(a + b, e) == Times(a, e) + Times(b, e)
  {
    if a == [] {
      assert a + b == b;
    } else {
      assert (a + b)[1..] == a[1..] + b;
      TimesConcat(a[1..], b, e);
    }
  }

  lemma {:induction false} TimesInsert(x: Key, s: seq<Key>, e: int)
    ensures Times(Insert(x, s, CompareKeys), e) == (if x.elNo == e then 1 else 0) + Times(s, e)
  {
    hide CompareKeys;
    assert ([x] + s)[1..] == s;
    if s != [] {
      TimesInsert(x, s[1..], e);
      var r := Insert(x, s[1..], CompareKeys);
      assert ([s[0]] + r)[1..] == r;
    }
  }

  lemma {:induction false} TimesQsort(s: seq<Key>, e: int)
    ensures Times(Qsort(s, CompareKeys), e) == Times(s, e)
  {
    hide CompareKeys;
    if s != [] {
      TimesQsort(s[1..], e);
      TimesInsert(s[0], Qsort(s[1..], CompareKeys), e);
    }
  }

  /** All keys are of element e. */
  ghost predicate AllOf(ks: seq<Key>, e: int) {
    forall i :: 0 <= i < |ks| ==> ks[i].elNo == e
  }

  lemma {:induction false} TimesOfAll(ks: seq<Key>, e: int, f: int)
    requires AllOf(ks, e)
    ensures Times(ks, f) == if f == e then |ks| else 0
  {
    if ks != [] {
      TimesOfAll(ks[1..], e, f);
    }
  }

  lemma SortedOf(ks: seq<Key>, r: nat, choice: bool, e: int)
    requires AllOf(ks, e) && r <= |ks|
    ensures AllOf(RootSorted(ks, r, choice), e)
    ensures |RootSorted(ks, r, choice)| == if choice && r > 0 then 1 else |ks|
  {
    var root := Qsort(ks[..r], CompareKeys);
    QsortPermutes(ks[..r], CompareKeys);
    forall i | 0 <= i < |root| ensures root[i].elNo == e {
      assert root[i] in multiset(root);
      assert root[i] in ks[..r];
    }
  }

  /** A member has as many keys as counted, all of its own element. */
  lemma {:induction false} EntryCountIs(m: Member, elNo: nat)
    ensures |CanonicalOfMember(m, elNo)| == EntryCount(m) && AllOf(CanonicalOfMember(m, elNo), elNo)
  {
    match m
    case Choice(ms) =>
      var n := RootLength(ms);
      EntryCountsUpTo(ms, n, elNo);
      EntryCountsUpTo(ms, |ms|, elNo);
      CanonicalGrows(ms, n, |ms|, elNo);
      SortedOf(CanonicalUpTo(ms, |ms|, elNo), |CanonicalUpTo(ms, n, elNo)|, true, elNo);
    case Reference(Some(target)) => EntryCountIs(target, elNo);
    case _ =>
  }

  lemma {:induction false} EntryCountsUpTo(ms: seq<Member>, n: nat, elNo: nat)
    requires n <= |ms|
    ensures |CanonicalUpTo(ms, n, elNo)| == EntryCountUpTo(ms, n) && AllOf(CanonicalUpTo(ms, n, elNo), elNo)
    decreases ms, n
  {
    if n > 0 {
      EntryCountsUpTo(ms, n - 1, elNo);
      EntryCountIs(ms[n - 1], elNo);
    }
  }

  /** Each of the first n members has one entry. */
  predicate AllOnce(ms: seq<Member>, n: nat)
    requires n <= |ms|
  {
    forall i :: 0 <= i < n && ms[i] != Extensible ==> EntryCount(ms[i]) == 1
  }

  /** Elements 0 to n - 1 occur once each, and no others do. */
  ghost predicate EachOnce(ks: seq<Key>, n: nat) {
    forall e: int :: Times(ks, e) == if 0 <= e < n then 1 else 0
  }

  lemma {:induction false} TimesUpTo(ms: seq<Member>, n: nat)
    requires n <= |ms|
    ensures EachOnce(CanonicalUpTo(ms, n, -1), Elements(ms, n)) <==> AllOnce(ms, n)
    ensures forall e: int :: !(0 <= e < Elements(ms, n)) ==> Times(CanonicalUpTo(ms, n, -1), e) == 0
    ensures AllOnce(ms, n) ==> |CanonicalUpTo(ms, n, -1)| == Elements(ms, n)
    decreases n
  {
    if n > 0 {
      TimesUpTo(ms, n - 1);
      if ms[n - 1] != Extensible {
        TimesNext(ms, n);
        OnceNext(CanonicalUpTo(ms, n - 1, -1), CanonicalUpTo(ms, n, -1), Elements(ms, n - 1), EntryCount(ms[n - 1]));
        assert AllOnce(ms, n) <==> AllOnce(ms, n - 1) && EntryCount(ms[n - 1]) == 1;
      }
    }
  }

  lemma OnceNext(before: seq<Key>, ks: seq<Key>, n: nat, count: nat)
    requires forall e: int :: Times(ks, e) == Times(before, e) + if e == n then count else 0
    requires forall e: int :: !(0 <= e < n) ==> Times(before, e) == 0
    ensures EachOnce(ks, n + 1) <==> EachOnce(before, n) && count == 1
  {
    hide Times;
    if EachOnce(ks, n + 1) {
      assert Times(ks, n) == 1;
      forall e: int ensures Times(before, e) == if 0 <= e < n then 1 else 0 {
        assert Times(ks, e) == if 0 <= e < n + 1 then 1 else 0;
      }
    }
  }

  lemma TimesNext(ms: seq<Member>, n: nat)
    requires 0 < n <= |ms| && ms[n - 1] != Extensible
    ensures var no := Elements(ms, n - 1);
            && Elements(ms, n) == no + 1
            && |CanonicalUpTo(ms, n, -1)| == |CanonicalUpTo(ms, n - 1, -1)| + EntryCount(ms[n - 1])
            && forall e: int :: Times(CanonicalUpTo(ms, n, -1), e) ==
                                Times(CanonicalUpTo(ms, n - 1, -1), e) + if e == no then EntryCount(ms[n - 1]) else 0
  {
    hide Times, EntryCount, CanonicalOfMember;
    var before, no := CanonicalUpTo(ms, n - 1, -1), Elements(ms, n - 1);
    var own := CanonicalOfMember(ms[n - 1], no);
    EntryCountIs(ms[n - 1], no);
    forall e: int ensures Times(before + own, e) == Times(before, e) + if e == no then EntryCount(ms[n - 1]) else 0 {
      TimesConcat(before, own, e);
      TimesOfAll(own, no, e);
    }
  }

  lemma TimesSorted(ks: seq<Key>, r: nat, e: int)
    requires r <= |ks|
    ensures Times(RootSorted(ks, r, false), e) == Times(ks, e)
  {
    assert ks == ks[..r] + ks[r..];
    TimesConcat(ks[..r], ks[r..], e);
    TimesQsort(ks[..r], e);
    TimesConcat(Qsort(ks[..r], CompareKeys), ks[r..], e);
  }

  lemma {:induction false} LengthUpTo(ms: seq<Member>, n: nat)
    requires n <= |ms|
    ensures |CanonicalUpTo(ms, n, -1)| == EntryCountUpTo(ms, n)
    decreases n
  {
    if n > 0 {
      LengthUpTo(ms, n - 1);
      if ms[n - 1] != Extensible {
        TimesNext(ms, n);
      }
    }
  }

  /**
   The encoder relies on the canonical map of a SET to list every element exactly once, and asserts that it has
   as many entries as there are elements. The former holds if and only if each member has one entry: an untagged
   ANY has none, and an untagged CHOICE has one if its extension root has any. The assertion only adds them up.
   */
  lemma EachElementOnceIff(ms: seq<Member>)
    ensures EachOnce(CanonicalKeys(ms, -1, false), Elements(ms, |ms|)) <==> AllOnce(ms, |ms|)
    ensures |CanonicalKeys(ms, -1, false)| == EntryCountUpTo(ms, |ms|)
    ensures AllOnce(ms, |ms|) ==> EntryCountUpTo(ms, |ms|) == Elements(ms, |ms|)
  {
    hide Times;
    var all, r := CanonicalUpTo(ms, |ms|, -1), |CanonicalUpTo(ms, RootLength(ms), -1)|;
    CanonicalGrows(ms, RootLength(ms), |ms|, -1);
    TimesUpTo(ms, |ms|);
    LengthUpTo(ms, |ms|);
    forall e: int ensures Times(RootSorted(all, r, false), e) == Times(all, e) {
      TimesSorted(all, r, e);
    }
  }

  /** An untagged ANY, which has no entry, and an untagged CHOICE with two, as its extension root is empty. */
  function NoneAndTwo(): seq<Member> {
    [Tagged(Tag(0, -1)), Choice([Extensible, Tagged(Tag(3, 0)), Tagged(Tag(3, 1))])]
  }

  /** The assertion holds, and yet the first element is missing and the second one is there twice. */
  lemma AssertionIsNotEnough()
    ensures var ms := NoneAndTwo();
            && |CanonicalKeys(ms, -1, false)| == Elements(ms, |ms|)
            && !EachOnce(CanonicalKeys(ms, -1, false), Elements(ms, |ms|))
  {
    var ms, cs := NoneAndTwo(), [Extensible, Tagged(Tag(3, 0)), Tagged(Tag(3, 1))];
    assert |ms| == 2 && ms[0] == Tagged(Tag(0, -1)) && ms[1] == Choice(cs) && |cs| == 3;
    assert RootLength(cs) == 0 && EntryCountUpTo(cs, 0) == 0 && EntryCountUpTo(cs, 1) == 0;
    assert EntryCountUpTo(cs, 2) == 1 && EntryCountUpTo(cs, 3) == 2;
    assert EntryCountUpTo(ms, 0) == 0 && EntryCountUpTo(ms, 1) == 0 && EntryCountUpTo(ms, 2) == 2;
    assert Elements(ms, 0) == 0 && Elements(ms, 1) == 1;
    EachElementOnceIff(ms);
    assert EntryCount(ms[0]) == 0;
  }

  /** A SET of one untagged ANY, whose tag has the value -1: its element has no entry. */
  lemma AnyIsMissing()
    ensures var ms := [Tagged(Tag(0, -1))];
            Elements(ms, 1) == 1 && CanonicalKeys(ms, -1, false) == [] && !EachOnce([], 1)
  {
    var ms := [Tagged(Tag(0, -1))];
    assert Elements(ms, 0) == 0 && CanonicalUpTo(ms, 0, -1) == [] && CanonicalUpTo(ms, 1, -1) == [];
    assert RootLength(ms[1..]) == 0 && RootLength(ms) == 1;
    assert Times([], 0) == 0;
  }

  // ----- The order of the canonical map -----

  /** The members of the extension root come first, by their least tags, and then the others as written. */
  lemma RootComesSorted(ms: seq<Member>)
    ensures var root, all, ks := CanonicalUpTo(ms, RootLength(ms), -1), CanonicalUpTo(ms, |ms|, -1),
                                 CanonicalKeys(ms, -1, false);
            && |root| <= |ks| == |all|
            && Sorted(ks[..|root|], CompareKeys) && InTagOrder(ks[..|root|])
            && multiset(ks[..|root|]) == multiset(root) && ks[|root|..] == all[|root|..]
  {
    var root, all := CanonicalUpTo(ms, RootLength(ms), -1), CanonicalUpTo(ms, |ms|, -1);
    CanonicalGrows(ms, RootLength(ms), |ms|, -1);
    KeysOrdered();
    assert all[..|root|] == root;
    QsortSorts(root, CompareKeys);
    QsortPermutes(root, CompareKeys);
    var sorted := Qsort(root, CompareKeys);
    assert (sorted + all[|root|..])[..|root|] == sorted;
    SortedIff(sorted);
  }

  /** An untagged CHOICE stands for the least key of its extension root. */
  lemma ChoiceIsLeast(ms: seq<Member>, elNo: int)
    requires CanonicalUpTo(ms, RootLength(ms), elNo) != []
    ensures var root, ks := CanonicalUpTo(ms, RootLength(ms), elNo), CanonicalKeys(ms, elNo, true);
            |ks| == 1 && ks[0] in root && forall k :: k in root ==> NotAfter(ks[0], k)
  {
    var root, all := CanonicalUpTo(ms, RootLength(ms), elNo), CanonicalUpTo(ms, |ms|, elNo);
    CanonicalGrows(ms, RootLength(ms), |ms|, elNo);
    assert all[..|root|] == root;
    hide CompareKeys, NotAfter, CanonicalUpTo;
    var sorted := Qsort(root, CompareKeys);
    FirstIsLeast(root);
    assert sorted[0] in multiset(root);
  }

  lemma FirstIsLeast(s: seq<Key>)
    requires s != []
    ensures var r := Qsort(s, CompareKeys); r[0] in multiset(s) && forall k :: k in s ==> NotAfter(r[0], k)
  {
    var r := Qsort(s, CompareKeys);
    KeysOrdered();
    QsortSorts(s, CompareKeys);
    QsortPermutes(s, CompareKeys);
    SortedIff(r);
    FirstOfOrder(r, s);
  }

  lemma FirstOfOrder(r: seq<Key>, s: seq<Key>)
    requires InTagOrder(r) && multiset(r) == multiset(s) && r != []
    ensures r[0] in multiset(s) && forall k :: k in s ==> NotAfter(r[0], k)
  {
    assert r[0] in multiset(r);
    forall k | k in s ensures NotAfter(r[0], k) {
      assert k in multiset(s);
      assert k in r;
      var i :| 0 <= i < |r| && r[i] == k;
      assert i > 0 ==> NotAfter(r[0], r[i]);
    }
  }

  // ----- Where the maps agree -----

  /** A member with one tag: neither an untagged CHOICE nor a reference to one. */
  predicate OneTag(m: Member) {
    match m
    case Tagged(_) | KnownExternal(_) => true
    case Reference(Some(target)) => OneTag(target)
    case _ => false
  }

  lemma {:induction false} OneTagKeys(m: Member, elNo: int)
    requires OneTag(m)
    ensures multiset(CanonicalOfMember(m, elNo)) == KeysOfMember(m, elNo)
  {
    match m
    case Reference(Some(target)) => OneTagKeys(target, elNo);
    case _ =>
  }

  lemma {:induction false} OneTagsKeys(ms: seq<Member>, n: nat, elNo: int)
    requires n <= |ms| && forall i :: 0 <= i < n ==> OneTag(ms[i])
    ensures multiset(CanonicalUpTo(ms, n, elNo)) == KeysOfMembers(ms, n, elNo)
    decreases n
  {
    hide OneTag, CanonicalOfMember, KeysOfMember;
    if n > 0 {
      OneTagsKeys(ms, n - 1, elNo);
      OneTagKeys(ms[n - 1], if elNo == -1 then Elements(ms, n - 1) else elNo);
    }
  }

  /** Keys in order are determined by which they are. */
  lemma {:induction false} SortedOnce(a: seq<Key>, b: seq<Key>)
    requires Sorted(a, CompareKeys) && Sorted(b, CompareKeys) && multiset(a) == multiset(b)
    ensures a == b
  {
    assert |multiset(a)| == |a| && |multiset(b)| == |b|;
    if a != [] {
      SameFirst(a, b);
      SortedTail(a, CompareKeys);
      SortedTail(b, CompareKeys);
      TailHas(a);
      TailHas(b);
      hide CompareKeys, Sorted;
      SortedOnce(a[1..], b[1..]);
    }
  }

  lemma TailHas(s: seq<Key>)
    requires s != []
    ensures s == [s[0]] + s[1..] && multiset(s[1..]) == multiset(s) - multiset{s[0]}
  {
    assert s == [s[0]] + s[1..];
  }

  lemma SameFirst(a: seq<Key>, b: seq<Key>)
    requires Sorted(a, CompareKeys) && Sorted(b, CompareKeys) && multiset(a) == multiset(b) && a != [] && b != []
    ensures a[0] == b[0]
  {
    hide Sorted;
    FirstBelow(a, b);
    FirstBelow(b, a);
  }

  lemma FirstBelow(a: seq<Key>, b: seq<Key>)
    requires Sorted(a, CompareKeys) && multiset(a) == multiset(b) && a != [] && b != []
    ensures CompareKeys(a[0], b[0]) <= 0
  {
    assert b[0] in multiset(b);
    assert b[0] in a;
    var i :| 0 <= i < |a| && a[i] == b[0];
    if i > 0 {
      SortedAt(a, CompareKeys, 0, i);
    }
  }

  /** Without an extension marker and untagged choices, the maps agree, so leaving one out is right. */
  lemma PlainSetsAgree(ms: seq<Member>, byTag: seq<Entry>)
    requires forall i :: 0 <= i < |ms| ==> OneTag(ms[i])
    requires InTagOrder(Keys(byTag)) && multiset(Keys(byTag)) == KeysOfMembers(ms, |ms|, -1)
    ensures Keys(byTag) == CanonicalKeys(ms, -1, false)
  {
    SortedIff(Keys(byTag));
    var root, ks := CanonicalUpTo(ms, RootLength(ms), -1), CanonicalKeys(ms, -1, false);
    assert RootLength(ms) == |ms|;
    RootComesSorted(ms);
    assert ks[..|root|] == ks;
    OneTagsKeys(ms, |ms|, -1);
    SortedOnce(Keys(byTag), ks);
  }

  // ----- Where they do not -----

  /** Among the keys of a member are those that it has in the canonical map. */
  lemma {:induction false} CanonicalAmong(m: Member, elNo: int)
    ensures multiset(CanonicalOfMember(m, elNo)) <= KeysOfMember(m, elNo)
  {
    match m
    case Choice(ms) =>
      CanonicalAmongAll(ms, |ms|, elNo);
      CanonicalGrows(ms, RootLength(ms), |ms|, elNo);
      SortedAmong(CanonicalUpTo(ms, |ms|, elNo), |CanonicalUpTo(ms, RootLength(ms), elNo)|, true);
    case Reference(Some(target)) => CanonicalAmong(target, elNo);
    case _ =>
  }

  lemma {:induction false} CanonicalAmongAll(ms: seq<Member>, n: nat, elNo: int)
    requires n <= |ms|
    ensures multiset(CanonicalUpTo(ms, n, elNo)) <= KeysOfMembers(ms, n, elNo)
    decreases ms, n
  {
    hide CanonicalOfMember, KeysOfMember;
    if n > 0 {
      CanonicalAmongAll(ms, n - 1, elNo);
      CanonicalAmong(ms[n - 1], if elNo == -1 then Elements(ms, n - 1) else elNo);
    }
  }

  lemma SortedAmong(ks: seq<Key>, r: nat, choice: bool)
    requires r <= |ks|
    ensures multiset(RootSorted(ks, r, choice)) <= multiset(ks)
    ensures !choice ==> multiset(RootSorted(ks, r, choice)) == multiset(ks)
  {
    var root := Qsort(ks[..r], CompareKeys);
    QsortPermutes(ks[..r], CompareKeys);
    assert ks == ks[..r] + ks[r..];
    if choice && r > 0 {
      assert root == [root[0]] + root[1..];
    }
  }

  lemma SizesTell(a: multiset<Key>, b: multiset<Key>)
    requires a <= b && |a| == |b|
    ensures a == b
  {
    assert |b - a| == |b| - |a|;
    assert b == a + (b - a);
  }

  /** The two maps of a SET with these members. */
  ghost predicate MapsOf(ms: seq<Member>, byTag: seq<Entry>, canonical: seq<Entry>) {
    && InTagOrder(Keys(byTag)) && multiset(Keys(byTag)) == KeysOfMembers(ms, |ms|, -1) && RunsExact(byTag)
    && Keys(canonical) == CanonicalKeys(ms, -1, false) && RunsExact(canonical)
  }

  /** The maps have the same keys if and only if there are as many, and the canonical ones are sorted. */
  lemma MapsAgreeIff(ms: seq<Member>, byTag: seq<Entry>, canonical: seq<Entry>)
    requires MapsOf(ms, byTag, canonical)
    ensures var c := CanonicalKeys(ms, -1, false);
            Keys(byTag) == c <==> |KeysOfMembers(ms, |ms|, -1)| == |c| && InTagOrder(c)
  {
    SortedIff(CanonicalKeys(ms, -1, false));
    SortedIff(Keys(byTag));
    var b, c := Keys(byTag), CanonicalKeys(ms, -1, false);
    assert |multiset(b)| == |b| && |multiset(c)| == |c|;
    CanonicalAmongAll(ms, |ms|, -1);
    CanonicalGrows(ms, RootLength(ms), |ms|, -1);
    SortedAmong(CanonicalUpTo(ms, |ms|, -1), |CanonicalUpTo(ms, RootLength(ms), -1)|, false);
    if |b| == |c| && Sorted(c, CompareKeys) {
      SizesTell(multiset(c), multiset(b));
      SortedOnce(b, c);
    }
  }

  lemma RunOnce(a: seq<Entry>, b: seq<Entry>, k: nat)
    requires Keys(a) == Keys(b) && k < |a| == |b| && RunAt(a, |a|, k) && RunAt(b, |b|, k)
    ensures a[k] == b[k]
  {
    assert forall j :: 0 <= j < |a| ==> Keys(a)[j] == a[j].key && Keys(b)[j] == b[j].key;
    var i, j, p, q := k + a[k].first, k + b[k].first, k + a[k].last, k + b[k].last;
    assert !(i < j) && !(j < i) && !(p < q) && !(q < p);
  }

  /** So both maps, offsets and all, follow from the members. */
  lemma MapsOfOnce(ms: seq<Member>, a: seq<Entry>, b: seq<Entry>, a': seq<Entry>, b': seq<Entry>)
    requires MapsOf(ms, a, b) && MapsOf(ms, a', b')
    ensures a == a' && b == b'
  {
    SortedIff(Keys(a));
    SortedIff(Keys(a'));
    SortedOnce(Keys(a), Keys(a'));
    assert |Keys(a)| == |a| == |a'| && |Keys(b)| == |b| == |b'|;
    forall k | 0 <= k < |a| ensures a[k] == a'[k] {
      RunOnce(a, a', k);
    }
    forall k | 0 <= k < |b| ensures b[k] == b'[k] {
      RunOnce(b, b', k);
    }
  }

  // ----- The comparison of the maps -----

  /** How the entries of a SET lie in memory, each in as many bytes. */
  ghost predicate IsLayout(layout: Entry -> seq<bv8>, size: nat) {
    size > 0 && forall e: Entry :: |layout(e)| == size
  }

  function Bytes(s: seq<Entry>, layout: Entry -> seq<bv8>): seq<bv8> {
    if s == [] then [] else layout(s[0]) + Bytes(s[1..], layout)
  }

  lemma {:induction false} BytesLength(s: seq<Entry>, layout: Entry -> seq<bv8>, size: nat)
    requires IsLayout(layout, size)
    ensures |Bytes(s, layout)| == |s| * size >= |s|
  {
    if s != [] {
      BytesLength(s[1..], layout, size);
      assert |s| * size == (|s| - 1) * size + size;
    }
  }

  /** The comparison covers as many bytes as there are entries. */
  predicate TakenForSame(a: seq<Entry>, b: seq<Entry>, layout: Entry -> seq<bv8>) {
    |a| == |b| && |a| <= |Bytes(a, layout)| && |a| <= |Bytes(b, layout)|
    && Bytes(a, layout)[..|a|] == Bytes(b, layout)[..|a|]
  }

  /** How much of size bytes lies within the first n. */
  function Part(n: int, size: nat): (k: nat)
    ensures k <= size
  {
    if n <= 0 then 0 else if n < size then n else size
  }

  /** Of every two entries, the bytes that lie within the first n are the same. */
  ghost predicate SameFront(a: seq<Entry>, b: seq<Entry>, n: int, layout: Entry -> seq<bv8>, size: nat)
    requires |a| == |b| && IsLayout(layout, size)
  {
    forall i :: 0 <= i < |a| ==> SamePart(a[i], b[i], n - i * size, layout, size)
  }

  ghost predicate SamePart(e: Entry, f: Entry, n: int, layout: Entry -> seq<bv8>, size: nat)
    requires IsLayout(layout, size)
  {
    layout(e)[..Part(n, size)] == layout(f)[..Part(n, size)]
  }

  lemma FrontStep(a: seq<Entry>, b: seq<Entry>, n: int, layout: Entry -> seq<bv8>, size: nat)
    requires |a| == |b| > 0 && IsLayout(layout, size)
    ensures SameFront(a, b, n, layout, size) <==>
              SamePart(a[0], b[0], n, layout, size) && SameFront(a[1..], b[1..], n - size, layout, size)
  {
    hide SamePart;
    var c, d := a[1..], b[1..];
    forall i | 0 <= i < |c| ensures n - size - i * size == n - (i + 1) * size && c[i] == a[i + 1] && d[i] == b[i + 1] {
      assert (i + 1) * size == i * size + size;
    }
    if SameFront(a, b, n, layout, size) {
      assert SamePart(a[0], b[0], n - 0 * size, layout, size);
      forall i | 0 <= i < |c| ensures SamePart(c[i], d[i], n - size - i * size, layout, size) {
        assert SamePart(a[i + 1], b[i + 1], n - (i + 1) * size, layout, size);
      }
    }
    if SamePart(a[0], b[0], n, layout, size) && SameFront(c, d, n - size, layout, size) {
      forall i | 0 <= i < |a| ensures SamePart(a[i], b[i], n - i * size, layout, size) {
        if i > 0 {
          assert SamePart(c[i - 1], d[i - 1], n - size - (i - 1) * size, layout, size);
        }
      }
    }
  }

  lemma {:induction false} FrontIs(a: seq<Entry>, b: seq<Entry>, n: int, layout: Entry -> seq<bv8>, size: nat)
    requires |a| == |b| && IsLayout(layout, size) && n <= |a| * size
    ensures |Bytes(a, layout)| == |Bytes(b, layout)| == |a| * size
    ensures var k := if n < 0 then 0 else n;
            Bytes(a, layout)[..k] == Bytes(b, layout)[..k] <==> SameFront(a, b, n, layout, size)
  {
    BytesLength(a, layout, size);
    BytesLength(b, layout, size);
    if a != [] {
      assert |a| * size == (|a| - 1) * size + size;
      FrontIs(a[1..], b[1..], n - size, layout, size);
      FrontStep(a, b, n, layout, size);
      FrontJoin(layout(a[0]), Bytes(a[1..], layout), layout(b[0]), Bytes(b[1..], layout), n, size);
    }
  }

  lemma FrontJoin(x: seq<bv8>, y: seq<bv8>, u: seq<bv8>, v: seq<bv8>, n: int, size: nat)
    requires |x| == |u| == size && |y| == |v| && n <= size + |y|
    ensures var k, m := if n < 0 then 0 else n, if n < size then 0 else n - size;
            (x + y)[..k] == (u + v)[..k] <==> x[..Part(n, size)] == u[..Part(n, size)] && y[..m] == v[..m]
  {
    var p, m := Part(n, size), if n < size then 0 else n - size;
    var k := if n < 0 then 0 else n;
    assert k == p + m;
    assert (x + y)[..k] == x[..p] + y[..m] && (u + v)[..k] == u[..p] + v[..m];
    if x[..p] + y[..m] == u[..p] + v[..m] {
      assert x[..p] == (x[..p] + y[..m])[..p] && u[..p] == (u[..p] + v[..m])[..p];
      assert y[..m] == (x[..p] + y[..m])[p..] && v[..m] == (u[..p] + v[..m])[p..];
    }
  }

  /** Exactly when the maps are taken for the same, entry by entry. */
  lemma TakenIff(a: seq<Entry>, b: seq<Entry>, layout: Entry -> seq<bv8>, size: nat)
    requires IsLayout(layout, size)
    ensures TakenForSame(a, b, layout) <==> |a| == |b| && SameFront(a, b, |a|, layout, size)
  {
    BytesLength(a, layout, size);
    BytesLength(b, layout, size);
    if |a| == |b| {
      FrontIs(a, b, |a|, layout, size);
    }
  }

  /** While there are no more entries than bytes in one, only the first entries count. */
  lemma FirstEntriesDecide(a: seq<Entry>, b: seq<Entry>, layout: Entry -> seq<bv8>, size: nat)
    requires IsLayout(layout, size) && 0 < |a| == |b| <= size
    ensures TakenForSame(a, b, layout) <==> layout(a[0])[..|a|] == layout(b[0])[..|a|]
  {
    var n := |a|;
    TakenIff(a, b, layout, size);
    assert Part(n, size) == n;
    forall i | 0 <= i < n ensures SamePart(a[i], b[i], n - i * size, layout, size) <==>
                                  i > 0 || layout(a[0])[..n] == layout(b[0])[..n]
    {
      if i > 0 {
        AtLeastOne(i, size);
        assert Part(n - i * size, size) == 0;
      }
    }
    assert SameFront(a, b, n, layout, size) ==> SamePart(a[0], b[0], n - 0 * size, layout, size);
  }

  lemma AtLeastOne(i: nat, size: nat)
    requires i > 0
    ensures i * size >= size
  {
  }

  /** The map that the encoder goes by. */
  function Used(byTag: seq<Entry>, canonical: seq<Entry>, layout: Entry -> seq<bv8>): seq<Entry> {
    if TakenForSame(byTag, canonical, layout) then byTag else canonical
  }

  lemma MapLengths(ms: seq<Member>, byTag: seq<Entry>, canonical: seq<Entry>)
    requires MapsOf(ms, byTag, canonical)
    ensures |byTag| == |KeysOfMembers(ms, |ms|, -1)| && |canonical| == |CanonicalKeys(ms, -1, false)|
  {
    assert |multiset(Keys(byTag))| == |Keys(byTag)|;
  }

  /** The condition under which the canonical order is kept, on the members and the maps that follow from them. */
  ghost predicate KeepsOrder(ms: seq<Member>, byTag: seq<Entry>, canonical: seq<Entry>, layout: Entry -> seq<bv8>,
                             size: nat)
    requires IsLayout(layout, size) && MapsOf(ms, byTag, canonical)
  {
    var c := CanonicalKeys(ms, -1, false);
    MapLengths(ms, byTag, canonical);
    || InTagOrder(c) || |KeysOfMembers(ms, |ms|, -1)| != |c|
    || !SameFront(byTag, canonical, |byTag|, layout, size)
  }

  /**
   The encoder goes by the canonical order if and only if that is the order by tag, or the maps differ in
   their number of entries or in the first bytes, as many as there are entries.
   */
  lemma OrderKeptIff(ms: seq<Member>, byTag: seq<Entry>, canonical: seq<Entry>, layout: Entry -> seq<bv8>, size: nat)
    requires IsLayout(layout, size) && MapsOf(ms, byTag, canonical)
    ensures Keys(Used(byTag, canonical, layout)) == CanonicalKeys(ms, -1, false) <==>
              KeepsOrder(ms, byTag, canonical, layout, size)
  {
    hide SameFront, Sorted, InTagOrder, CanonicalKeys, KeysOfMembers, TakenForSame;
    MapsAgreeIff(ms, byTag, canonical);
    MapLengths(ms, byTag, canonical);
    TakenIff(byTag, canonical, layout, size);
  }

  /**
   Make both maps; the canonical one is left out when it is taken for the same. The encoder goes by the canonical
   order if and only if that is the order by tag, or the maps differ in their number of entries or in the first
   bytes, as many as there are entries.
   */
  method MakeMaps(ms: seq<Member>, layout: Entry -> seq<bv8>, ghost size: nat)
    returns (ok: bool, byTag: Map, cxer: Option<Map>, ghost canonical: seq<Entry>)
    requires IsLayout(layout, size)
    ensures fresh(byTag) && ok == AllTaggable(ms, |ms|)
    ensures ok ==> byTag.Indexed() && MapsOf(ms, byTag.entries, canonical)
    ensures ok ==> (cxer.None? <==> TakenForSame(byTag.entries, canonical, layout))
    ensures ok ==> (if cxer.Some? then cxer.value.entries else byTag.entries) == Used(byTag.entries, canonical, layout)
    ensures ok ==> (Keys(if cxer.Some? then cxer.value.entries else byTag.entries) == CanonicalKeys(ms, -1, false)
                    <==> KeepsOrder(ms, byTag.entries, canonical, layout, size))
  {
    hide KeysOfMembers, CanonicalKeys, AllTaggable, Sorted, InTagOrder, RunsExact, SameFront;
    byTag := new Map();
    ok := byTag.Fill(ms, -1, false, ByTag);
    if !ok {
      return ok, byTag, None, [];
    }
    var cxerMap := new Map();
    ok := cxerMap.Fill(ms, -1, false, CanonicalXer);
    canonical := cxerMap.entries;
    assert [] + CanonicalKeys(ms, -1, false) == CanonicalKeys(ms, -1, false);
    cxer := if TakenForSame(byTag.entries, cxerMap.entries, layout) then None else Some(cxerMap);
    OrderKeptIff(ms, byTag.entries, canonical, layout, size);
  }

  // ----- A canonical order that is lost -----

  /** An entry starts with the class of its tag, of four bytes, and the tagging mode, of four bytes as well. */
  ghost predicate TagComesFirst(layout: Entry -> seq<bv8>, size: nat, mode: Key -> int) {
    && IsLayout(layout, size) && size >= 8
    && (forall e: Entry, f: Entry :: e.key.tag.cls == f.key.tag.cls && mode(e.key) == mode(f.key) ==>
          layout(e)[..8] == layout(f)[..8])
  }

  /** Up to eight entries whose first tags are of one class and mode: in order only if that is the order by tag. */
  lemma OneClassLosesOrder(ms: seq<Member>, byTag: seq<Entry>, canonical: seq<Entry>, layout: Entry -> seq<bv8>,
                           size: nat, mode: Key -> int)
    requires TagComesFirst(layout, size, mode) && MapsOf(ms, byTag, canonical) && 0 < |byTag| == |canonical| <= 8
    requires byTag[0].key.tag.cls == canonical[0].key.tag.cls && mode(byTag[0].key) == mode(canonical[0].key)
    ensures TakenForSame(byTag, canonical, layout)
    ensures Keys(Used(byTag, canonical, layout)) == CanonicalKeys(ms, -1, false) <==>
              InTagOrder(CanonicalKeys(ms, -1, false))
  {
    var n, x, y := |byTag|, layout(byTag[0]), layout(canonical[0]);
    assert x[..n] == x[..8][..n] && y[..n] == y[..8][..n];
    FirstEntriesDecide(byTag, canonical, layout, size);
    MapsAgreeIff(ms, byTag, canonical);
    MapLengths(ms, byTag, canonical);
  }

  /** The same for no more entries than bytes in one, where the first one is the same in both maps. */
  lemma SameStartLosesOrder(ms: seq<Member>, byTag: seq<Entry>, canonical: seq<Entry>, layout: Entry -> seq<bv8>,
                            size: nat)
    requires IsLayout(layout, size) && MapsOf(ms, byTag, canonical) && 0 < |byTag| == |canonical| <= size
    requires byTag[0] == canonical[0]
    ensures TakenForSame(byTag, canonical, layout)
    ensures Keys(Used(byTag, canonical, layout)) == CanonicalKeys(ms, -1, false) <==>
              InTagOrder(CanonicalKeys(ms, -1, false))
  {
    FirstEntriesDecide(byTag, canonical, layout, size);
    MapsAgreeIff(ms, byTag, canonical);
    MapLengths(ms, byTag, canonical);
  }

  const CONTEXT := 3

  /** SET { a [1], b [2], c [3], ..., z [0] } with n members in its extension root. */
  function OutOfOrder(n: nat): seq<Member> {
    seq(n, i => Tagged(Tag(CONTEXT, i + 1))) + [Extensible, Tagged(Tag(CONTEXT, 0))]
  }

  function RootKeys(n: nat): (ks: seq<Key>)
    ensures |ks| == n
  {
    seq(n, i => Key(Tag(CONTEXT, i + 1), i))
  }

  /** That of the last member. */
  function KeyOfZ(n: nat): Key {
    Key(Tag(CONTEXT, 0), n)
  }

  lemma SortedPairs(s: seq<Key>)
    requires forall i, j :: 0 <= i < j < |s| ==> CompareKeys(s[i], s[j]) <= 0
    ensures Sorted(s, CompareKeys)
  {
    hide CompareKeys;
    forall i | 0 <= i < |s| ensures Precedes(s[i], s[i + 1..], CompareKeys) {
    }
  }

  lemma OneMore(ms: seq<Member>, n: nat, ks: seq<Key>)
    requires 0 < n <= |ms| && ms[n - 1].Tagged? && ms[n - 1].tag.value != -1 && AllTaggable(ms, n - 1)
    requires CanonicalUpTo(ms, n - 1, -1) == ks && KeysOfMembers(ms, n - 1, -1) == multiset(ks)
    ensures var k := Key(ms[n - 1].tag, Elements(ms, n - 1));
            CanonicalUpTo(ms, n, -1) == ks + [k] && KeysOfMembers(ms, n, -1) == multiset(ks + [k])
    ensures Elements(ms, n) == Elements(ms, n - 1) + 1 && AllTaggable(ms, n)
  {
  }

  lemma NoneYet(ms: seq<Member>)
    ensures CanonicalUpTo(ms, 0, -1) == [] && KeysOfMembers(ms, 0, -1) == multiset{}
    ensures Elements(ms, 0) == 0 && AllTaggable(ms, 0)
  {
  }

  lemma MarkerAddsNone(ms: seq<Member>, n: nat)
    requires 0 < n <= |ms| && ms[n - 1] == Extensible
    ensures CanonicalUpTo(ms, n, -1) == CanonicalUpTo(ms, n - 1, -1)
    ensures KeysOfMembers(ms, n, -1) == KeysOfMembers(ms, n - 1, -1)
    ensures Elements(ms, n) == Elements(ms, n - 1) && AllTaggable(ms, n) == AllTaggable(ms, n - 1)
  {
  }

  lemma {:induction false} RootUpTo(n: nat, k: nat)
    requires k <= n
    ensures var ms := OutOfOrder(n);
            && CanonicalUpTo(ms, k, -1) == RootKeys(k) && KeysOfMembers(ms, k, -1) == multiset(RootKeys(k))
            && Elements(ms, k) == k && AllTaggable(ms, k)
  {
    hide CanonicalUpTo, KeysOfMembers, AllTaggable, Elements;
    if k == 0 {
      NoneYet(OutOfOrder(n));
    } else {
      RootUpTo(n, k - 1);
      OneMore(OutOfOrder(n), k, RootKeys(k - 1));
      assert RootKeys(k) == RootKeys(k - 1) + [Key(Tag(CONTEXT, k), k - 1)];
    }
  }

  lemma OutOfOrderUpTo(n: nat)
    ensures var ms, ks := OutOfOrder(n), RootKeys(n) + [KeyOfZ(n)];
            && AllTaggable(ms, n + 2) && RootLength(ms) == n && CanonicalUpTo(ms, n, -1) == RootKeys(n)
            && CanonicalUpTo(ms, n + 2, -1) == ks && KeysOfMembers(ms, n + 2, -1) == multiset(ks)
  {
    hide CanonicalUpTo, KeysOfMembers, AllTaggable, Elements;
    var ms, root := OutOfOrder(n), RootKeys(n);
    RootUpTo(n, n);
    assert ms[n] == Extensible && ms[n + 1] == Tagged(Tag(CONTEXT, 0)) && RootLength(ms) == n;
    MarkerAddsNone(ms, n + 1);
    OneMore(ms, n + 2, root);
  }

  lemma RootInOrder(n: nat)
    ensures Sorted(RootKeys(n), CompareKeys)
  {
    SortedPairs(RootKeys(n));
  }

  /** Sorting what is sorted changes nothing before the last key. */
  lemma StaysInOrder(root: seq<Key>, z: Key, ks: seq<Key>)
    requires Sorted(root, CompareKeys) && |ks| == |root| + 1
    requires Sorted(ks[..|root|], CompareKeys) && multiset(ks[..|root|]) == multiset(root)
    requires ks[|root|..] == (root + [z])[|root|..]
    ensures ks == root + [z]
  {
    hide Sorted, CompareKeys;
    SortedOnce(ks[..|root|], root);
    assert ks == ks[..|root|] + ks[|root|..];
  }

  lemma LastFirst(root: seq<Key>, z: Key)
    ensures multiset(root + [z]) == multiset([z] + root)
  {
  }

  lemma OutOfOrderKeys(n: nat)
    ensures var ms := OutOfOrder(n);
            && AllTaggable(ms, |ms|) && CanonicalKeys(ms, -1, false) == RootKeys(n) + [KeyOfZ(n)]
            && KeysOfMembers(ms, |ms|, -1) == multiset([KeyOfZ(n)] + RootKeys(n))
  {
    hide AllTaggable, CanonicalKeys, CanonicalUpTo, KeysOfMembers, Sorted, CompareKeys;
    hide RootKeys, KeyOfZ, Elements, RootLength;
    OutOfOrderUpTo(n);
    RootComesSorted(OutOfOrder(n));
    RootInOrder(n);
    StaysInOrder(RootKeys(n), KeyOfZ(n), CanonicalKeys(OutOfOrder(n), -1, false));
    LastFirst(RootKeys(n), KeyOfZ(n));
  }

  /**
   Up to seven members in the root: the canonical map is taken for the map by tag, where z comes first. With
   four of them, the comparison goes beyond the class.
   */
  method OrderIsLost(n: nat, layout: Entry -> seq<bv8>, ghost size: nat, ghost mode: Key -> int)
    returns (byTag: Map, cxer: Option<Map>)
    requires 1 <= n <= 7 && TagComesFirst(layout, size, mode) && mode(KeyOfZ(n)) == mode(RootKeys(n)[0])
    ensures fresh(byTag) && cxer == None && Keys(byTag.entries) == [KeyOfZ(n)] + RootKeys(n)
    ensures CanonicalKeys(OutOfOrder(n), -1, false) == RootKeys(n) + [KeyOfZ(n)]
  {
    hide KeysOfMembers, CanonicalKeys, AllTaggable;
    OutOfOrderKeys(n);
    var ok;
    ghost var canonical;
    ok, byTag, cxer, canonical := MakeMaps(OutOfOrder(n), layout, size);
    ZComesFirst(n, byTag.entries, canonical, layout, size, mode);
  }

  lemma ZIsFirst(n: nat)
    ensures Sorted([KeyOfZ(n)] + RootKeys(n), CompareKeys)
  {
    SortedPairs([KeyOfZ(n)] + RootKeys(n));
  }

  lemma ZComesFirst(n: nat, byTag: seq<Entry>, canonical: seq<Entry>, layout: Entry -> seq<bv8>, size: nat,
                    mode: Key -> int)
    requires 1 <= n <= 7 && TagComesFirst(layout, size, mode) && mode(KeyOfZ(n)) == mode(RootKeys(n)[0])
    requires MapsOf(OutOfOrder(n), byTag, canonical)
    ensures TakenForSame(byTag, canonical, layout) && Keys(byTag) == [KeyOfZ(n)] + RootKeys(n)
  {
    hide KeysOfMembers, CanonicalKeys, AllTaggable, RunsExact, TakenForSame, Used, InTagOrder, Sorted, CompareKeys;
    var z, root := [KeyOfZ(n)], RootKeys(n);
    OutOfOrderKeys(n);
    ZIsFirst(n);
    SortedIff(Keys(byTag));
    SortedOnce(Keys(byTag), z + root);
    assert Keys(byTag)[0] == KeyOfZ(n) && Keys(canonical)[0] == root[0];
    OneClassLosesOrder(OutOfOrder(n), byTag, canonical, layout, size, mode);
  }
}
