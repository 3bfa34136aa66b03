/**
 The map from outermost tags to members, by tag or in the order of canonical XER
 (libasn1compiler/asn1c_C.c, `_fill_tag2el_map`).
 */
module TagMap {
  import opened Wrappers
  import Sorting

  datatype Tag = Tag(cls: int, value: int)

  /** What the map needs to know of a member. */
  datatype Member =
    | Tagged(tag: Tag)                     // its outermost tag; that of an untagged ANY has the value -1
    | Choice(alternatives: seq<Member>)    // an untagged CHOICE
    | Reference(target: Option<Member>)    // an untagged reference, to None when it cannot be resolved
    | KnownExternal(unset: Tag)            // an untagged type of another module known by name only; the tag is
                                           // what the variable for the outermost tag holds before it is set
    | Extensible                           // an extension marker
    | Tagless                              // anything else without a tag

  datatype Key = Key(tag: Tag, elNo: int)

  /** All tags in order, or the members of the extension root by their least tags and then the others. */
  datatype Order = ByTag | CanonicalXer

  datatype Entry = Entry(key: Key, first: int, last: int)

  /** The order of class, value and element number. */
  function CompareKeys(a: Key, b: Key): int {
    if a.tag.cls == b.tag.cls then
      if a.tag.value == b.tag.value then
        if a.elNo < b.elNo then -1 else if a.elNo > b.elNo then 1 else 0
      else if a.tag.value < b.tag.value then -1 else 1
    else if a.tag.cls < b.tag.cls then -1 else 1
  }

  function Compare(a: Entry, b: Entry): int {
    CompareKeys(a.key, b.key)
  }

  lemma KeysOrdered()
    ensures Sorting.Preorder(CompareKeys)
  {
  }

  /** By class first, then by number, then by element. */
  predicate NotAfter(a: Key, b: Key) {
    || a.tag.cls < b.tag.cls
    || (a.tag.cls == b.tag.cls && a.tag.value < b.tag.value)
    || (a.tag.cls == b.tag.cls && a.tag.value == b.tag.value && a.elNo <= b.elNo)
  }

  ghost predicate InTagOrder(ks: seq<Key>) {
    forall i, j :: 0 <= i < j < |ks| ==> NotAfter(ks[i], ks[j])
  }

  /** Sorting goes by class first, then by number, then by element. */
  lemma SortedIff(ks: seq<Key>)
    ensures Sorting.Sorted(ks, CompareKeys) <==> InTagOrder(ks)
  {
    if Sorting.Sorted(ks, CompareKeys) {
      forall i, j | 0 <= i < j < |ks| ensures NotAfter(ks[i], ks[j]) {
        Sorting.SortedAt(ks, CompareKeys, i, j);
      }
    }
    if InTagOrder(ks) {
      forall i | 0 <= i < |ks| ensures Sorting.Precedes(ks[i], ks[i + 1..], CompareKeys) {
        var rest := ks[i + 1..];
        forall j | 0 <= j < |rest| ensures CompareKeys(ks[i], rest[j]) <= 0 {
          assert NotAfter(ks[i], ks[i + 1 + j]);
        }
      }
    }
  }

  function Keys(s: seq<Entry>): (r: seq<Key>)
    ensures |r| == |s| && forall i :: 0 <= i < |s| ==> r[i] == s[i].key
  {
    seq(|s|, i requires 0 <= i < |s| => s[i].key)
  }

  // ----- What the map is to hold -----

  /** Every member has a tag, and references resolve. */
  predicate Taggable(m: Member) {
    match m
    case Tagged(_) | KnownExternal(_) => true
    case Choice(ms) => AllTaggable(ms, |ms|)
    case Reference(target) => target.Some? && Taggable(target.value)
    case Extensible | Tagless => false
  }

  predicate AllTaggable(ms: seq<Member>, n: nat)
    requires n <= |ms|
    decreases ms, n
  {
    n == 0 || (AllTaggable(ms, n - 1) && (ms[n - 1] == Extensible || Taggable(ms[n - 1])))
  }

  /** No tag for the member itself, for what it refers to, or for one of its alternatives. */
  predicate Lacking(m: Member) {
    match m
    case Tagged(_) | KnownExternal(_) => false
    case Choice(ms) => exists i :: 0 <= i < |ms| && ms[i] != Extensible && Lacking(ms[i])
    case Reference(target) => target.None? || Lacking(target.value)
    case Extensible | Tagless => true
  }

  lemma {:induction false} TaggableIff(m: Member)
    ensures Taggable(m) <==> !Lacking(m)
  {
    match m
    case Choice(ms) => AllTaggableIff(ms, |ms|);
    case Reference(Some(target)) => TaggableIff(target);
    case _ =>
  }

  /** Members have tags if and only if none of them but extension markers lacks one. */
  lemma {:induction false} AllTaggableIff(ms: seq<Member>, n: nat)
    requires n <= |ms|
    ensures AllTaggable(ms, n) <==> forall i :: 0 <= i < n && ms[i] != Extensible ==> !Lacking(ms[i])
    decreases ms, n
  {
    if n > 0 {
      AllTaggableIff(ms, n - 1);
      TaggableIff(ms[n - 1]);
    }
  }

  /** Number of elements among the first n members: extension markers are none. */
  function Elements(ms: seq<Member>, n: nat): (r: nat)
    requires n <= |ms|
    ensures r <= n
  {
    if n == 0 then 0 else Elements(ms, n - 1) + if ms[n - 1] == Extensible then 0 else 1
  }

  /** The keys of a member that is element elNo: those of an untagged CHOICE are those of its alternatives. */
  function KeysOfMember(m: Member, elNo: int): multiset<Key> {
    match m
    case Tagged(tag) => KeysOfTag(tag, elNo)
    case KnownExternal(unset) => KeysOfTag(unset, elNo)
    case Choice(ms) => KeysOfMembers(ms, |ms|, elNo)
    case Reference(Some(target)) => KeysOfMember(target, elNo)
    case _ => multiset{}
  }

  /** The tag of an untagged ANY is left out. */
  function KeysOfTag(tag: Tag, elNo: int): multiset<Key> {
    if tag.value == -1 then multiset{} else multiset{Key(tag, elNo)}
  }

  /** The keys of the first n members; elNo -1 numbers them. */
  function KeysOfMembers(ms: seq<Member>, n: nat, elNo: int): multiset<Key>
    requires n <= |ms|
    decreases ms, n
  {
    if n == 0 then multiset{}
    else
      var before := KeysOfMembers(ms, n - 1, elNo);
      if ms[n - 1] == Extensible then before
      else before + KeysOfMember(ms[n - 1], if elNo == -1 then Elements(ms, n - 1) else elNo)
  }

  /** The member has the tag as its outermost one, or may have it by what it refers to or by an alternative. */
  predicate Offers(m: Member, tag: Tag) {
    match m
    case Tagged(t) => t == tag && tag.value != -1
    case KnownExternal(unset) => unset == tag && tag.value != -1
    case Choice(ms) => exists i :: 0 <= i < |ms| && Offers(ms[i], tag)
    case Reference(target) => target.Some? && Offers(target.value, tag)
    case Extensible | Tagless => false
  }

  /** The k-th element among the first n members, extension markers not counted, offers the tag. */
  ghost predicate ElementOffers(ms: seq<Member>, n: nat, k: int, tag: Tag) {
    exists i :: 0 <= i < n <= |ms| && Offers(ms[i], tag) && Elements(ms, i) == k
  }

  lemma MarkerOffersNone(tag: Tag)
    ensures !Offers(Extensible, tag)
  {
  }

  lemma {:induction false} KeyOfMemberIff(m: Member, elNo: int, k: Key)
    requires elNo != -1
    ensures k in KeysOfMember(m, elNo) <==> k.elNo == elNo && Offers(m, k.tag)
  {
    match m
    case Choice(ms) => KeyOfAlternativesIff(ms, |ms|, elNo, k);
    case Reference(Some(target)) => KeyOfMemberIff(target, elNo, k);
    case _ =>
  }

  lemma {:induction false} KeyOfAlternativesIff(ms: seq<Member>, n: nat, elNo: int, k: Key)
    requires n <= |ms| && elNo != -1
    ensures k in KeysOfMembers(ms, n, elNo) <==> k.elNo == elNo && exists i :: 0 <= i < n && Offers(ms[i], k.tag)
    decreases ms, n
  {
    hide KeysOfMember, Offers;
    if n > 0 {
      KeyOfAlternativesIff(ms, n - 1, elNo, k);
      var before := KeysOfMembers(ms, n - 1, elNo);
      if ms[n - 1] == Extensible {
        MarkerOffersNone(k.tag);
        assert KeysOfMembers(ms, n, elNo) == before;
      } else {
        KeyOfMemberIff(ms[n - 1], elNo, k);
        assert KeysOfMembers(ms, n, elNo) == before + KeysOfMember(ms[n - 1], elNo);
      }
    }
  }

  /** The map is to hold an element with a tag if and only if that element offers it. */
  lemma {:induction false} KeyIff(ms: seq<Member>, n: nat, k: Key)
    requires n <= |ms|
    ensures k in KeysOfMembers(ms, n, -1) <==> ElementOffers(ms, n, k.elNo, k.tag)
    decreases n
  {
    hide KeysOfMember, Offers, Elements;
    if n > 0 {
      KeyIff(ms, n - 1, k);
      var before := KeysOfMembers(ms, n - 1, -1);
      if ms[n - 1] == Extensible {
        MarkerOffersNone(k.tag);
        assert KeysOfMembers(ms, n, -1) == before;
      } else {
        KeyOfMemberIff(ms[n - 1], Elements(ms, n - 1), k);
        assert KeysOfMembers(ms, n, -1) == before + KeysOfMember(ms[n - 1], Elements(ms, n - 1));
      }
    }
  }

  // ----- What it is to hold for canonical XER -----

  /** Where the extension marker is, the length of the list if there is none. */
  function RootLength(ms: seq<Member>): (n: nat)
    ensures n <= |ms| && (n < |ms| ==> ms[n] == Extensible) && forall i :: 0 <= i < n ==> ms[i] != Extensible
  {
    if ms == [] || ms[0] == Extensible then 0 else 1 + RootLength(ms[1..])
  }

  /** The keys of a member; of an untagged CHOICE, the least of its extension root if that has any. */
  function CanonicalOfMember(m: Member, elNo: int): seq<Key> {
    match m
    case Tagged(tag) => CanonicalOfTag(tag, elNo)
    case KnownExternal(unset) => CanonicalOfTag(unset, elNo)
    case Choice(ms) => CanonicalKeys(ms, elNo, true)
    case Reference(Some(target)) => CanonicalOfMember(target, elNo)
    case _ => []
  }

  function CanonicalOfTag(tag: Tag, elNo: int): seq<Key> {
    if tag.value == -1 then [] else [Key(tag, elNo)]
  }

  /** Those of the first n members, one after the other. */
  function CanonicalUpTo(ms: seq<Member>, n: nat, elNo: int): seq<Key>
    requires n <= |ms|
    decreases ms, n
  {
    if n == 0 then []
    else
      var before := CanonicalUpTo(ms, n - 1, elNo);
      if ms[n - 1] == Extensible then before
      else before + CanonicalOfMember(ms[n - 1], if elNo == -1 then Elements(ms, n - 1) else elNo)
  }

  /** Those of the extension root in order, then the others; only the first for a CHOICE with keys in its root. */
  function CanonicalKeys(ms: seq<Member>, elNo: int, choice: bool): seq<Key>
    decreases ms, |ms| + 1
  {
    RootSorted(CanonicalUpTo(ms, |ms|, elNo), |CanonicalUpTo(ms, RootLength(ms), elNo)|, choice)
  }

  /** The first r keys sorted; only the first one for a choice if r > 0. */
  function RootSorted(ks: seq<Key>, r: nat, choice: bool): seq<Key> {
    if r > |ks| then ks
    else
      var root := Sorting.Qsort(ks[..r], CompareKeys);
      if choice && r > 0 then [root[0]] else root + ks[r..]
  }

  lemma {:induction false} CanonicalGrows(ms: seq<Member>, n: nat, k: nat, elNo: int)
    requires n <= k <= |ms|
    ensures CanonicalUpTo(ms, n, elNo) <= CanonicalUpTo(ms, k, elNo)
    decreases k
  {
    if n < k {
      CanonicalGrows(ms, n, k - 1, elNo);
    }
  }

  // ----- Tags that were never set -----

  /** The member with t in place of all tags that are not set. */
  function WithUnset(m: Member, t: Tag): Member {
    match m
    case KnownExternal(_) => KnownExternal(t)
    case Choice(ms) => Choice(AllWithUnset(ms, t))
    case Reference(Some(target)) => Reference(Some(WithUnset(target, t)))
    case _ => m
  }

  function AllWithUnset(ms: seq<Member>, t: Tag): (r: seq<Member>)
    ensures |r| == |ms|
    decreases ms
  {
    seq(|ms|, i requires 0 <= i < |ms| => WithUnset(ms[i], t))
  }

  /** Some untagged external type is met. */
  predicate HasExternal(m: Member) {
    match m
    case KnownExternal(_) => true
    case Choice(ms) => SomeExternal(ms, |ms|)
    case Reference(Some(target)) => HasExternal(target)
    case _ => false
  }

  predicate SomeExternal(ms: seq<Member>, n: nat)
    requires n <= |ms|
    decreases ms, n
  {
    n > 0 && (SomeExternal(ms, n - 1) || HasExternal(ms[n - 1]))
  }

  const NO_TAG := Tag(0, -1)
  const SOME_TAG := Tag(0, 0)

  /** How many keys the member has. */
  ghost function Count(m: Member, elNo: int): nat {
    |KeysOfMember(m, elNo)|
  }

  ghost function CountAll(ms: seq<Member>, n: nat, elNo: int): nat
    requires n <= |ms|
  {
    |KeysOfMembers(ms, n, elNo)|
  }

  lemma CountOneMore(ms: seq<Member>, n: nat, elNo: int)
    requires 0 < n <= |ms|
    ensures var no := if elNo == -1 then Elements(ms, n - 1) else elNo;
            CountAll(ms, n, elNo) == CountAll(ms, n - 1, elNo) + Count(ms[n - 1], no)
  {
  }

  lemma {:induction false} SameElements(ms: seq<Member>, t: Tag, u: Tag, n: nat)
    requires n <= |ms|
    ensures Elements(AllWithUnset(ms, t), n) == Elements(AllWithUnset(ms, u), n)
  {
    if n > 0 {
      SameElements(ms, t, u, n - 1);
    }
  }

  /** An unset tag counts as one more key when it looks like a tag than when it looks like that of an ANY. */
  lemma {:induction false} UnsetTagCounts(m: Member, elNo: int)
    ensures var a, b := Count(WithUnset(m, NO_TAG), elNo), Count(WithUnset(m, SOME_TAG), elNo);
            if HasExternal(m) then a < b else a == b
  {
    match m
    case Choice(ms) => UnsetTagsCount(ms, |ms|, elNo);
    case Reference(Some(target)) => UnsetTagCounts(target, elNo);
    case _ =>
  }

  lemma {:induction false} UnsetTagsCount(ms: seq<Member>, n: nat, elNo: int)
    requires n <= |ms|
    ensures var a, b := CountAll(AllWithUnset(ms, NO_TAG), n, elNo), CountAll(AllWithUnset(ms, SOME_TAG), n, elNo);
            if SomeExternal(ms, n) then a < b else a == b
    decreases ms, n
  {
    if n > 0 {
      var a, b := AllWithUnset(ms, NO_TAG), AllWithUnset(ms, SOME_TAG);
      var no := if elNo == -1 then Elements(a, n - 1) else elNo;
      UnsetTagsCount(ms, n - 1, elNo);
      UnsetTagCounts(ms[n - 1], no);
      SameElements(ms, NO_TAG, SOME_TAG, n - 1);
      CountOneMore(a, n, elNo);
      CountOneMore(b, n, elNo);
      var x, y := a[n - 1], b[n - 1];
      assert Count(x, no) <= Count(y, no) && (HasExternal(ms[n - 1]) <==> Count(x, no) < Count(y, no));
    }
  }

  lemma {:induction false} NothingUnset(m: Member, t: Tag)
    requires !HasExternal(m)
    ensures WithUnset(m, t) == m
  {
    match m
    case Choice(ms) => NothingUnsetInAll(ms, |ms|, t);
    case Reference(Some(target)) => NothingUnset(target, t);
    case _ =>
  }

  lemma {:induction false} NothingUnsetInAll(ms: seq<Member>, n: nat, t: Tag)
    requires n <= |ms| && !SomeExternal(ms, n)
    ensures forall i :: 0 <= i < n ==> AllWithUnset(ms, t)[i] == ms[i]
    decreases ms, n
  {
    if n > 0 {
      NothingUnsetInAll(ms, n - 1, t);
      NothingUnset(ms[n - 1], t);
    }
  }

  /** What the map holds follows from the members' tags if and only if no untagged external type is among them. */
  lemma DeterminedIff(ms: seq<Member>, elNo: int)
    ensures !SomeExternal(ms, |ms|) <==>
              forall t: Tag, u: Tag ::
                KeysOfMembers(AllWithUnset(ms, t), |ms|, elNo) == KeysOfMembers(AllWithUnset(ms, u), |ms|, elNo)
  {
    if SomeExternal(ms, |ms|) {
      UnsetTagsCount(ms, |ms|, elNo);
      var a, b := AllWithUnset(ms, NO_TAG), AllWithUnset(ms, SOME_TAG);
      assert KeysOfMembers(a, |ms|, elNo) != KeysOfMembers(b, |ms|, elNo);
    } else {
      forall t: Tag ensures AllWithUnset(ms, t) == ms {
        NothingUnsetInAll(ms, |ms|, t);
      }
    }
  }

  /** The same SEQUENCE of one untagged external type, by what its tag happens to be: no key, or one. */
  lemma ExternalKeys(elNo: int)
    requires elNo >= -1
    ensures var ms := [KnownExternal(NO_TAG)];
            && AllWithUnset(ms, SOME_TAG) == [KnownExternal(SOME_TAG)]
            && KeysOfMembers(ms, 1, elNo) == multiset{}
            && KeysOfMembers(AllWithUnset(ms, SOME_TAG), 1, elNo)
               == multiset{Key(SOME_TAG, if elNo == -1 then 0 else elNo)}
  {
    var ms := [KnownExternal(NO_TAG)];
    assert KeysOfMembers(ms, 0, elNo) == multiset{} && Elements(ms, 0) == 0;
    var ns := AllWithUnset(ms, SOME_TAG);
    assert ns[0] == WithUnset(ms[0], SOME_TAG);
    assert ns == [KnownExternal(SOME_TAG)];
    assert KeysOfMembers(ns, 0, elNo) == multiset{} && Elements(ns, 0) == 0;
  }

  // ----- Offsets -----

  /** The run of entries with k's tag, within the first n, is k + first .. k + last. */
  predicate RunAt(s: seq<Entry>, n: nat, k: nat)
    requires k < n <= |s|
  {
    var a, b, tag := k + s[k].first, k + s[k].last, s[k].key.tag;
    && 0 <= a <= k <= b < n
    && (forall j :: a <= j <= b ==> s[j].key.tag == tag)
    && (a == 0 || s[a - 1].key.tag != tag)
    && (b == n - 1 || s[b + 1].key.tag != tag)
  }

  /** Every slot knows its run. */
  ghost predicate RunsExact(s: seq<Entry>) {
    forall k :: 0 <= k < |s| ==> RunAt(s, |s|, k)
  }

  /** The slots i + first .. i + last are exactly those with the tag of i. */
  ghost predicate OffsetsExact(s: seq<Entry>) {
    && (forall i :: 0 <= i < |s| ==> 0 <= i + s[i].first && i + s[i].last < |s|)
    && forall i, j :: 0 <= i < |s| && 0 <= j < |s| ==>
      (s[j].key.tag == s[i].key.tag <==> i + s[i].first <= j <= i + s[i].last)
  }

  lemma RunIsExact(s: seq<Entry>, i: nat, j: nat)
    requires Sorting.Sorted(Keys(s), CompareKeys) && i < |s| && j < |s| && RunAt(s, |s|, i)
    ensures s[j].key.tag == s[i].key.tag <==> i + s[i].first <= j <= i + s[i].last
  {
    var a, b := i + s[i].first, i + s[i].last;
    if j < a {
      Between(s, j, a - 1, i);
    } else if j > b {
      Between(s, i, b + 1, j);
    }
  }

  lemma RunsAreExact(s: seq<Entry>)
    requires Sorting.Sorted(Keys(s), CompareKeys)
    requires RunsExact(s)
    ensures OffsetsExact(s)
  {
    forall i | 0 <= i < |s| ensures 0 <= i + s[i].first && i + s[i].last < |s| {
      assert RunAt(s, |s|, i);
    }
    forall i, j | 0 <= i < |s| && 0 <= j < |s|
      ensures s[j].key.tag == s[i].key.tag <==> i + s[i].first <= j <= i + s[i].last
    {
      RunIsExact(s, i, j);
    }
  }

  /** Entries between two that are sorted have a tag of their own only if those two differ. */
  lemma Between(s: seq<Entry>, i: nat, j: nat, k: nat)
    requires Sorting.Sorted(Keys(s), CompareKeys) && i <= j <= k < |s|
    ensures s[i].key.tag == s[k].key.tag ==> s[j].key.tag == s[i].key.tag
  {
    if i < j < k {
      Sorting.SortedAt(Keys(s), CompareKeys, i, j);
      Sorting.SortedAt(Keys(s), CompareKeys, j, k);
    }
  }

  lemma {:induction false} InsertKeys(x: Entry, s: seq<Entry>)
    ensures Keys(Sorting.Insert(x, s, Compare)) == Sorting.Insert(x.key, Keys(s), CompareKeys)
  {
    if s != [] {
      hide Compare, CompareKeys;
      InsertKeys(x, s[1..]);
      assert Keys(s)[1..] == Keys(s[1..]);
    }
  }

  lemma KeysConcat(a: seq<Entry>, b: seq<Entry>, c: seq<Entry>)
    ensures Keys(a + b + c) == Keys(a) + (Keys(b) + Keys(c))
  {
  }

  lemma {:induction false} SortKeys(s: seq<Entry>)
    ensures Keys(Sorting.Qsort(s, Compare)) == Sorting.Qsort(Keys(s), CompareKeys)
  {
    if s != [] {
      SortKeys(s[1..]);
      InsertKeys(s[0], Sorting.Qsort(s[1..], Compare));
      assert Keys(s)[1..] == Keys(s[1..]);
    }
  }

  /** The keys are now those before and those of the first n members. */
  ghost predicate Added(before: seq<Key>, now: seq<Key>, ms: seq<Member>, n: nat, elNo: int, order: Order)
    requires n <= |ms|
  {
    if order.ByTag? then multiset(now) == multiset(before) + KeysOfMembers(ms, n, elNo)
    else now == before + CanonicalUpTo(ms, n, elNo)
  }

  /** Where the root ends among the entries; -1 while no extension marker was met. */
  ghost predicate RootEnds(original: nat, sortUntil: int, ms: seq<Member>, n: nat, elNo: int, order: Order) {
    sortUntil == if order.CanonicalXer? && n > RootLength(ms)
                 then original + |CanonicalUpTo(ms, RootLength(ms), elNo)| else -1
  }

  lemma AddingStarts(before: seq<Key>, ms: seq<Member>, elNo: int, order: Order)
    ensures Added(before, before, ms, 0, elNo, order) && RootEnds(|before|, -1, ms, 0, elNo, order)
  {
    assert before + [] == before;
  }

  lemma KeysJoin(a: seq<Key>, b: seq<Key>, c: seq<Key>)
    ensures a + b + c == a + (b + c)
  {
  }

  lemma AddedNext(before: seq<Key>, now: seq<Key>, next: seq<Key>, ms: seq<Member>, n: nat, elNo: int, order: Order)
    requires n < |ms| && ms[n] != Extensible && Added(before, now, ms, n, elNo, order)
    requires var no := if elNo == -1 then Elements(ms, n) else elNo;
             if order.ByTag? then multiset(next) == multiset(now) + KeysOfMember(ms[n], no)
             else next == now + CanonicalOfMember(ms[n], no)
    ensures Added(before, next, ms, n + 1, elNo, order)
  {
    hide KeysOfMember, CanonicalOfMember;
    var no := if elNo == -1 then Elements(ms, n) else elNo;
    KeysJoin(before, CanonicalUpTo(ms, n, elNo), CanonicalOfMember(ms[n], no));
  }

  /** The marker of the root is the first one. */
  lemma RootGoesOn(before: seq<Key>, now: seq<Key>, ms: seq<Member>, n: nat, elNo: int, order: Order, sortUntil: int)
    requires n < |ms| && Added(before, now, ms, n, elNo, order)
    requires RootEnds(|before|, sortUntil, ms, n, elNo, order)
    ensures ms[n] == Extensible ==> Added(before, now, ms, n + 1, elNo, order)
    ensures var here := ms[n] == Extensible && order.CanonicalXer? && sortUntil == -1;
            RootEnds(|before|, if here then |now| else sortUntil, ms, n + 1, elNo, order)
  {
    hide KeysOfMember, CanonicalOfMember;
    if ms[n] == Extensible {
      RootLengthIs(ms, n);
    }
  }

  lemma RootIsKnown(before: seq<Key>, now: seq<Key>, ms: seq<Member>, elNo: int, order: Order, sortUntil: int)
    requires Added(before, now, ms, |ms|, elNo, order) && RootEnds(|before|, sortUntil, ms, |ms|, elNo, order)
    ensures order.CanonicalXer? ==>
              |before| + |CanonicalUpTo(ms, RootLength(ms), elNo)| <= |now|
              && (if sortUntil == -1 then |now| else sortUntil) == |before| + |CanonicalUpTo(ms, RootLength(ms), elNo)|
  {
    CanonicalGrows(ms, RootLength(ms), |ms|, elNo);
  }

  class Map {
    var entries: seq<Entry>

    constructor ()
      ensures entries == []
    {
      entries := [];
    }

    /** Sorted by class, value and element number, with exact offsets. */
    ghost predicate Indexed()
      reads this
    {
      Sorting.Sorted(Keys(entries), CompareKeys) && OffsetsExact(entries)
    }

    /**
     Add the entries of ms, the members of a CHOICE or not; elNo -1 numbers them, another one is that of the
     element they belong to.
     */
    method Fill(ms: seq<Member>, elNo: int, choice: bool, order: Order) returns (ok: bool)
      requires elNo >= -1
      modifies this
      ensures ok == AllTaggable(ms, |ms|)
      ensures ok && order.ByTag? ==> Indexed() && InTagOrder(Keys(entries))
      ensures ok && order.ByTag? ==>
                multiset(Keys(entries)) == multiset(Keys(old(entries))) + KeysOfMembers(ms, |ms|, elNo)
      ensures ok && order.CanonicalXer? ==> Keys(entries) == Keys(old(entries)) + CanonicalKeys(ms, elNo, choice)
      ensures ok ==> RunsExact(entries)
      decreases ms, 1
    {
      ghost var before := Keys(entries);
      var original, sortUntil := |entries|, 0;
      ok, sortUntil := AddAll(ms, elNo, order);
      if !ok {
        return;
      }
      if order == CanonicalXer {
        SortRoot(original, sortUntil, choice, before, CanonicalUpTo(ms, |ms|, elNo));
      } else {
        SortAll();
      }
      SetOffsets();
      SortedIff(Keys(entries));
    }

    /** Add them unsorted; the root ends at sortUntil. */
    method AddAll(ms: seq<Member>, elNo: int, order: Order) returns (ok: bool, sortUntil: int)
      requires elNo >= -1
      modifies this
      ensures ok == AllTaggable(ms, |ms|)
      ensures ok ==> Added(Keys(old(entries)), Keys(entries), ms, |ms|, elNo, order)
      ensures ok && order.CanonicalXer? ==>
                sortUntil == |old(entries)| + |CanonicalUpTo(ms, RootLength(ms), elNo)| <= |entries|
      decreases ms, 0
    {
      hide Added, RootEnds;
      ghost var before := Keys(entries);
      var element := 0;
      ghost var original := |entries|;
      sortUntil := -1;
      AddingStarts(before, ms, elNo, order);
      for i := 0 to |ms|
        invariant element == Elements(ms, i) && AllTaggable(ms, i)
        invariant Added(before, Keys(entries), ms, i, elNo, order)
        invariant RootEnds(original, sortUntil, ms, i, elNo, order)
      {
        RootGoesOn(before, Keys(entries), ms, i, elNo, order, sortUntil);
        if ms[i] == Extensible {
          if order == CanonicalXer && sortUntil == -1 {
            sortUntil := |entries|;
          }
        } else {
          ghost var keys := Keys(entries);
          ok := AddMember(ms[i], if elNo == -1 then element else elNo, order);
          if !ok {
            NotAllTaggable(ms, i + 1);
            return;
          }
          AddedNext(before, keys, Keys(entries), ms, i, elNo, order);
          element := element + 1;
        }
      }
      RootIsKnown(before, Keys(entries), ms, elNo, order, sortUntil);
      if sortUntil == -1 {
        sortUntil := |entries|;
      }
      return true, sortUntil;
    }

    /** Sort all entries. */
    method SortAll()
      modifies this
      ensures Sorting.Sorted(Keys(entries), CompareKeys)
      ensures multiset(Keys(entries)) == multiset(Keys(old(entries)))
    {
      SortKeys(entries);
      KeysOrdered();
      Sorting.QsortPermutes(Keys(entries), CompareKeys);
      Sorting.QsortSorts(Keys(entries), CompareKeys);
      entries := Sorting.Qsort(entries, Compare);
    }

    /** Sort the entries of the root, and keep only the first one for a CHOICE if the root has any. */
    method SortRoot(original: nat, sortUntil: nat, choice: bool, ghost before: seq<Key>, ghost ks: seq<Key>)
      requires original == |before| <= sortUntil <= |entries| && Keys(entries) == before + ks
      modifies this
      ensures Keys(entries) == before + RootSorted(ks, sortUntil - original, choice)
    {
      var first, root, rest := entries[..original], entries[original..sortUntil], entries[sortUntil..];
      assert Keys(first) == before && Keys(root) == ks[..sortUntil - original]
          && Keys(rest) == ks[sortUntil - original..];
      SortKeys(root);
      var sorted := Sorting.Qsort(root, Compare);
      KeysConcat(first, sorted, rest);
      entries := first + sorted + rest;
      if choice && sortUntil - original >= 1 {
        assert Keys(first + sorted[..1]) == before + [Keys(sorted)[0]];
        assert entries[..original + 1] == first + sorted[..1];
        entries := entries[..original + 1];
      }
    }

    /** Add the entries of one member. */
    method AddMember(m: Member, elNo: int, order: Order) returns (ok: bool)
      requires elNo >= 0
      modifies this
      ensures ok == Taggable(m)
      ensures ok && order.ByTag? ==>
                multiset(Keys(entries)) == multiset(Keys(old(entries))) + KeysOfMember(m, elNo)
      ensures ok && order.CanonicalXer? ==> Keys(entries) == Keys(old(entries)) + CanonicalOfMember(m, elNo)
      decreases m, 2
    {
      match m
      case Tagged(tag) =>
        AddTag(tag, elNo);
        return true;
      case KnownExternal(unset) =>
        // No tag was fetched, but that is not told from success.
        AddTag(unset, elNo);
        return true;
      case Choice(alternatives) =>
        ok := Fill(alternatives, elNo, true, order);
      case Reference(target) =>
        if target.None? {
          return false;
        }
        ok := AddMember(target.value, elNo, order);
      case Extensible | Tagless =>
        return false;
    }

    method AddTag(tag: Tag, elNo: int)
      modifies this
      ensures multiset(Keys(entries)) == multiset(Keys(old(entries))) + KeysOfTag(tag, elNo)
      ensures Keys(entries) == Keys(old(entries)) + CanonicalOfTag(tag, elNo)
    {
      if tag.value != -1 {
        var entry := Entry(Key(tag, elNo), 0, 0);
        assert Keys(entries + [entry]) == Keys(entries) + [entry.key];
        entries := entries + [entry];
      }
    }

    /** Initialise the offsets: those of runs, which hold all entries of a tag if the entries are sorted. */
    method SetOffsets()
      modifies this
      ensures Keys(entries) == old(Keys(entries)) && RunsExact(entries)
      ensures Sorting.Sorted(Keys(entries), CompareKeys) ==> OffsetsExact(entries)
    {
      hide RunAt, OffsetsExact, CompareKeys;
      var occur := 0;
      for cur := 0 to |entries|
        invariant Keys(entries) == old(Keys(entries))
        invariant forall k :: 0 <= k < cur ==> RunAt(entries, cur, k)
        invariant cur > 0 ==> 0 <= occur && entries[cur - 1].first == -occur
      {
        ghost var was := entries;
        RunStarts(was, cur);
        if cur == 0 || entries[cur - 1].key.tag != entries[cur].key.tag {
          occur := 0;
        } else {
          occur := occur + 1;
        }
        SetRun(cur, occur);
        RunsExtend(was, entries, cur, occur, cur + 1);
      }
      if Sorting.Sorted(Keys(entries), CompareKeys) {
        RunsAreExact(entries);
      }
    }

    /** Entry cur is the occur-th of its tag; the ones before it learn that the last one is cur. */
    method SetRun(cur: nat, occur: int)
      requires 0 <= occur <= cur < |entries|
      modifies this
      ensures Keys(entries) == Keys(old(entries))
      ensures RunSet(old(entries), entries, cur, occur)
    {
      entries := entries[cur := entries[cur].(first := -occur)];
      ghost var mid := entries;
      var i := 0;
      while i >= -occur
        invariant -occur - 1 <= i <= 0 && |entries| == |mid|
        invariant forall k :: 0 <= k < |entries| ==>
                    entries[k] == if cur + i < k <= cur then mid[k].(last := cur - k) else mid[k]
      {
        entries := entries[cur + i := entries[cur + i].(last := -i)];
        i := i - 1;
      }
      assert forall k :: 0 <= k < |entries| ==> entries[k].key == old(entries)[k].key;
    }
  }

  predicate RunSet(s: seq<Entry>, t: seq<Entry>, cur: nat, occur: int)
    requires 0 <= occur <= cur < |s| == |t|
  {
    && (forall k :: 0 <= k < cur - occur ==> t[k] == s[k])
    && (forall k :: cur - occur <= k < cur ==> t[k] == s[k].(last := cur - k))
    && t[cur].first == -occur && t[cur].last == 0
  }

  lemma {:induction false} RootLengthIs(ms: seq<Member>, i: nat)
    requires i < |ms| && ms[i] == Extensible
    ensures RootLength(ms) <= i
  {
  }

  lemma {:induction false} NotAllTaggable(ms: seq<Member>, n: nat)
    requires n <= |ms| && !AllTaggable(ms, n)
    ensures !AllTaggable(ms, |ms|)
    decreases |ms| - n
  {
    if n < |ms| {
      NotAllTaggable(ms, n + 1);
    }
  }

  lemma RunStarts(s: seq<Entry>, n: nat)
    requires n <= |s| && forall k :: 0 <= k < n ==> RunAt(s, n, k)
    ensures n > 0 ==> s[n - 1].first <= 0 <= n - 1 + s[n - 1].first
  {
    if n > 0 {
      assert RunAt(s, n, n - 1);
    }
  }

  lemma RunsExtend(s: seq<Entry>, t: seq<Entry>, cur: nat, occur: int, n: nat)
    requires |s| == |t| && cur < |s| && Keys(s) == Keys(t) && 0 <= occur <= cur && n == cur + 1
    requires forall k :: 0 <= k < cur ==> RunAt(s, cur, k)
    requires occur == if cur > 0 && s[cur - 1].key.tag == s[cur].key.tag then 1 - s[cur - 1].first else 0
    requires RunSet(s, t, cur, occur)
    ensures forall k :: 0 <= k < n ==> RunAt(t, n, k)
  {
    assert forall k :: 0 <= k < |s| ==> Keys(s)[k] == s[k].key && Keys(t)[k] == t[k].key;
    if cur > 0 {
      assert RunAt(s, cur, cur - 1);
    }
    forall k | 0 <= k < n ensures RunAt(t, n, k) {
      if k < cur {
        assert RunAt(s, cur, k);
      }
    }
  }

  /** Two maps of the same SEQUENCE; the second has an entry with the tag that was left over. */
  method ExternalDiffers() returns (a: Map, b: Map)
    ensures fresh(a) && fresh(b)
    ensures a.entries == [] && Keys(b.entries) == [Key(SOME_TAG, 0)]
  {
    a := new Map();
    b := new Map();
    ExternalKeys(-1);
    var _ := a.Fill([KnownExternal(NO_TAG)], -1, false, ByTag);
    var _ := b.Fill([KnownExternal(SOME_TAG)], -1, false, ByTag);
    ghost var none, one := Keys(a.entries), Keys(b.entries);
    assert multiset(none) == multiset{} && multiset(one) == multiset{Key(SOME_TAG, 0)};
    assert |multiset(none)| == |none| && |multiset(one)| == |one| == 1;
    assert one[0] in multiset(one);
  }
}
