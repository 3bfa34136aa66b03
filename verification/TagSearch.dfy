/**
 How the decoder of a SEQUENCE finds the element for a tag in the table that was made for it
 (skeletons/constr_SEQUENCE_ber.c).
 */
module TagSearch {
  import opened Wrappers
  import opened TagMap
  import Sorting
  import Octets = TagOctets

  /** An entry of the generated table. */
  datatype Slot = Slot(elTag: Octets.BerTag, elNo: int, toffFirst: int, toffLast: int)

  /** A tag with a class, and a number that fits. */
  predicate Printable(t: Tag) {
    1 <= t.cls <= 4 && 0 <= t.value < Octets.LIMIT / 8
  }

  function Emitted(e: Entry): Slot
    requires Printable(e.key.tag)
  {
    Slot(Octets.Emitted(e.key.tag.cls, e.key.tag.value), e.key.elNo, e.first, e.last)
  }

  /** The table is that of the map. */
  ghost predicate TableOf(table: seq<Slot>, s: seq<Entry>) {
    |table| == |s| && forall i :: 0 <= i < |s| ==> Printable(s[i].key.tag) && table[i] == Emitted(s[i])
  }

  /** The decoder's order; entries of the same tag from a's element on are equal to a. */
  function Compare(a: Slot, b: Slot): int {
    var aClass, bClass := Octets.ClassOf(a.elTag), Octets.ClassOf(b.elTag);
    if aClass == bClass then
      var aValue, bValue := Octets.NumberOf(a.elTag), Octets.NumberOf(b.elTag);
      if aValue == bValue then if a.elNo > b.elNo then 1 else 0
      else if aValue < bValue then -1 else 1
    else if aClass < bClass then -1 else 1
  }

  /** What compares less than, equal to and greater than the key comes in that order. */
  ghost predicate Partitioned(key: Slot, table: seq<Slot>) {
    forall i, j :: 0 <= i < j < |table| ==>
      && (Compare(key, table[j]) > 0 ==> Compare(key, table[i]) > 0)
      && (Compare(key, table[i]) < 0 ==> Compare(key, table[j]) < 0)
  }

  lemma InOrderCompared(key: Slot, a: Entry, b: Entry)
    requires Printable(a.key.tag) && Printable(b.key.tag) && NotAfter(a.key, b.key)
    ensures Compare(key, Emitted(b)) > 0 ==> Compare(key, Emitted(a)) > 0
    ensures Compare(key, Emitted(a)) < 0 ==> Compare(key, Emitted(b)) < 0
  {
    hide Octets.ClassOf, Octets.NumberOf, Octets.Emitted;
  }

  /** The compiler's order is one that the decoder can search. */
  lemma SortedIsPartitioned(key: Slot, table: seq<Slot>, s: seq<Entry>)
    requires TableOf(table, s) && InTagOrder(Keys(s))
    ensures Partitioned(key, table)
  {
    forall i, j | 0 <= i < j < |table| ensures
      && (Compare(key, table[j]) > 0 ==> Compare(key, table[i]) > 0)
      && (Compare(key, table[i]) < 0 ==> Compare(key, table[j]) < 0)
    {
      assert NotAfter(Keys(s)[i], Keys(s)[j]);
      InOrderCompared(key, s[i], s[j]);
    }
  }

  /** A stand-in for the C library's `bsearch`: some equal entry, if there is any. */
  method Bsearch(key: Slot, table: seq<Slot>) returns (at: Option<nat>)
    requires Partitioned(key, table)
    ensures at.Some? ==> at.value < |table| && Compare(key, table[at.value]) == 0
    ensures at.None? ==> forall i :: 0 <= i < |table| ==> Compare(key, table[i]) != 0
  {
    hide Compare;
    var lo, hi := 0, |table|;
    while lo < hi
      invariant 0 <= lo <= hi <= |table|
      invariant forall i :: 0 <= i < lo ==> Compare(key, table[i]) > 0
      invariant forall i :: hi <= i < |table| ==> Compare(key, table[i]) < 0
    {
      var mid := (lo + hi) / 2;
      var c := Compare(key, table[mid]);
      if c == 0 {
        return Some(mid);
      } else if c < 0 {
        hi := mid;
      } else {
        lo := mid + 1;
      }
    }
    return None;
  }

  /** k is an element from edx to edxMax with the tag. */
  ghost predicate Candidate(s: seq<Entry>, tag: Tag, edx: int, edxMax: int, k: int) {
    edx <= k <= edxMax && Key(tag, k) in Keys(s)
  }

  /** best is the last candidate, None if there is none. */
  ghost predicate IsLast(s: seq<Entry>, tag: Tag, edx: int, edxMax: int, best: Option<int>) {
    match best
    case None => forall k :: !Candidate(s, tag, edx, edxMax, k)
    case Some(b) => Candidate(s, tag, edx, edxMax, b) && forall k :: Candidate(s, tag, edx, edxMax, k) ==> k <= b
  }

  /** best is the element number of the last slot from a up to n that is in range. */
  ghost predicate Scanned(s: seq<Entry>, a: nat, n: nat, edx: int, edxMax: int, best: Option<int>)
    requires n <= |s|
  {
    && (best.Some? ==> exists j :: a <= j < n && s[j].key.elNo == best.value && edx <= best.value <= edxMax)
    && (forall j :: a <= j < n && edx <= s[j].key.elNo <= edxMax ==> best.Some? && s[j].key.elNo <= best.value)
  }

  /** a .. b are the slots with the tag. */
  ghost predicate IsRun(s: seq<Entry>, tag: Tag, a: int, b: int) {
    0 <= a <= b < |s| && forall j :: 0 <= j < |s| ==> (s[j].key.tag == tag <==> a <= j <= b)
  }

  /** What is equal to the key has its tag and does not come before its element. */
  lemma EqualIff(tag: Tag, key: Slot, e: Entry)
    requires Printable(tag) && Printable(e.key.tag) && key.elTag == Octets.Emitted(tag.cls, tag.value)
    ensures Compare(key, Emitted(e)) == 0 <==> e.key.tag == tag && e.key.elNo >= key.elNo
  {
    hide Octets.ClassOf, Octets.NumberOf, Octets.Emitted;
  }

  lemma FoundRun(table: seq<Slot>, s: seq<Entry>, tag: Tag, key: Slot, at: nat)
    requires TableOf(table, s) && OffsetsExact(s) && Printable(tag)
    requires key.elTag == Octets.Emitted(tag.cls, tag.value) && at < |table| && Compare(key, table[at]) == 0
    ensures IsRun(s, tag, at + s[at].first, at + s[at].last)
  {
    EqualIff(tag, key, s[at]);
    assert s[at].key.tag == s[at].key.tag;
  }

  lemma RunAscends(s: seq<Entry>, tag: Tag, a: int, b: int, i: int, j: int)
    requires InTagOrder(Keys(s)) && IsRun(s, tag, a, b) && a <= i <= j <= b
    ensures s[i].key.elNo <= s[j].key.elNo
  {
    if i < j {
      assert NotAfter(Keys(s)[i], Keys(s)[j]);
    }
  }

  lemma ScannedAll(s: seq<Entry>, tag: Tag, a: int, b: int, edx: int, edxMax: int, best: Option<int>)
    requires IsRun(s, tag, a, b) && Scanned(s, a, b + 1, edx, edxMax, best)
    ensures IsLast(s, tag, edx, edxMax, best)
  {
    if best.Some? {
      var j :| a <= j < b + 1 && s[j].key.elNo == best.value && edx <= best.value <= edxMax;
      assert Keys(s)[j] == Key(tag, best.value);
    }
    forall k | Candidate(s, tag, edx, edxMax, k) ensures best.Some? && k <= best.value {
      var j :| 0 <= j < |s| && Keys(s)[j] == Key(tag, k);
    }
  }

  lemma NoneFound(table: seq<Slot>, s: seq<Entry>, tag: Tag, key: Slot, edxMax: int)
    requires TableOf(table, s) && Printable(tag) && key.elTag == Octets.Emitted(tag.cls, tag.value)
    requires forall i :: 0 <= i < |table| ==> Compare(key, table[i]) != 0
    ensures IsLast(s, tag, key.elNo, edxMax, None)
  {
    hide Compare;
    forall i | 0 <= i < |s| ensures Keys(s)[i].tag == tag ==> Keys(s)[i].elNo < key.elNo {
      EqualIff(tag, key, s[i]);
    }
  }

  /** Look for the last element from edx to edxMax that has the tag. */
  method FindElement(table: seq<Slot>, elTag: Octets.BerTag, edx: int, edxMax: int, ghost s: seq<Entry>, ghost tag: Tag)
    returns (best: Option<int>)
    requires TableOf(table, s) && InTagOrder(Keys(s)) && OffsetsExact(s)
    requires Printable(tag) && elTag == Octets.Emitted(tag.cls, tag.value)
    ensures IsLast(s, tag, edx, edxMax, best)
  {
    hide Compare, InTagOrder, OffsetsExact, IsLast, Octets.Emitted;
    best := None;
    var key := Slot(elTag, edx, 0, 0);
    SortedIsPartitioned(key, table, s);
    var at := Bsearch(key, table);
    if at.None? {
      NoneFound(table, s, tag, key, edxMax);
      return None;
    }
    FoundRun(table, s, tag, key, at.value);
    var first, last := at.value + table[at.value].toffFirst, at.value + table[at.value].toffLast;
    var i := first;
    while i <= last
      invariant first <= i <= last + 1
      invariant Scanned(s, first, i, edx, edxMax, best)
    {
      if table[i].elNo > edxMax {
        forall j | i <= j <= last ensures s[j].key.elNo > edxMax {
          RunAscends(s, tag, first, last, i, j);
        }
        break;
      }
      if table[i].elNo >= edx {
        forall j | first <= j <= i ensures s[j].key.elNo <= s[i].key.elNo {
          RunAscends(s, tag, first, last, j, i);
        }
        best := Some(table[i].elNo);
      }
      i := i + 1;
    }
    assert Scanned(s, first, last + 1, edx, edxMax, best);
    ScannedAll(s, tag, first, last, edx, edxMax, best);
  }

  // ----- From the members to the element -----

  /** Every tag that is offered can be printed. */
  ghost predicate AllPrintable(ms: seq<Member>) {
    forall k: Key :: ElementOffers(ms, |ms|, k.elNo, k.tag) ==> Printable(k.tag)
  }

  /** The generated table of the map. */
  function Table(s: seq<Entry>): (table: seq<Slot>)
    requires forall i :: 0 <= i < |s| ==> Printable(s[i].key.tag)
    ensures TableOf(table, s)
  {
    seq(|s|, i requires 0 <= i < |s| => Emitted(s[i]))
  }

  /** best is the last element from edx to edxMax that offers the tag, None if none does. */
  ghost predicate LastOffering(ms: seq<Member>, tag: Tag, edx: int, edxMax: int, best: Option<int>) {
    match best
    case None => forall k :: edx <= k <= edxMax ==> !ElementOffers(ms, |ms|, k, tag)
    case Some(b) =>
      && edx <= b <= edxMax && ElementOffers(ms, |ms|, b, tag)
      && forall k :: b < k <= edxMax ==> !ElementOffers(ms, |ms|, k, tag)
  }

  lemma KeysAreOffers(ms: seq<Member>, s: seq<Entry>)
    requires multiset(Keys(s)) == KeysOfMembers(ms, |ms|, -1)
    ensures forall k: Key :: k in Keys(s) <==> ElementOffers(ms, |ms|, k.elNo, k.tag)
  {
    forall k: Key ensures k in Keys(s) <==> ElementOffers(ms, |ms|, k.elNo, k.tag) {
      KeyIff(ms, |ms|, k);
      assert k in Keys(s) <==> k in multiset(Keys(s));
    }
  }

  /**
   The tag leads the decoder, by the table made for these members, to the last element in the range that may come
   with it; to none if and only if none may.
   */
  method FindMember(ms: seq<Member>, tag: Tag, edx: int, edxMax: int) returns (ok: bool, best: Option<int>)
    requires Printable(tag) && AllPrintable(ms)
    ensures ok == AllTaggable(ms, |ms|)
    ensures ok ==> LastOffering(ms, tag, edx, edxMax, best)
  {
    hide AllTaggable, KeysOfMembers, ElementOffers, InTagOrder, OffsetsExact;
    var tags := new Map();
    ok := tags.Fill(ms, -1, false, ByTag);
    if !ok {
      return ok, None;
    }
    var s := tags.entries;
    KeysAreOffers(ms, s);
    forall i | 0 <= i < |s| ensures Printable(s[i].key.tag) {
      assert Keys(s)[i] in Keys(s);
    }
    best := FindElement(Table(s), Octets.Emitted(tag.cls, tag.value), edx, edxMax, s, tag);
    forall k: int ensures Candidate(s, tag, edx, edxMax, k) <==> edx <= k <= edxMax && ElementOffers(ms, |ms|, k, tag) {
      var key := Key(tag, k);
      assert key in Keys(s) <==> ElementOffers(ms, |ms|, key.elNo, key.tag);
    }
  }
}
