/**
 The hash: up to four slots in TINY mode; in NORMAL mode buckets of collision lists, and an LRU list
 through the same elements
 (libasn1common/genhash.c).
 */
module Genhash {
  import opened Wrappers
  import opened NodeLists
  import opened HashModel

  /** How many entries a hash holds before it needs buckets. */
  const IH_VALUES := 4

  /** An iterator: the element it returns next, and whether it goes from the least recent to the most. */
  datatype Cursor<K(==), V> = Cursor(location: Node?<K, V>, itemNumber: int, lruFirst: bool)

  /** c is a doubly linked collision list that starts at head. */
  ghost predicate ChainLinked<K, V>(c: seq<Node<K, V>>, head: Node?<K, V>)
    reads c`hashPrev, c`hashNext
  {
    && Distinct(c)
    && head == At(c, 0)
    && (forall i {:trigger c[i].hashPrev} :: 0 <= i < |c| ==> c[i].hashPrev == At(c, i - 1))
    && (forall i {:trigger c[i].hashNext} :: 0 <= i < |c| ==> c[i].hashNext == At(c, i + 1))
  }

  lemma ChainPlace<K, V>(c: seq<Node<K, V>>, head: Node?<K, V>, i: nat)
    requires ChainLinked(c, head) && i < |c|
    ensures head == At(c, 0) && (c[i].hashPrev == null <==> i == 0)
  {
  }

  /** Only the element at i still points to itself. */
  ghost predicate ChainBypasses<K, V>(c: seq<Node<K, V>>, i: nat)
    requires i < |c|
    reads c`hashPrev, c`hashNext
  {
    && Distinct(c)
    && (forall k {:trigger c[k].hashPrev} :: 0 <= k < |c| && k != i ==>
          c[k].hashPrev == At(c, if k == i + 1 then i - 1 else k - 1))
    && (forall k {:trigger c[k].hashNext} :: 0 <= k < |c| && k != i ==>
          c[k].hashNext == At(c, if k == i - 1 then i + 1 else k + 1))
  }

  lemma ChainBypassedIsOut<K, V>(c: seq<Node<K, V>>, i: nat)
    requires i < |c| && ChainBypasses(c, i)
    ensures ChainLinked(Without(c, i), At(Without(c, i), 0))
  {
    var w := Without(c, i);
    DistinctWithout(c, i);
    assert |w| == |c| - 1;
    hide At, Without, Distinct, ChainBypasses;
    forall j | 0 <= j < |w| ensures w[j].hashPrev == At(w, j - 1) && w[j].hashNext == At(w, j + 1) {
      ChainBypassedAt(c, i, j);
    }
  }

  lemma ChainBypassedAt<K, V>(c: seq<Node<K, V>>, i: nat, j: nat)
    requires i < |c| && ChainBypasses(c, i) && j < |c| - 1
    ensures var w := Without(c, i); w[j].hashPrev == At(w, j - 1) && w[j].hashNext == At(w, j + 1)
  {
    var k := if j < i then j else j + 1;
    assert Without(c, i)[j] == c[k];
    AtWithout(c, i, j - 1);
    AtWithout(c, i, j + 1);
    hide At, Without, Distinct;
  }

  /** Link the neighbours of el to each other. */
  method ChainUnlink<K, V>(ghost c: seq<Node<K, V>>, el: Node<K, V>, ghost i: nat)
    requires ChainLinked(c, At(c, 0)) && i < |c| && c[i] == el
    modifies c`hashNext, c`hashPrev
    ensures ChainLinked(Without(c, i), At(Without(c, i), 0))
    ensures At(Without(c, i), 0) == if i == 0 then old(el.hashNext) else At(c, 0)
  {
    ChainBypass(c, el, i);
    ChainBypassedIsOut(c, i);
    AtWithout(c, i, 0);
  }

  method ChainBypass<K, V>(ghost c: seq<Node<K, V>>, el: Node<K, V>, ghost i: nat)
    requires ChainLinked(c, At(c, 0)) && i < |c| && c[i] == el
    modifies c`hashNext, c`hashPrev
    ensures ChainBypasses(c, i) && At(c, i + 1) == old(el.hashNext)
  {
    if el.hashPrev != null {
      el.hashPrev.hashNext := el.hashNext;
      if el.hashPrev.hashNext != null {
        el.hashNext.hashPrev := el.hashPrev;
      }
    } else if el.hashNext != null {
      el.hashNext.hashPrev := null;
    }
  }

  method ChainPush<K, V>(ghost c: seq<Node<K, V>>, head: Node?<K, V>, el: Node<K, V>)
    requires ChainLinked(c, head) && el !in c
    modifies el`hashNext, el`hashPrev, c`hashPrev
    ensures ChainLinked([el] + c, el)
  {
    el.hashPrev := null;
    el.hashNext := head;
    if el.hashNext != null {
      head.hashPrev := el;
    }
  }

  /** s is a doubly linked LRU list from head to tail. */
  ghost predicate ListLinked<K, V>(s: seq<Node<K, V>>, head: Node?<K, V>, tail: Node?<K, V>)
    reads s`lruPrev, s`lruNext
  {
    && Distinct(s)
    && head == At(s, 0) && tail == At(s, |s| - 1)
    && (forall i {:trigger s[i].lruPrev} :: 0 <= i < |s| ==> s[i].lruPrev == At(s, i - 1))
    && (forall i {:trigger s[i].lruNext} :: 0 <= i < |s| ==> s[i].lruNext == At(s, i + 1))
  }

  /** Only the element at i still points to itself; head and tail are those of the others. */
  ghost predicate ListBypasses<K, V>(s: seq<Node<K, V>>, i: nat, head: Node?<K, V>, tail: Node?<K, V>)
    requires i < |s|
    reads s`lruPrev, s`lruNext
  {
    && Distinct(s)
    && head == At(s, if i == 0 then 1 else 0) && tail == At(s, if i == |s| - 1 then i - 1 else |s| - 1)
    && (forall k {:trigger s[k].lruPrev} :: 0 <= k < |s| ==> s[k].lruPrev == At(s, if k == i + 1 then i - 1 else k - 1))
    && (forall k {:trigger s[k].lruNext} :: 0 <= k < |s| ==> s[k].lruNext == At(s, if k == i - 1 then i + 1 else k + 1))
  }

  lemma BypassedIsOut<K, V>(s: seq<Node<K, V>>, i: nat, head: Node?<K, V>, tail: Node?<K, V>)
    requires i < |s| && ListBypasses(s, i, head, tail)
    ensures ListLinked(Without(s, i), head, tail)
  {
    hide At, Without, Distinct, ListBypasses;
    var w := Without(s, i);
    BypassedEnds(s, i, head, tail);
    forall j | 0 <= j < |w| ensures w[j].lruPrev == At(w, j - 1) && w[j].lruNext == At(w, j + 1) {
      ListBypassedAt(s, i, head, tail, j);
    }
    LinkedByPosition(w, head, tail);
  }

  lemma LinkedByPosition<K, V>(s: seq<Node<K, V>>, head: Node?<K, V>, tail: Node?<K, V>)
    requires Distinct(s) && head == At(s, 0) && tail == At(s, |s| - 1)
    requires forall j :: 0 <= j < |s| ==> s[j].lruPrev == At(s, j - 1) && s[j].lruNext == At(s, j + 1)
    ensures ListLinked(s, head, tail)
  {
    hide At, Distinct;
  }

  lemma BypassedEnds<K, V>(s: seq<Node<K, V>>, i: nat, head: Node?<K, V>, tail: Node?<K, V>)
    requires i < |s| && ListBypasses(s, i, head, tail)
    ensures var w := Without(s, i);
            |w| == |s| - 1 && Distinct(w) && head == At(w, 0) && tail == At(w, |w| - 1)
  {
    DistinctWithout(s, i);
    AtWithout(s, i, 0);
    AtWithout(s, i, |s| - 2);
  }

  lemma ListBypassedAt<K, V>(s: seq<Node<K, V>>, i: nat, head: Node?<K, V>, tail: Node?<K, V>, j: nat)
    requires i < |s| && ListBypasses(s, i, head, tail) && j < |s| - 1
    ensures var w := Without(s, i); w[j].lruPrev == At(w, j - 1) && w[j].lruNext == At(w, j + 1)
  {
    var k := if j < i then j else j + 1;
    assert Without(s, i)[j] == s[k];
    AtWithout(s, i, j - 1);
    AtWithout(s, i, j + 1);
    hide At, Without, Distinct;
  }

  method ListUnlink<K, V>(ghost s: seq<Node<K, V>>, head: Node?<K, V>, tail: Node?<K, V>, el: Node<K, V>, ghost i: nat)
    returns (head': Node?<K, V>, tail': Node?<K, V>)
    requires ListLinked(s, head, tail) && i < |s| && s[i] == el
    modifies s`lruPrev, s`lruNext
    ensures ListLinked(Without(s, i), head', tail')
    ensures el.lruNext == old(el.lruNext) && el.lruPrev == old(el.lruPrev)
  {
    head', tail' := ListBypass(s, head, tail, el, i);
    BypassedIsOut(s, i, head', tail');
  }

  method ListBypass<K, V>(ghost s: seq<Node<K, V>>, head: Node?<K, V>, tail: Node?<K, V>, el: Node<K, V>, ghost i: nat)
    returns (head': Node?<K, V>, tail': Node?<K, V>)
    requires ListLinked(s, head, tail) && i < |s| && s[i] == el
    modifies s`lruPrev, s`lruNext
    ensures ListBypasses(s, i, head', tail')
    ensures el.lruNext == old(el.lruNext) && el.lruPrev == old(el.lruPrev)
  {
    head', tail' := head, tail;
    if el.lruPrev != null {
      el.lruPrev.lruNext := el.lruNext;
      if el.lruPrev.lruNext != null {
        el.lruNext.lruPrev := el.lruPrev;
      } else {
        tail' := el.lruPrev;
      }
    } else if head == el {
      head' := el.lruNext;
      if head' == null {
        tail' := null;
      } else {
        head'.lruPrev := null;
      }
    }
  }

  method ListPush<K, V>(ghost s: seq<Node<K, V>>, head: Node?<K, V>, ghost tail: Node?<K, V>, el: Node<K, V>)
    requires ListLinked(s, head, tail) && el !in s
    modifies el`lruPrev, el`lruNext, s`lruPrev
    ensures ListLinked([el] + s, el, if head == null then el else tail)
  {
    el.lruPrev, el.lruNext := null, null;
    if head != null {
      el.lruNext := head;
      el.lruNext.lruPrev := el;
    }
  }

  /** For every key, its bucket's chain and the LRU list hold the same elements in the same order. */
  ghost predicate Agreement<K(!new), V>(lru: seq<Node<K, V>>, chains: seq<seq<Node<K, V>>>, hashf: K -> nat) {
    |chains| > 0 && forall k :: ByKey(lru, k) == ByKey(chains[Bucket(hashf(k), |chains|)], k)
  }

  ghost function NoChains<K, V>(n: nat): seq<seq<Node<K, V>>> {
    seq(n, _ => [])
  }

  lemma NoneAgree<K(!new), V>(n: nat, hashf: K -> nat)
    requires n > 0
    ensures Agreement<K, V>([], NoChains(n), hashf)
  {
  }

  lemma AgreementDrop<K(!new), V>(lru: seq<Node<K, V>>, chains: seq<seq<Node<K, V>>>, hashf: K -> nat, el: Node<K, V>)
    requires Agreement(lru, chains, hashf) && el.keyHash == hashf(el.key)
    ensures var b := Bucket(el.keyHash, |chains|);
            Agreement(Drop(lru, el), chains[b := Drop(chains[b], el)], hashf)
  {
    var e := Bucket(el.keyHash, |chains|);
    var chains' := chains[e := Drop(chains[e], el)];
    forall k ensures ByKey(Drop(lru, el), k) == ByKey(chains'[Bucket(hashf(k), |chains|)], k) {
      ByKeyDrop(lru, el, k);
      ByKeyDrop(chains[e], el, k);
    }
  }

  lemma AgreementPush<K(!new), V>(lru: seq<Node<K, V>>, chains: seq<seq<Node<K, V>>>, hashf: K -> nat, el: Node<K, V>)
    requires Agreement(lru, chains, hashf) && el.keyHash == hashf(el.key)
    ensures var b := Bucket(el.keyHash, |chains|);
            Agreement([el] + lru, chains[b := [el] + chains[b]], hashf)
  {
    var e := Bucket(el.keyHash, |chains|);
    var chains' := chains[e := [el] + chains[e]];
    forall k ensures ByKey([el] + lru, k) == ByKey(chains'[Bucket(hashf(k), |chains|)], k) {
      ByKeyCons(el, lru, k);
      ByKeyCons(el, chains[e], k);
    }
  }

  /** Moving the first element of its key to the front of either list keeps them in agreement. */
  lemma AgreementMoveFront<K(!new), V>(lru: seq<Node<K, V>>, chains: seq<seq<Node<K, V>>>, hashf: K -> nat,
                                              el: Node<K, V>, q: nat)
    requires Agreement(lru, chains, hashf) && el.keyHash == hashf(el.key)
    requires ByKey(lru, el.key) != [] && ByKey(lru, el.key)[0] == el
    requires var c := chains[Bucket(el.keyHash, |chains|)]; Distinct(c) && q < |c| && c[q] == el
    ensures var b := Bucket(el.keyHash, |chains|);
            Agreement(lru, chains[b := [el] + Without(chains[b], q)], hashf)
    ensures Agreement([el] + Drop(lru, el), chains, hashf)
  {
    var e := Bucket(el.keyHash, |chains|);
    ByKeyHas(lru, el.key, el);
    ByKeyHas(chains[e], el.key, el);
    WithoutIsDrop(chains[e], q);
    forall k
      ensures ByKey([el] + Drop(lru, el), k) == ByKey(lru, k)
      ensures ByKey([el] + Drop(chains[e], el), k) == ByKey(chains[e], k)
    {
      ByKeyMoveFront(lru, el, k);
      ByKeyMoveFront(chains[e], el, k);
    }
  }

  lemma AgreementRehashed<K(!new), V>(lru: seq<Node<K, V>>, cs: seq<seq<Node<K, V>>>, hashf: K -> nat)
    requires |cs| > 0 && forall b :: 0 <= b < |cs| ==> cs[b] == InBucket(lru, b, |cs|)
    requires forall i :: 0 <= i < |lru| ==> lru[i].keyHash == hashf(lru[i].key)
    ensures Agreement(lru, cs, hashf)
  {
    forall k ensures ByKey(lru, k) == ByKey(cs[Bucket(hashf(k), |cs|)], k) {
      InBucketByKey(lru, Bucket(hashf(k), |cs|), |cs|, k);
    }
  }

  lemma AgreementWithout<K(!new), V>(lru: seq<Node<K, V>>, chains: seq<seq<Node<K, V>>>, hashf: K -> nat,
                                            el: Node<K, V>, p: nat, q: nat)
    requires Agreement(lru, chains, hashf) && el.keyHash == hashf(el.key)
    requires Distinct(lru) && p < |lru| && lru[p] == el
    requires var c := chains[Bucket(el.keyHash, |chains|)]; Distinct(c) && q < |c| && c[q] == el
    ensures var b := Bucket(el.keyHash, |chains|);
            Agreement(Without(lru, p), chains[b := Without(chains[b], q)], hashf)
    ensures Without(lru, p) == Drop(lru, el) && |Without(lru, p)| == |lru| - 1
  {
    AgreementDrop(lru, chains, hashf, el);
    WithoutIsDrop(lru, p);
    WithoutIsDrop(chains[Bucket(el.keyHash, |chains|)], q);
  }

  /** What an iterator on the list s still has ahead of it. */
  ghost function AheadOf<K, V>(s: seq<Node<K, V>>, c: Cursor<K, V>): seq<Node<K, V>> {
    Ahead(s, c.location, c.lruFirst)
  }

  /** Every location is an element of s, or null. */
  ghost predicate LocatedIn<K, V>(cs: seq<Cursor<K, V>>, s: seq<Node<K, V>>) {
    forall i :: 0 <= i < |cs| ==> cs[i].location == null || cs[i].location in s
  }

  /** An iterator of a TINY hash after slot i was closed up. */
  function Shifted<K, V>(c: Cursor<K, V>, i: int): Cursor<K, V> {
    if (if c.lruFirst then c.itemNumber > i else c.itemNumber >= i) then c.(itemNumber := c.itemNumber - 1) else c
  }

  /** What a TINY iterator still has ahead: from its slot up, or down. */
  ghost function SlotsAhead<T, K, V>(slots: seq<T>, c: Cursor<K, V>): seq<T> {
    if c.itemNumber < 0 || c.itemNumber >= |slots| then []
    else if c.lruFirst then slots[c.itemNumber..] else Reversed(slots[..c.itemNumber + 1])
  }

  /** The iterator after it returned an entry. */
  function Stepped<K, V>(c: Cursor<K, V>): Cursor<K, V> {
    c.(itemNumber := if c.lruFirst then c.itemNumber + 1 else c.itemNumber - 1)
  }

  lemma SlotsAheadStep<T, K, V>(slots: seq<T>, c: Cursor<K, V>)
    requires 0 <= c.itemNumber < |slots|
    ensures SlotsAhead(slots, c) == [slots[c.itemNumber]] + SlotsAhead(slots, Stepped(c))
  {
    var i := c.itemNumber;
    if !c.lruFirst {
      assert slots[..i + 1] == slots[..i] + [slots[i]];
      ReversedConcat(slots[..i], [slots[i]]);
      assert [slots[i]][1..] == [];
      assert Reversed([slots[i]]) == [slots[i]];
      assert i == 0 ==> slots[..i] == [];
    }
  }

  /** A new iterator has everything ahead. */
  lemma AheadWhole<K, V>(s: seq<Node<K, V>>, c: Cursor<K, V>)
    requires Distinct(s) && c.location == if c.lruFirst then At(s, |s| - 1) else At(s, 0)
    ensures AheadOf(s, c) == if c.lruFirst then Reversed(s) else s
    ensures c.location == null || c.location in s
  {
    if s != [] {
      AheadAt(s, if c.lruFirst then |s| - 1 else 0, c.lruFirst);
      assert s[..|s| - 1 + 1] == s && s[0..] == s;
    }
  }

  lemma SlotsWhole<T, K, V>(slots: seq<T>, c: Cursor<K, V>)
    requires c.itemNumber == if c.lruFirst then 0 else |slots| - 1
    ensures SlotsAhead(slots, c) == if c.lruFirst then slots else Reversed(slots)
  {
    assert slots[..|slots| - 1 + 1] == slots && slots[0..] == slots;
  }

  /** When the list goes from s to s', the iterators keep ahead what is left of what they had ahead. */
  ghost predicate AllKept<K, V>(cs: seq<Cursor<K, V>>, s: seq<Node<K, V>>,
                                cs': seq<Cursor<K, V>>, s': seq<Node<K, V>>)
  {
    |cs'| == |cs| && forall i {:trigger cs'[i]} {:trigger cs[i]} :: 0 <= i < |cs| ==>
      cs'[i].lruFirst == cs[i].lruFirst && AheadOf(s', cs'[i]) == Only(AheadOf(s, cs[i]), s')
  }

  lemma AllKeptRefl<K, V>(cs: seq<Cursor<K, V>>, s: seq<Node<K, V>>)
    requires Distinct(s)
    ensures AllKept(cs, s, cs, s)
  {
    forall i | 0 <= i < |cs| ensures AheadOf(s, cs[i]) == Only(AheadOf(s, cs[i]), s) {
      AheadWithin(s, cs[i].location, cs[i].lruFirst);
      OnlyAll(AheadOf(s, cs[i]), s);
    }
  }

  lemma AllKeptTrans<K, V>(cs: seq<Cursor<K, V>>, s: seq<Node<K, V>>, cs': seq<Cursor<K, V>>, s': seq<Node<K, V>>,
                           cs'': seq<Cursor<K, V>>, s'': seq<Node<K, V>>)
    requires AllKept(cs, s, cs', s') && AllKept(cs', s', cs'', s'')
    requires forall n :: n in s'' ==> n in s'
    ensures AllKept(cs, s, cs'', s'')
  {
    forall i | 0 <= i < |cs|
      ensures cs''[i].lruFirst == cs[i].lruFirst && AheadOf(s'', cs''[i]) == Only(AheadOf(s, cs[i]), s'')
    {
      assert cs'[i].lruFirst == cs[i].lruFirst;
      OnlyOnly(AheadOf(s, cs[i]), s', s'');
    }
  }

  lemma CursorMoved<K, V>(s: seq<Node<K, V>>, p: nat, c: Cursor<K, V>, c': Cursor<K, V>)
    requires Distinct(s) && p < |s| && (c.location == null || c.location in s)
    requires c' == c.(location := if c.location != s[p] then c.location
                                  else if c.lruFirst then At(s, p - 1) else At(s, p + 1))
    ensures AheadOf(Drop(s, s[p]), c') == Only(AheadOf(s, c), Drop(s, s[p]))
    ensures c'.location == null || c'.location in Drop(s, s[p])
  {
    DropKeeps(s, s[p]);
    AheadWithin(s, c.location, c.lruFirst);
    OnlyDrop(AheadOf(s, c), s, s[p]);
    if c.location != null {
      AheadDrop(s, p, Index(s, c.location), c.lruFirst);
    }
  }

  /** A new most recent element is ahead of the iterators towards the head that have not ended. */
  lemma CursorStays<K, V>(s: seq<Node<K, V>>, el: Node<K, V>, c: Cursor<K, V>)
    requires Distinct(s) && el !in s && (c.location == null || c.location in s)
    ensures AheadOf([el] + s, c) ==
              if c.lruFirst && AheadOf(s, c) != [] then AheadOf(s, c) + [el] else AheadOf(s, c)
  {
    if c.location != null {
      var i := Index(s, c.location);
      AheadPush(s, el, i, c.lruFirst);
      AheadStep(s, i, c.lruFirst);
    }
  }

  class Hash<K(==, !new), V> {
    const keyhashf: K -> nat
    const maxBuckets: nat
    var slots: seq<(K, V)>
    var numelements: nat
    var numbuckets: nat
    var lruLimit: nat
    var cursors: seq<Cursor<K, V>>
    var buckets: seq<Node?<K, V>>
    var lruHead: Node?<K, V>
    var lruTail: Node?<K, V>

    ghost var lru: seq<Node<K, V>>
    ghost var chains: seq<seq<Node<K, V>>>
    ghost var nodes: set<Node<K, V>>

    /** lru is a doubly linked list from lruHead to lruTail. */
    ghost predicate LruLinked()
      reads `lru, `lruHead, `lruTail, `nodes, nodes`lruPrev, nodes`lruNext
    {
      && (forall i :: 0 <= i < |lru| ==> lru[i] in nodes)
      && ListLinked(lru, lruHead, lruTail)
    }

    /** Every element of chain b hashes to bucket b. */
    ghost predicate ChainsPlaced()
      reads `chains, `numbuckets, `nodes
    {
      && 0 < numbuckets == |chains|
      && (forall b, i :: 0 <= b < |chains| && 0 <= i < |chains[b]| ==>
            chains[b][i] in nodes && Bucket(chains[b][i].keyHash, numbuckets) == b)
    }

    /** Each bucket heads a doubly linked list of its chain. */
    ghost predicate ChainsLinked()
      reads `chains, `numbuckets, `buckets, `nodes, nodes`hashPrev, nodes`hashNext
    {
      && ChainsPlaced() && |buckets| == numbuckets
      && (forall b :: 0 <= b < |chains| ==> ChainLinked(chains[b], buckets[b]))
    }

    /** No element is in two chains. */
    lemma ChainsApart(b: nat)
      requires ChainsPlaced() && b < |chains|
      ensures forall e, n {:trigger n in chains[e]} ::
                0 <= e < |chains| && e != b && n in chains[e] ==> n in nodes && n !in chains[b]
    {
    }

    /** Unlink an element from the chain of its bucket. */
    method HashUnlink(el: Node<K, V>, ghost i: nat)
      requires ChainsLinked() && el in nodes
      requires var c := chains[Bucket(el.keyHash, numbuckets)]; i < |c| && c[i] == el
      modifies this`chains, this`buckets, nodes`hashNext, nodes`hashPrev
      ensures ChainsLinked()
      ensures var b := Bucket(el.keyHash, numbuckets); chains == old(chains)[b := Without(old(chains)[b], i)]
    {
      hide ChainLinked;
      var b := Bucket(el.keyHash, numbuckets);
      ghost var c := chains[b];
      ChainsApart(b);
      ChainPlace(c, buckets[b], i);
      if el.hashPrev != null {
        ChainUnlink(c, el, i);
      } else {
        buckets := buckets[b := el.hashNext];
        ChainUnlink(c, el, i);
      }
      chains := chains[b := Without(c, i)];
    }

    /** Remove from the LRU list. */
    method LruUnlink(el: Node<K, V>, ghost i: nat)
      requires LruLinked() && i < |lru| && lru[i] == el && numelements == |lru|
      modifies this`lru, this`lruHead, this`lruTail, this`numelements, nodes`lruNext, nodes`lruPrev
      ensures LruLinked()
      ensures lru == Without(old(lru), i) && numelements == old(numelements) - 1
      ensures el.lruNext == old(el.lruNext) && el.lruPrev == old(el.lruPrev)
    {
      var head, tail := ListUnlink(lru, lruHead, lruTail, el, i);
      lruHead, lruTail := head, tail;
      lru, numelements := Without(lru, i), numelements - 1;
    }

    method HashPush(el: Node<K, V>)
      requires ChainsLinked() && el in nodes && forall b :: 0 <= b < |chains| ==> el !in chains[b]
      modifies this`chains, this`buckets, el`hashNext, el`hashPrev, nodes`hashPrev
      ensures ChainsLinked()
      ensures var b := Bucket(el.keyHash, numbuckets); chains == old(chains)[b := [el] + old(chains)[b]]
    {
      hide Distinct;
      var b := Bucket(el.keyHash, numbuckets);
      ChainPush(chains[b], buckets[b], el);
      buckets := buckets[b := el];
      chains := chains[b := [el] + chains[b]];
    }

    method LruPush(el: Node<K, V>)
      requires LruLinked() && el in nodes && el !in lru
      modifies this`lru, this`lruHead, this`lruTail, this`numelements, el`lruNext, el`lruPrev, nodes`lruPrev
      ensures LruLinked()
      ensures lru == [el] + old(lru) && numelements == old(numelements) + 1
    {
      ListPush(lru, lruHead, lruTail, el);
      if lruHead == null {
        lruTail := el;
      }
      lruHead := el;
      lru, numelements := [el] + lru, numelements + 1;
    }

    /** The two lists hold the same elements, each once, in agreeing order, and their number is kept. */
    ghost predicate Stored()
      reads `numelements, `numbuckets, `lru, `chains, `lruHead, `lruTail, `buckets, `nodes
      reads nodes`hashPrev, nodes`hashNext, nodes`lruPrev, nodes`lruNext
    {
      && LruLinked() && ChainsLinked() && Agreement(lru, chains, keyhashf)
      && (forall n :: n in nodes ==> n.keyHash == keyhashf(n.key))
      && numelements == |lru|
    }

    ghost predicate Normal()
      reads this, nodes
    {
      Stored() && LocatedIn(cursors, lru)
    }

    /** Each element sits in the chain of its bucket. */
    lemma InItsChain(n: Node<K, V>) returns (q: nat)
      requires Stored() && n in lru
      ensures var c := chains[Bucket(n.keyHash, numbuckets)]; q < |c| && c[q] == n
    {
      ByKeyHas(lru, n.key, n);
      ByKeyHas(chains[Bucket(n.keyHash, numbuckets)], n.key, n);
      q :| 0 <= q < |chains[Bucket(n.keyHash, numbuckets)]| && chains[Bucket(n.keyHash, numbuckets)][q] == n;
    }

    /** Iterators that stand on el, which is s[p], step to its neighbour. */
    method MoveIterators(el: Node<K, V>, ghost s: seq<Node<K, V>>, ghost p: nat)
      requires LocatedIn(cursors, s) && Distinct(s) && p < |s| && s[p] == el
      requires el.lruPrev == At(s, p - 1) && el.lruNext == At(s, p + 1)
      modifies this`cursors
      ensures LocatedIn(cursors, Drop(s, el)) && AllKept(old(cursors), s, cursors, Drop(s, el))
    {
      hide AheadOf, Only, Drop, Distinct;
      var i := 0;
      while i < |cursors|
        invariant 0 <= i <= |cursors| == |old(cursors)|
        invariant forall k :: 0 <= k < i ==>
          && (cursors[k].location == null || cursors[k].location in Drop(s, el))
          && cursors[k].lruFirst == old(cursors)[k].lruFirst
          && AheadOf(Drop(s, el), cursors[k]) == Only(AheadOf(s, old(cursors)[k]), Drop(s, el))
        invariant forall k :: i <= k < |cursors| ==> cursors[k] == old(cursors)[k]
      {
        var c := cursors[i];
        if c.location == el {
          cursors := cursors[i := c.(location := if c.lruFirst then el.lruPrev else el.lruNext)];
        }
        CursorMoved(s, p, c, cursors[i]);
        i := i + 1;
      }
    }

    /** Take el out of both lists, leaving its own links alone. */
    method Unlink(el: Node<K, V>, ghost p: nat, ghost q: nat)
      requires LruLinked() && ChainsLinked() && el in nodes && numelements == |lru|
      requires p < |lru| && lru[p] == el
      requires var c := chains[Bucket(el.keyHash, numbuckets)]; q < |c| && c[q] == el
      modifies this`chains, this`lru, this`lruHead, this`lruTail, this`numelements, this`buckets
      modifies nodes`hashPrev, nodes`hashNext, nodes`lruPrev, nodes`lruNext
      ensures LruLinked() && ChainsLinked()
      ensures lru == Without(old(lru), p) && numelements == old(numelements) - 1
      ensures var b := Bucket(el.keyHash, numbuckets); chains == old(chains)[b := Without(old(chains)[b], q)]
      ensures el.lruNext == old(el.lruNext) && el.lruPrev == old(el.lruPrev)
    {
      HashUnlink(el, q);
      LruUnlink(el, p);
    }

    lemma Neighbours(el: Node<K, V>, p: nat)
      requires LruLinked() && p < |lru| && lru[p] == el
      ensures el in nodes && el.lruPrev == At(lru, p - 1) && el.lruNext == At(lru, p + 1)
    {
    }

    /** What the chains will be without el, at q in its own, and that they will agree with the list without it. */
    lemma AgreeWithout(el: Node<K, V>, p: nat) returns (q: nat)
      requires Stored() && p < |lru| && lru[p] == el
      ensures var c := chains[Bucket(el.keyHash, numbuckets)]; q < |c| && c[q] == el
      ensures var b := Bucket(el.keyHash, numbuckets);
              Agreement(Without(lru, p), chains[b := Without(chains[b], q)], keyhashf)
      ensures Without(lru, p) == Drop(lru, el) && |Without(lru, p)| == |lru| - 1
    {
      q := InItsChain(el);
      AgreementWithout(lru, chains, keyhashf, el, p, q);
    }

    lemma Listed()
      requires LruLinked()
      ensures Distinct(lru) && forall n :: n in lru ==> n in nodes
    {
    }

    method Detach(el: Node<K, V>, ghost p: nat)
      requires Stored() && p < |lru| && lru[p] == el
      modifies this`numelements, this`chains, this`lru, this`lruHead, this`lruTail, this`buckets
      modifies nodes`hashPrev, nodes`hashNext, nodes`lruPrev, nodes`lruNext
      ensures Stored() && lru == Drop(old(lru), el)
      ensures el.lruPrev == At(old(lru), p - 1) && el.lruNext == At(old(lru), p + 1)
    {
      hide LruLinked, ChainsLinked, Agreement, Bucket;
      ghost var q := AgreeWithout(el, p);
      Neighbours(el, p);
      Unlink(el, p, q);
    }

    method RemoveElement(el: Node<K, V>)
      requires Normal() && el in lru
      modifies this`numelements, this`chains, this`lru, this`lruHead, this`lruTail, this`buckets, this`cursors
      modifies nodes`hashPrev, nodes`hashNext, nodes`lruPrev, nodes`lruNext
      ensures Normal()
      ensures lru == Drop(old(lru), el) && AllKept(old(cursors), old(lru), cursors, lru)
    {
      hide ChainsLinked, Agreement, AllKept, AheadOf;
      ghost var s := lru;
      ghost var p :| 0 <= p < |s| && s[p] == el;
      Detach(el, p);
      MoveIterators(el, s, p);
    }

    /** Count el among the elements that may be linked. */
    ghost method Adopt(el: Node<K, V>)
      requires Stored() && el !in nodes && el.keyHash == keyhashf(el.key)
      modifies this`nodes
      ensures Stored() && nodes == old(nodes) + {el}
      ensures el !in lru && forall b :: 0 <= b < |chains| ==> el !in chains[b]
    {
      hide Agreement, ListLinked, ChainLinked;
      nodes := nodes + {el};
    }

    /** Put el in front of its bucket and of the LRU list. */
    method LinkFirst(el: Node<K, V>)
      requires LruLinked() && ChainsLinked() && el in nodes
      requires el !in lru && forall b :: 0 <= b < |chains| ==> el !in chains[b]
      modifies this`numelements, this`chains, this`lru, this`lruHead, this`lruTail, this`buckets
      modifies el`hashPrev, el`hashNext, el`lruPrev, el`lruNext, nodes`hashPrev, nodes`lruPrev
      ensures LruLinked() && ChainsLinked()
      ensures lru == [el] + old(lru) && numelements == old(numelements) + 1
      ensures var b := Bucket(el.keyHash, numbuckets); chains == old(chains)[b := [el] + old(chains)[b]]
    {
      HashPush(el);
      LruPush(el);
    }

    /** Add a new element. */
    method Insert(el: Node<K, V>)
      requires Stored() && el !in nodes && el.keyHash == keyhashf(el.key)
      modifies this`numelements, this`chains, this`lru, this`lruHead, this`lruTail, this`buckets, this`nodes
      modifies el, nodes`hashPrev, nodes`lruPrev
      ensures Stored()
      ensures lru == [el] + old(lru) && nodes == old(nodes) + {el}
    {
      hide LruLinked, Agreement, ChainLinked;
      Adopt(el);
      AgreementPush(lru, chains, keyhashf, el);
      LinkFirst(el);
    }

    /** Walk the key's collision list. */
    method FindInBucket(key: K) returns (walk: Node?<K, V>)
      requires Stored()
      ensures walk == null ==> ByKey(lru, key) == []
      ensures walk != null ==> walk in lru && walk.key == key && ByKey(lru, key) != [] && ByKey(lru, key)[0] == walk
    {
      var bucket := Bucket(keyhashf(key), numbuckets);
      walk := buckets[bucket];
      ghost var c := chains[bucket];
      assert ChainLinked(c, buckets[bucket]);
      assert ByKey(lru, key) == ByKey(c, key);
      ghost var i := 0;
      while walk != null
        invariant 0 <= i <= |c| && walk == At(c, i)
        invariant forall j :: 0 <= j < i ==> c[j].key != key
        decreases |c| - i
      {
        if walk.key == key {
          FirstByKey(c, key, i);
          ByKeyHas(lru, key, walk);
          return;
        }
        walk := walk.hashNext;
        i := i + 1;
      }
      NoneByKey(c, key);
    }

    method RelinkHash(el: Node<K, V>, ghost q: nat)
      requires ChainsLinked() && el in nodes
      requires var c := chains[Bucket(el.keyHash, numbuckets)]; q < |c| && c[q] == el
      requires forall b :: 0 <= b < |chains| ==>
                 el !in if b == Bucket(el.keyHash, numbuckets) then Without(chains[b], q) else chains[b]
      modifies this`chains, this`buckets, nodes`hashPrev, nodes`hashNext
      ensures ChainsLinked()
      ensures var b := Bucket(el.keyHash, numbuckets); chains == old(chains)[b := [el] + Without(old(chains)[b], q)]
    {
      HashUnlink(el, q);
      HashPush(el);
    }

    lemma OnlyInItsChain(el: Node<K, V>, q: nat)
      requires ChainsLinked() && el in nodes
      requires var c := chains[Bucket(el.keyHash, numbuckets)]; q < |c| && c[q] == el
      ensures forall b :: 0 <= b < |chains| ==>
                el !in if b == Bucket(el.keyHash, numbuckets) then Without(chains[b], q) else chains[b]
    {
      var e := Bucket(el.keyHash, numbuckets);
      assert ChainLinked(chains[e], buckets[e]);
      WithoutIsDrop(chains[e], q);
      DropKeeps(chains[e], el);
    }

    method MoveToBucketTop(el: Node<K, V>)
      requires Stored() && el in lru && ByKey(lru, el.key) != [] && ByKey(lru, el.key)[0] == el
      modifies this`chains, this`buckets, nodes`hashPrev, nodes`hashNext
      ensures Stored()
    {
      hide LruLinked, Agreement, ByKey;
      if el.hashPrev == null {
        return;
      }
      Listed();
      ghost var q := InItsChain(el);
      AgreementMoveFront(lru, chains, keyhashf, el, q);
      OnlyInItsChain(el, q);
      RelinkHash(el, q);
    }

    method MoveToLruTop(el: Node<K, V>, ghost p: nat)
      requires LruLinked() && numelements == |lru| && p < |lru| && lru[p] == el && el !in Without(lru, p)
      modifies this`lru, this`lruHead, this`lruTail, this`numelements, nodes`lruPrev, nodes`lruNext
      ensures LruLinked() && lru == [el] + Without(old(lru), p) && numelements == old(numelements)
    {
      LruUnlink(el, p);
      LruPush(el);
    }

    lemma LruPosition(el: Node<K, V>, p: nat)
      requires LruLinked() && p < |lru| && lru[p] == el
      ensures el !in Without(lru, p)
      ensures el.lruPrev == null ==> lru == [el] + Without(lru, p)
    {
      Neighbours(el, p);
      FrontStays(lru);
      DropKeeps(lru, el);
      WithoutIsDrop(lru, p);
    }

    lemma AgreementAtTop(el: Node<K, V>, p: nat)
      requires Stored() && p < |lru| && lru[p] == el && ByKey(lru, el.key) != [] && ByKey(lru, el.key)[0] == el
      ensures Agreement([el] + Without(lru, p), chains, keyhashf)
    {
      WithoutIsDrop(lru, p);
      var q := InItsChain(el);
      AgreementMoveFront(lru, chains, keyhashf, el, q);
    }

    method Refresh(el: Node<K, V>, ghost p: nat)
      requires Stored() && p < |lru| && lru[p] == el && ByKey(lru, el.key) != [] && ByKey(lru, el.key)[0] == el
      modifies this`lru, this`lruHead, this`lruTail, this`numelements, nodes`lruPrev, nodes`lruNext
      ensures Stored()
      ensures lruLimit != 0 ==> lru == [el] + Without(old(lru), p)
      ensures lruLimit == 0 ==> lru == old(lru)
    {
      hide ChainsLinked, Agreement, ByKey;
      LruPosition(el, p);
      if lruLimit == 0 || el.lruPrev == null {
        return;
      }
      Raise(el, p);
    }

    method Raise(el: Node<K, V>, ghost p: nat)
      requires Stored() && 0 < p < |lru| && lru[p] == el && ByKey(lru, el.key) != [] && ByKey(lru, el.key)[0] == el
      modifies this`lru, this`lruHead, this`lruTail, this`numelements, nodes`lruPrev, nodes`lruNext
      ensures Stored() && lru == [el] + Without(old(lru), p)
    {
      hide LruLinked, ChainsLinked, Agreement, ByKey;
      LruPosition(el, p);
      AgreementAtTop(el, p);
      MoveToLruTop(el, p);
    }

    /** Move a looked-up element to the top of its bucket and of the LRU list, unless iterators are running. */
    method MoveToTop(el: Node<K, V>, ghost p: nat)
      requires Stored() && p < |lru| && lru[p] == el && ByKey(lru, el.key) != [] && ByKey(lru, el.key)[0] == el
      modifies this`chains, this`buckets, this`lru, this`lruHead, this`lruTail, this`numelements
      modifies nodes`hashPrev, nodes`hashNext, nodes`lruPrev, nodes`lruNext
      ensures Stored()
      ensures cursors == [] && lruLimit != 0 ==> lru == [el] + Without(old(lru), p)
      ensures !(cursors == [] && lruLimit != 0) ==> lru == old(lru)
    {
      if cursors != [] {
        return;
      }
      BringUp(el, p);
    }

    method BringUp(el: Node<K, V>, ghost p: nat)
      requires Stored() && p < |lru| && lru[p] == el && ByKey(lru, el.key) != [] && ByKey(lru, el.key)[0] == el
      modifies this`chains, this`buckets, this`lru, this`lruHead, this`lruTail, this`numelements
      modifies nodes`hashPrev, nodes`hashNext, nodes`lruPrev, nodes`lruNext
      ensures Stored()
      ensures lruLimit != 0 ==> lru == [el] + Without(old(lru), p)
      ensures lruLimit == 0 ==> lru == old(lru)
    {
      ghost var s := lru;
      MoveToBucketTop(el);
      assert lru == s;
      Refresh(el, p);
    }

    /** The list has been cut down from s, and the iterators from cs went with it. */
    ghost predicate CutDown(cs: seq<Cursor<K, V>>, s: seq<Node<K, V>>)
      reads `lru, `cursors
    {
      lru <= s && AllKept(cs, s, cursors, lru)
    }

    method EvictLast(ghost cs: seq<Cursor<K, V>>, ghost s: seq<Node<K, V>>)
      requires Normal() && lru != [] && CutDown(cs, s)
      modifies this`numelements, this`chains, this`lru, this`lruHead, this`lruTail, this`buckets, this`cursors
      modifies nodes`hashPrev, nodes`hashNext, nodes`lruPrev, nodes`lruNext
      ensures Normal() && |lru| == |old(lru)| - 1 && CutDown(cs, s)
    {
      ghost var cs', s' := cursors, lru;
      RemoveLast();
      AllKeptTrans(cs, s, cs', s', cursors, lru);
    }

    method RemoveLast()
      requires Normal() && lru != []
      modifies this`numelements, this`chains, this`lru, this`lruHead, this`lruTail, this`buckets, this`cursors
      modifies nodes`hashPrev, nodes`hashNext, nodes`lruPrev, nodes`lruNext
      ensures Normal() && lru == old(lru)[..|old(lru)| - 1] && AllKept(old(cursors), old(lru), cursors, lru)
    {
      assert lruTail == lru[|lru| - 1];
      WithoutIsDrop(lru, |lru| - 1);
      RemoveElement(lruTail);
    }

    /** Make room for one element within the limit, if there is one, by deleting least recent ones. */
    method Evict()
      requires Normal()
      modifies this`numelements, this`chains, this`lru, this`lruHead, this`lruTail, this`buckets, this`cursors
      modifies nodes`hashPrev, nodes`hashNext, nodes`lruPrev, nodes`lruNext
      ensures Normal() && lru == MakeRoom(old(lru), lruLimit) && CutDown(old(cursors), old(lru))
    {
      hide ChainsLinked, Agreement, AheadOf;
      AllKeptRefl(cursors, lru);
      if lruLimit == 0 {
        return;
      }
      while numelements >= lruLimit
        invariant Normal() && CutDown(old(cursors), old(lru))
        invariant |MakeRoom(old(lru), lruLimit)| <= |lru| <= |old(lru)|
        decreases |lru|
      {
        EvictLast(old(cursors), old(lru));
      }
    }

    /** The chains of a table of n buckets that hold the elements of s. */
    ghost predicate TableOf(s: seq<Node<K, V>>, n: nat, heads: seq<Node?<K, V>>, cs: seq<seq<Node<K, V>>>)
      reads nodes`hashPrev, nodes`hashNext, `nodes
    {
      && 0 < n == |heads| == |cs|
      && (forall b :: 0 <= b < n ==> cs[b] == InBucket(s, b, n))
      && (forall b, i :: 0 <= b < n && 0 <= i < |cs[b]| ==> cs[b][i] in nodes && Bucket(cs[b][i].keyHash, n) == b)
      && (forall b :: 0 <= b < n ==> ChainLinked(cs[b], heads[b]))
    }

    method PutFirst(el: Node<K, V>, ghost s: seq<Node<K, V>>, n: nat,
                    heads: seq<Node?<K, V>>, ghost cs: seq<seq<Node<K, V>>>)
      returns (heads': seq<Node?<K, V>>, ghost cs': seq<seq<Node<K, V>>>)
      requires el in nodes && el !in s
      requires TableOf(s, n, heads, cs)
      modifies nodes`hashPrev, nodes`hashNext
      ensures TableOf([el] + s, n, heads', cs')
    {
      var bucket := Bucket(el.keyHash, n);
      InBucketHas(s, bucket, n, el);
      ChainPush(cs[bucket], heads[bucket], el);
      heads', cs' := heads[bucket := el], cs[bucket := [el] + cs[bucket]];
      forall b | 0 <= b < n ensures cs'[b] == InBucket([el] + s, b, n) {
        assert ([el] + s)[1..] == s;
      }
      forall b | 0 <= b < n && b != bucket ensures ChainLinked(cs'[b], heads'[b]) {
      }
    }

    /** The new table holds the elements from lru[i] on. */
    ghost predicate RehashedFrom(i: nat, n: nat, heads: seq<Node?<K, V>>, cs: seq<seq<Node<K, V>>>)
      reads `lru, `lruHead, `lruTail, `nodes, nodes`lruPrev, nodes`lruNext, nodes`hashPrev, nodes`hashNext
    {
      LruLinked() && i <= |lru| && TableOf(lru[i..], n, heads, cs)
    }

    method RehashOne(el: Node<K, V>, ghost i: nat, n: nat, heads: seq<Node?<K, V>>, ghost cs: seq<seq<Node<K, V>>>)
      returns (next: Node?<K, V>, heads': seq<Node?<K, V>>, ghost cs': seq<seq<Node<K, V>>>)
      requires i > 0 && RehashedFrom(i, n, heads, cs) && el == lru[i - 1]
      modifies nodes`hashPrev, nodes`hashNext
      ensures RehashedFrom(i - 1, n, heads', cs') && next == At(lru, i - 2)
    {
      assert lru[i - 1..] == [el] + lru[i..];
      Neighbours(el, i - 1);
      heads', cs' := PutFirst(el, lru[i..], n, heads, cs);
      next := el.lruPrev;
    }

    ghost method InstallTable(n: nat, heads: seq<Node?<K, V>>, cs: seq<seq<Node<K, V>>>)
      requires RehashedFrom(0, n, heads, cs) && numelements == |lru|
      requires buckets == heads && numbuckets == n
      requires forall m :: m in nodes ==> m.keyHash == keyhashf(m.key)
      modifies this`chains
      ensures Stored()
    {
      assert lru[0..] == lru;
      AgreementRehashed(lru, cs, keyhashf);
      chains := cs;
    }

    method RehashAll(n: nat) returns (newbuckets: seq<Node?<K, V>>, ghost cs: seq<seq<Node<K, V>>>)
      requires LruLinked() && n > 0
      modifies nodes`hashPrev, nodes`hashNext
      ensures RehashedFrom(0, n, newbuckets, cs)
    {
      newbuckets := seq(n, _ => null);
      cs := seq(n, _ => []);
      ghost var i := |lru|;
      var el := lruTail;
      assert lru[i..] == [];
      while el != null
        invariant 0 <= i && RehashedFrom(i, n, newbuckets, cs) && el == At(lru, i - 1)
        decreases i
      {
        el, newbuckets, cs := RehashOne(el, i, n, newbuckets, cs);
        i := i - 1;
      }
    }

    /** Rehash the elements, from the least recent on, into a table of n buckets; the LRU list is untouched. */
    method Rehash(n: nat)
      requires Stored() && n > 0
      modifies this`numbuckets, this`buckets, this`chains, nodes`hashPrev, nodes`hashNext
      ensures Stored() && numbuckets == n
    {
      ghost var cs;
      var newbuckets;
      newbuckets, cs := RehashAll(n);
      buckets, numbuckets := newbuckets, n;
      InstallTable(n, newbuckets, cs);
    }

    // ----- NORMAL mode operations -----

    method NormalGet(key: K) returns (r: Option<V>)
      requires Normal()
      modifies this`chains, this`buckets, this`lru, this`lruHead, this`lruTail, this`numelements
      modifies nodes`hashPrev, nodes`hashNext, nodes`lruPrev, nodes`lruNext
      ensures Normal() && r == Lookup(Pairs(old(lru)), key)
      ensures r.Some? && cursors == [] && lruLimit != 0 ==>
                lru == MoveFront(old(lru), Find(Pairs(old(lru)), key))
      ensures !(r.Some? && cursors == [] && lruLimit != 0) ==> lru == old(lru)
    {
      hide LruLinked, ChainsLinked, Agreement, ByKey;
      var walk := FindInBucket(key);
      FindByKey(lru, key);
      if walk == null {
        return None;
      }
      ghost var p := Find(Pairs(lru), key);
      ghost var s := lru;
      MoveToTop(walk, p);
      assert lru != s ==> cursors == [];
      return Some(walk.value);
    }

    method NormalDel(key: K) returns (ok: bool)
      requires Normal()
      modifies this`numelements, this`chains, this`lru, this`lruHead, this`lruTail, this`buckets, this`cursors
      modifies nodes`hashPrev, nodes`hashNext, nodes`lruPrev, nodes`lruNext
      ensures Normal() && AllKept(old(cursors), old(lru), cursors, lru)
      ensures ok <==> Find(Pairs(old(lru)), key) < |old(lru)|
      ensures ok ==> lru == Without(old(lru), Find(Pairs(old(lru)), key))
      ensures !ok ==> lru == old(lru)
    {
      hide LruLinked, ChainsLinked, Agreement, AllKept, LocatedIn, ByKey;
      Listed();
      AllKeptRefl(cursors, lru);
      FindByKey(lru, key);
      if numelements == 0 {
        return false;
      }
      var walk := FindInBucket(key);
      if walk == null {
        return false;
      }
      WithoutIsDrop(lru, Find(Pairs(lru), key));
      RemoveElement(walk);
      return true;
    }

    /** What the iterators have ahead after el was added to a list cut down to s'. */
    ghost predicate AheadAfterAdd(cs: seq<Cursor<K, V>>, s: seq<Node<K, V>>, s': seq<Node<K, V>>, el: Node<K, V>)
      reads `lru, `cursors
    {
      |cursors| == |cs| && forall i {:trigger cursors[i]} {:trigger cs[i]} :: 0 <= i < |cs| ==>
        && cursors[i].lruFirst == cs[i].lruFirst
        && var kept := Only(AheadOf(s, cs[i]), s');
           AheadOf(lru, cursors[i]) == if cs[i].lruFirst && kept != [] then kept + [el] else kept
    }

    method NormalAdd(el: Node<K, V>)
      requires Normal() && el !in nodes && el.keyHash == keyhashf(el.key)
      modifies this`numelements, this`chains, this`lru, this`lruHead, this`lruTail, this`buckets
      modifies this`cursors, this`nodes
      modifies el, nodes`hashPrev, nodes`hashNext, nodes`lruPrev, nodes`lruNext
      ensures Normal() && nodes == old(nodes) + {el}
      ensures lru == [el] + MakeRoom(old(lru), lruLimit)
      ensures AheadAfterAdd(old(cursors), old(lru), MakeRoom(old(lru), lruLimit), el)
    {
      ghost var cs, s := cursors, lru;
      Evict();
      AddAtTop(el, cs, s);
    }

    method AddAtTop(el: Node<K, V>, ghost cs: seq<Cursor<K, V>>, ghost s: seq<Node<K, V>>)
      requires Normal() && el !in nodes && el.keyHash == keyhashf(el.key) && CutDown(cs, s)
      modifies this`numelements, this`chains, this`lru, this`lruHead, this`lruTail, this`buckets, this`nodes
      modifies el, nodes`hashPrev, nodes`lruPrev
      ensures Normal() && nodes == old(nodes) + {el}
      ensures lru == [el] + old(lru) && AheadAfterAdd(cs, s, old(lru), el)
    {
      ghost var s' := lru;
      Insert(el);
      forall i | 0 <= i < |cs|
        ensures cursors[i].lruFirst == cs[i].lruFirst
        ensures var kept := Only(AheadOf(s, cs[i]), s');
                AheadOf(lru, cursors[i]) == if cs[i].lruFirst && kept != [] then kept + [el] else kept
      {
        CursorStays(s', el, cursors[i]);
      }
    }

    /** Grow the table when it is not at its largest; nothing a caller can see changes. */
    method ExpandNormal()
      requires Normal() && maxBuckets > 0
      modifies this`numbuckets, this`buckets, this`chains, nodes`hashPrev, nodes`hashNext
      ensures Normal() && numbuckets >= old(numbuckets)
    {
      var newbuckets := numbuckets * 4;
      if newbuckets > maxBuckets {
        if numbuckets < maxBuckets {
          newbuckets := maxBuckets;
        } else {
          return;
        }
      }
      Rehash(newbuckets);
    }

    // ----- TINY mode -----

    ghost predicate Tiny()
      reads this
    {
      numelements == |slots| <= IH_VALUES && lru == [] && nodes == {}
    }

    /** The hash is in one of its two modes. */
    ghost predicate Valid()
      reads this, nodes
    {
      maxBuckets > 0 && if numbuckets == 0 then Tiny() else slots == [] && Normal()
    }

    /** The entries, in the order in which lookups go through them. */
    ghost function Entries(): seq<(K, V)>
      reads this
    {
      if numbuckets == 0 then slots else Pairs(lru)
    }

    /** The number of entries is kept, slots hold no more than four, and no element is listed twice. */
    lemma Counted()
      requires Valid()
      ensures numelements == |Entries()| && (numbuckets == 0 ==> numelements <= IH_VALUES) && Distinct(lru)
    {
    }

    constructor (hashf: K -> nat, maximum: nat)
      requires maximum > 0
      ensures Valid() && Entries() == [] && numbuckets == 0 && lruLimit == 0 && cursors == []
    {
      keyhashf, maxBuckets := hashf, maximum;
      slots, numelements, numbuckets, lruLimit, cursors := [], 0, 0, 0, [];
      buckets, lruHead, lruTail := [], null, null;
      lru, chains, nodes := [], [], {};
    }

    method TinyFind(key: K) returns (i: nat)
      requires Tiny()
      ensures i == Find(slots, key)
    {
      i := 0;
      while i < numelements && slots[i].0 != key
        invariant 0 <= i <= numelements && forall j :: 0 <= j < i ==> slots[j].0 != key
      {
        i := i + 1;
      }
      FindIs(slots, key, i);
    }

    /** Shift the iterators past the deleted slot. */
    method ShiftItems(i: int)
      modifies this`cursors
      ensures |cursors| == |old(cursors)|
      ensures forall k :: 0 <= k < |cursors| ==> cursors[k] == Shifted(old(cursors)[k], i)
    {
      var k := 0;
      while k < |cursors|
        invariant 0 <= k <= |cursors| == |old(cursors)|
        invariant forall j :: 0 <= j < k ==> cursors[j] == Shifted(old(cursors)[j], i)
        invariant forall j :: k <= j < |cursors| ==> cursors[j] == old(cursors)[j]
      {
        var c := cursors[k];
        if c.lruFirst {
          if c.itemNumber > i {
            cursors := cursors[k := c.(itemNumber := c.itemNumber - 1)];
          }
        } else if c.itemNumber >= i {
          cursors := cursors[k := c.(itemNumber := c.itemNumber - 1)];
        }
        k := k + 1;
      }
    }

    method TinyDel(key: K) returns (ok: bool)
      requires Tiny()
      modifies this`slots, this`numelements, this`cursors
      ensures Tiny() && |cursors| == |old(cursors)|
      ensures var es, i := old(slots), Find(old(slots), key);
              && (ok <==> i < |es|)
              && slots == (if !ok then es else if old(cursors) == [] then SwapRemove(es, i) else Without(es, i))
              && forall k :: 0 <= k < |cursors| ==>
                   cursors[k] == if ok then Shifted(old(cursors)[k], i) else old(cursors)[k]
    {
      var i := TinyFind(key);
      if i == numelements {
        return false;
      }
      numelements := numelements - 1;
      if cursors != [] {
        slots := slots[..i] + slots[i + 1..];
        ShiftItems(i);
      } else {
        slots := SwapRemove(slots, i);
      }
      return true;
    }

    method AllocateElements() returns (els: seq<Node<K, V>>)
      requires Tiny()
      ensures |els| == |slots| && Distinct(els) && Pairs(els) == slots
      ensures forall i :: 0 <= i < |els| ==> fresh(els[i]) && els[i].keyHash == keyhashf(els[i].key)
    {
      els := [];
      for i := 0 to numelements
        invariant |els| == i && Distinct(els)
        invariant forall j :: 0 <= j < i ==> fresh(els[j]) && els[j].keyHash == keyhashf(els[j].key)
        invariant forall j :: 0 <= j < i ==> (els[j].key, els[j].value) == slots[j]
      {
        var el := new Node(keyhashf(slots[i].0), slots[i].0, slots[i].1);
        els := els + [el];
      }
    }

    /** Start NORMAL mode with an empty table. */
    method BecomeNormal(n: nat)
      requires n > 0
      modifies this
      ensures Stored() && numbuckets == n && lru == [] && nodes == {} && slots == []
      ensures cursors == old(cursors) && lruLimit == 0
    {
      NoneAgree<K, V>(n, keyhashf);
      hide Agreement;
      slots, numelements, numbuckets, lruLimit := [], 0, n, 0;
      lruHead, lruTail, buckets := null, null, seq(n, _ => null);
      lru, nodes, chains := [], {}, NoChains(n);
    }

    /** Add the elements, the last first, so that the first ends up on top. */
    method AddElements(els: seq<Node<K, V>>)
      requires Stored() && lru == [] && nodes == {} && Distinct(els)
      requires forall i :: 0 <= i < |els| ==> els[i].keyHash == keyhashf(els[i].key)
      modifies this`numelements, this`chains, this`lru, this`lruHead, this`lruTail, this`buckets, this`nodes, els
      ensures Stored() && lru == els && forall n :: n in nodes ==> n in els
    {
      var i := |els|;
      while i > 0
        invariant 0 <= i <= |els| && Stored() && HoldsExactly(els[i..])
      {
        i := i - 1;
        AddElement(els, i);
      }
    }

    /** The list is s, and no other elements were ever in the hash. */
    ghost predicate HoldsExactly(s: seq<Node<K, V>>)
      reads `lru, `nodes
    {
      lru == s && nodes == Elements(s)
    }

    ghost function Elements(s: seq<Node<K, V>>): set<Node<K, V>> {
      set n | n in s
    }

    lemma TailAndHead(els: seq<Node<K, V>>, i: nat)
      requires i < |els| && Distinct(els)
      ensures els[i..] == [els[i]] + els[i + 1..] && els[i] !in els[i + 1..]
      ensures Elements(els[i..]) == Elements(els[i + 1..]) + {els[i]}
    {
      assert els[i..] == [els[i]] + els[i + 1..];
    }

    method AddElement(els: seq<Node<K, V>>, i: nat)
      requires Stored() && i < |els| && Distinct(els) && HoldsExactly(els[i + 1..])
      requires els[i].keyHash == keyhashf(els[i].key)
      modifies this`numelements, this`chains, this`lru, this`lruHead, this`lruTail, this`buckets, this`nodes
      modifies els
      ensures Stored() && HoldsExactly(els[i..])
    {
      TailAndHead(els, i);
      Insert(els[i]);
    }

    /** Point the iterators to the elements made from their slots. */
    method ConvertItems(els: seq<Node<K, V>>)
      modifies this`cursors
      ensures LocatedIn(cursors, els) && |cursors| == |old(cursors)|
      ensures forall k :: 0 <= k < |cursors| ==>
                cursors[k] == old(cursors)[k].(location := At(els, old(cursors)[k].itemNumber))
    {
      var k := 0;
      while k < |cursors|
        invariant 0 <= k <= |cursors| == |old(cursors)|
        invariant forall j :: 0 <= j < k ==>
                cursors[j] == old(cursors)[j].(location := At(els, old(cursors)[j].itemNumber))
        invariant forall j :: k <= j < |cursors| ==> cursors[j] == old(cursors)[j]
      {
        var c := cursors[k];
        if c.itemNumber < 0 || c.itemNumber >= |els| {
          cursors := cursors[k := c.(location := null)];
        } else {
          cursors := cursors[k := c.(location := els[c.itemNumber])];
        }
        k := k + 1;
      }
    }

    method MoveIntoBuckets(n: nat) returns (els: seq<Node<K, V>>)
      requires Tiny() && n > 0
      modifies this
      ensures Stored() && numbuckets == n && slots == [] && fresh(nodes)
      ensures els == lru && Pairs(lru) == old(slots) && cursors == old(cursors)
    {
      els := AllocateElements();
      BecomeNormal(n);
      AddElements(els);
    }

    method NewTableSize() returns (n: nat)
      requires maxBuckets > 0
      ensures 0 < n <= maxBuckets
    {
      n := IH_VALUES * 2;
      if n > maxBuckets {
        n := maxBuckets;
      }
    }

    /** Move from the slots into buckets; the entries stay in lookup order. */
    method ExpandTiny()
      requires Valid() && numbuckets == 0
      modifies this
      ensures Valid() && numbuckets > 0 && fresh(nodes)
      ensures Entries() == old(Entries()) && lruLimit == old(lruLimit) && |cursors| == |old(cursors)|
      ensures forall k :: 0 <= k < |cursors| ==>
                cursors[k] == old(cursors)[k].(location := At(lru, old(cursors)[k].itemNumber))
    {
      hide Stored, LocatedIn;
      var n := NewTableSize();
      var savedLimit := lruLimit;
      var els := MoveIntoBuckets(n);
      ConvertItems(els);
      lruLimit := savedLimit;
    }

    // ----- The interface -----

    /** The entries after a lookup: the found one comes first in NORMAL mode with a limit and no iterators. */
    ghost function Fronted(es: seq<(K, V)>, key: K): seq<(K, V)>
      reads `numbuckets, `cursors, `lruLimit
    {
      if Find(es, key) < |es| && numbuckets > 0 && cursors == [] && lruLimit != 0
      then MoveFront(es, Find(es, key)) else es
    }

    method Get(key: K) returns (r: Option<V>)
      requires Valid()
      modifies this`chains, this`buckets, this`lru, this`lruHead, this`lruTail, this`numelements
      modifies nodes`hashPrev, nodes`hashNext, nodes`lruPrev, nodes`lruNext
      ensures Valid() && r == Lookup(old(Entries()), key)
      ensures Entries() == Fronted(old(Entries()), key)
      ensures cursors != [] ==> lru == old(lru)
    {
      if numbuckets > 0 {
        r := GetFromTable(key);
        return;
      }
      var i := TinyFind(key);
      return if i < numelements then Some(slots[i].1) else None;
    }

    method GetFromTable(key: K) returns (r: Option<V>)
      requires Valid() && numbuckets > 0
      modifies this`chains, this`buckets, this`lru, this`lruHead, this`lruTail, this`numelements
      modifies nodes`hashPrev, nodes`hashNext, nodes`lruPrev, nodes`lruNext
      ensures Valid() && r == Lookup(old(Entries()), key)
      ensures Entries() == Fronted(old(Entries()), key)
      ensures cursors != [] ==> lru == old(lru)
    {
      hide LruLinked, ChainsLinked, Agreement;
      ghost var s, i := lru, Find(Entries(), key);
      r := NormalGet(key);
      if i < |s| {
        FrontedPairs(s, i);
      }
    }

    lemma FrontedPairs(s: seq<Node<K, V>>, i: nat)
      requires i < |s|
      ensures Pairs(MoveFront(s, i)) == MoveFront(Pairs(s), i)
    {
      PairsCons(s[i], Without(s, i));
      PairsWithout(s, i);
    }

    /** The entries after a deletion; in TINY mode without iterators the last one takes the place. */
    static ghost function Deleted(es: seq<(K, V)>, key: K, swap: bool): seq<(K, V)> {
      var i := Find(es, key);
      if i == |es| then es else if swap then SwapRemove(es, i) else Without(es, i)
    }

    method Del(key: K) returns (ok: bool)
      requires Valid()
      modifies this`slots, this`numelements, this`cursors
      modifies this`chains, this`lru, this`lruHead, this`lruTail, this`buckets
      modifies nodes`hashPrev, nodes`hashNext, nodes`lruPrev, nodes`lruNext
      ensures Valid() && |cursors| == |old(cursors)|
      ensures ok <==> Find(old(Entries()), key) < |old(Entries())|
      ensures Entries() == Deleted(old(Entries()), key, numbuckets == 0 && old(cursors) == [])
      ensures numbuckets > 0 ==> AllKept(old(cursors), old(lru), cursors, lru)
      ensures numbuckets == 0 && ok ==> forall k :: 0 <= k < |cursors| ==>
                cursors[k] == Shifted(old(cursors)[k], Find(old(Entries()), key))
      ensures numbuckets > 0 ==> lru == if ok then Without(old(lru), Find(old(Entries()), key)) else old(lru)
      ensures numbuckets == 0 && !ok ==> cursors == old(cursors)
    {
      hide LruLinked, ChainsLinked, Agreement, Shifted, LocatedIn;
      if numbuckets > 0 {
        ok := NormalDel(key);
        if ok {
          PairsWithout(old(lru), Find(Pairs(old(lru)), key));
        }
      } else {
        ok := TinyDel(key);
      }
    }

    /** Make a NORMAL hash ready for one more element. */
    method Grow()
      requires Valid() && (numbuckets == 0 ==> numelements == IH_VALUES)
      modifies this, nodes`hashPrev, nodes`hashNext
      ensures Valid() && numbuckets > 0 && Entries() == old(Entries()) && lruLimit == old(lruLimit)
      ensures |cursors| == |old(cursors)| && (old(numbuckets) == 0 ==> fresh(nodes))
      ensures old(numbuckets) > 0 ==> cursors == old(cursors) && lru == old(lru) && nodes == old(nodes)
    {
      if numbuckets == 0 {
        ExpandTiny();
        return;
      }
      if numelements / numbuckets > 2 {
        ExpandNormal();
      }
    }

    method AddNormal(key: K, value: V) returns (ghost el: Node<K, V>)
      requires Normal()
      modifies this`numelements, this`chains, this`lru, this`lruHead, this`lruTail, this`buckets
      modifies this`cursors, this`nodes
      modifies nodes`hashPrev, nodes`hashNext, nodes`lruPrev, nodes`lruNext
      ensures Normal() && fresh(el) && nodes == old(nodes) + {el} && el.key == key && el.value == value
      ensures lru == [el] + MakeRoom(old(lru), lruLimit)
      ensures AheadAfterAdd(old(cursors), old(lru), MakeRoom(old(lru), lruLimit), el)
    {
      var n := new Node(keyhashf(key), key, value);
      el := n;
      NormalAdd(n);
    }

    lemma AddedPairs(el: Node<K, V>, s: seq<Node<K, V>>)
      ensures Pairs([el] + MakeRoom(s, lruLimit)) == [(el.key, el.value)] + MakeRoom(Pairs(s), lruLimit)
    {
      PairsCons(el, MakeRoom(s, lruLimit));
      PairsMakeRoom(s, lruLimit);
    }

    method AddToTable(key: K, value: V) returns (ghost el: Node<K, V>)
      requires Valid() && numbuckets > 0
      modifies this, nodes
      ensures Valid() && numbuckets > 0 && fresh(el) && nodes == old(nodes) + {el} && lruLimit == old(lruLimit)
      ensures Entries() == [(key, value)] + MakeRoom(old(Entries()), lruLimit)
      ensures lru == [el] + MakeRoom(old(lru), lruLimit)
      ensures AheadAfterAdd(old(cursors), old(lru), MakeRoom(old(lru), lruLimit), el)
    {
      ghost var s := lru;
      el := AddNormal(key, value);
      AddedPairs(el, s);
    }

    /** Whether the next entry still fits into the slots. */
    predicate HasSlot()
      reads `numbuckets, `numelements
    {
      numbuckets == 0 && numelements < IH_VALUES
    }

    method Add(key: K, value: V)
      requires Valid()
      modifies this, nodes
      ensures Valid() && fresh(nodes - old(nodes)) && lruLimit == old(lruLimit)
      ensures Entries() == Extended(old(Entries()), old(HasSlot()), (key, value))
      ensures old(HasSlot()) ==> numbuckets == 0 && cursors == old(cursors)
      ensures |cursors| == |old(cursors)| && (!old(HasSlot()) ==> numbuckets > 0)
      ensures old(numbuckets) > 0 ==>
                && lru != [] && fresh(lru[0]) && lru == [lru[0]] + MakeRoom(old(lru), lruLimit)
                && nodes == old(nodes) + {lru[0]}
      ensures old(numbuckets) > 0 ==>
                AheadAfterAdd(old(cursors), old(lru), MakeRoom(old(lru), lruLimit), lru[0])
    {
      if HasSlot() {
        AddSlot(key, value);
      } else {
        AddGrown(key, value);
      }
    }

    method AddGrown(key: K, value: V)
      requires Valid() && !HasSlot()
      modifies this, nodes
      ensures Valid() && numbuckets > 0 && fresh(nodes - old(nodes)) && lruLimit == old(lruLimit)
      ensures Entries() == [(key, value)] + MakeRoom(old(Entries()), lruLimit)
      ensures |cursors| == |old(cursors)|
      ensures old(numbuckets) > 0 ==>
                && lru != [] && fresh(lru[0]) && lru == [lru[0]] + MakeRoom(old(lru), lruLimit)
                && nodes == old(nodes) + {lru[0]}
      ensures old(numbuckets) > 0 ==>
                AheadAfterAdd(old(cursors), old(lru), MakeRoom(old(lru), lruLimit), lru[0])
    {
      hide Valid, AheadAfterAdd;
      Counted();
      Grow();
      ghost var el := AddToTable(key, value);
    }

    method AddSlot(key: K, value: V)
      requires Valid() && HasSlot()
      modifies this`slots, this`numelements
      ensures Valid() && numbuckets == 0 && slots == old(slots) + [(key, value)]
    {
      slots := slots + [(key, value)];
      numelements := numelements + 1;
    }

    /** Add unless the key is there already. */
    method AddUnique(key: K, value: V) returns (ok: bool)
      requires Valid()
      modifies this, nodes
      ensures Valid() && fresh(nodes - old(nodes)) && lruLimit == old(lruLimit)
      ensures ok <==> Lookup(old(Entries()), key) == None
      ensures ok ==> Entries() == Extended(old(Entries()), old(HasSlot()), (key, value))
      ensures !ok ==> Entries() == Fronted(old(Entries()), key)
    {
      hide Valid, Extended;
      Counted();
      ghost var es := Entries();
      var r := Get(key);
      if r.Some? {
        return false;
      }
      Counted();
      assert Entries() == es && HasSlot() == old(HasSlot());
      AddAbsent(key, value);
      return true;
    }

    method AddAbsent(key: K, value: V)
      requires Valid()
      modifies this, nodes
      ensures Valid() && fresh(nodes - old(nodes)) && lruLimit == old(lruLimit)
      ensures Entries() == Extended(old(Entries()), old(HasSlot()), (key, value))
    {
      hide Valid, Extended;
      Add(key, value);
    }

    /** The entries after an addition. */
    ghost function Extended(es: seq<(K, V)>, hasSlot: bool, e: (K, V)): seq<(K, V)>
      reads `lruLimit
    {
      if hasSlot then es + [e] else [e] + MakeRoom(es, lruLimit)
    }

    method SetLruLimit(value: int) returns (previous: nat)
      requires Valid()
      modifies this`lruLimit
      ensures Valid() && previous == old(lruLimit) && lruLimit == if value >= 0 then value else old(lruLimit)
    {
      previous := lruLimit;
      if value >= 0 {
        lruLimit := value;
      }
    }

    // ----- Iterators -----

    /** A new iterator, at the end it starts from. */
    method NewCursor(reverseOrder: bool) returns (c: Cursor<K, V>)
      requires Valid()
      ensures c.lruFirst == reverseOrder
      ensures numbuckets > 0 ==> c.location == null || c.location in lru
      ensures numbuckets > 0 ==> AheadOf(lru, c) == if reverseOrder then Reversed(lru) else lru
      ensures numbuckets == 0 ==> SlotsAhead(slots, c) == if reverseOrder then slots else Reversed(slots)
      ensures numbuckets == 0 ==> c.itemNumber == if reverseOrder then 0 else |slots| - 1
    {
      if numbuckets > 0 {
        c := Cursor(if reverseOrder then lruTail else lruHead, 0, reverseOrder);
        AheadWhole(lru, c);
      } else {
        c := Cursor(null, if reverseOrder then 0 else numelements - 1, reverseOrder);
        SlotsWhole(slots, c);
      }
    }

    /** Open an iterator; it becomes number 0. */
    method IterInit(reverseOrder: bool) returns (count: nat)
      requires Valid()
      modifies this`cursors
      ensures Valid() && count == |Entries()|
      ensures cursors != [] && cursors == [cursors[0]] + old(cursors) && cursors[0].lruFirst == reverseOrder
      ensures numbuckets > 0 ==> AheadOf(lru, cursors[0]) == if reverseOrder then Reversed(lru) else lru
      ensures numbuckets == 0 ==> SlotsAhead(slots, cursors[0]) == if reverseOrder then slots else Reversed(slots)
      ensures numbuckets == 0 ==> cursors[0].itemNumber == if reverseOrder then 0 else |slots| - 1
    {
      hide Valid, AheadOf, SlotsAhead;
      Counted();
      var c := NewCursor(reverseOrder);
      Attach(c);
      return numelements;
    }

    method Attach(c: Cursor<K, V>)
      requires Valid() && (numbuckets > 0 ==> c.location == null || c.location in lru)
      modifies this`cursors
      ensures Valid() && cursors == [c] + old(cursors)
    {
      hide LruLinked, ChainsLinked, Agreement;
      cursors := [c] + cursors;
    }

    /** Return the next entry of iterator k, if there is one. */
    method IterNext(k: nat) returns (r: Option<(K, V)>)
      requires Valid() && k < |cursors|
      modifies this`cursors
      ensures Valid() && |cursors| == |old(cursors)| && cursors[k].lruFirst == old(cursors)[k].lruFirst
      ensures forall j :: 0 <= j < |cursors| && j != k ==> cursors[j] == old(cursors)[j]
      ensures numbuckets > 0 ==>
                var ahead := AheadOf(lru, old(cursors)[k]);
                && r == (if ahead == [] then None else Some((ahead[0].key, ahead[0].value)))
                && AheadOf(lru, cursors[k]) == if ahead == [] then [] else ahead[1..]
      ensures numbuckets == 0 ==>
                var ahead := SlotsAhead(slots, old(cursors)[k]);
                && r == (if ahead == [] then None else Some(ahead[0]))
                && SlotsAhead(slots, cursors[k]) == if ahead == [] then [] else ahead[1..]
      ensures numbuckets == 0 ==> cursors[k] == if r == None then old(cursors)[k] else Stepped(old(cursors)[k])
    {
      if numbuckets > 0 {
        r := NormalNext(k);
      } else {
        r := TinyNext(k);
      }
    }

    method NormalNext(k: nat) returns (r: Option<(K, V)>)
      requires Valid() && numbuckets > 0 && k < |cursors|
      modifies this`cursors
      ensures Valid() && |cursors| == |old(cursors)| && cursors[k].lruFirst == old(cursors)[k].lruFirst
      ensures forall j :: 0 <= j < |cursors| && j != k ==> cursors[j] == old(cursors)[j]
      ensures var ahead := AheadOf(lru, old(cursors)[k]);
              && r == (if ahead == [] then None else Some((ahead[0].key, ahead[0].value)))
              && AheadOf(lru, cursors[k]) == if ahead == [] then [] else ahead[1..]
    {
      hide ChainsLinked, Agreement, ByKey, Bucket;
      var c := cursors[k];
      var el := c.location;
      if el == null {
        return None;
      }
      ghost var i := Index(lru, el);
      Neighbours(el, i);
      AheadStep(lru, i, c.lruFirst);
      cursors := cursors[k := c.(location := if c.lruFirst then el.lruPrev else el.lruNext)];
      return Some((el.key, el.value));
    }

    method TinyNext(k: nat) returns (r: Option<(K, V)>)
      requires Valid() && numbuckets == 0 && k < |cursors|
      modifies this`cursors
      ensures Valid() && |cursors| == |old(cursors)| && cursors[k].lruFirst == old(cursors)[k].lruFirst
      ensures forall j :: 0 <= j < |cursors| && j != k ==> cursors[j] == old(cursors)[j]
      ensures var ahead := SlotsAhead(slots, old(cursors)[k]);
              && r == (if ahead == [] then None else Some(ahead[0]))
              && SlotsAhead(slots, cursors[k]) == if ahead == [] then [] else ahead[1..]
      ensures cursors[k] == if r == None then old(cursors)[k] else Stepped(old(cursors)[k])
    {
      var c := cursors[k];
      if c.itemNumber < 0 || c.itemNumber >= numelements {
        return None;
      }
      SlotsAheadStep(slots, c);
      r := Some(slots[c.itemNumber]);
      cursors := cursors[k := Stepped(c)];
    }

    /**
     Close iterator k: the list of active iterators continues after it, so newer ones are lost with it. This only
     keeps the positions in step with the links, as a part of `IteratorLinks.CloseIterator`.
     */
    method IterDone(k: nat)
      requires Valid() && k < |cursors|
      modifies this`cursors
      ensures Valid() && cursors == old(cursors)[k + 1..]
      ensures cursors == Without(old(cursors), k) <==> k == 0
    {
      assert |cursors[k + 1..]| == |Without(cursors, k)| ==> k == 0;
      cursors := cursors[k + 1..];
    }
  }
}
