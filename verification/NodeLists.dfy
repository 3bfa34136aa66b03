/** Hash elements, and sequences of them: who carries a key, who is next, and what moves do to both. */
module NodeLists {
  /** A hash element; its key, value and hash never change. */
  class Node<K(==), V> {
    const keyHash: nat
    const key: K
    const value: V
    var hashNext: Node?<K, V>
    var hashPrev: Node?<K, V>
    var lruPrev: Node?<K, V>
    var lruNext: Node?<K, V>

    constructor (keyHash: nat, key: K, value: V)
      ensures this.keyHash == keyHash && this.key == key && this.value == value
      ensures hashNext == null && hashPrev == null && lruPrev == null && lruNext == null
    {
      this.keyHash, this.key, this.value := keyHash, key, value;
      hashNext, hashPrev, lruPrev, lruNext := null, null, null, null;
    }
  }

  /** The element at a position, null beside the ends. */
  ghost function At<K, V>(s: seq<Node<K, V>>, i: int): Node?<K, V> {
    if 0 <= i < |s| then s[i] else null
  }

  ghost predicate Distinct<T>(s: seq<T>) {
    forall i, j :: 0 <= i < j < |s| ==> s[i] != s[j]
  }

  /** s without position i. */
  function Without<T>(s: seq<T>, i: nat): seq<T>
    requires i < |s|
  {
    s[..i] + s[i + 1..]
  }

  lemma FrontStays<T>(s: seq<T>)
    requires s != []
    ensures s == [s[0]] + Without(s, 0)
  {
  }

  /** s without the first x. */
  ghost function Drop<T>(s: seq<T>, x: T): seq<T> {
    if s == [] then [] else if s[0] == x then s[1..] else [s[0]] + Drop(s[1..], x)
  }

  lemma DropCons<T>(x: T, s: seq<T>, y: T)
    ensures Drop([x] + s, y) == if x == y then s else [x] + Drop(s, y)
  {
    assert ([x] + s)[1..] == s;
  }

  lemma {:induction false} WithoutIsDrop<T>(s: seq<T>, i: nat)
    requires Distinct(s) && i < |s|
    ensures Without(s, i) == Drop(s, s[i])
  {
    if i > 0 {
      WithoutIsDrop(s[1..], i - 1);
      assert Without(s, i) == [s[0]] + Without(s[1..], i - 1);
    }
  }

  lemma {:induction false} DropAbsent<T>(s: seq<T>, x: T)
    requires x !in s
    ensures Drop(s, x) == s
  {
    if s != [] {
      DropAbsent(s[1..], x);
    }
  }

  lemma {:induction false} DropKeeps<T>(s: seq<T>, x: T)
    requires Distinct(s)
    ensures Distinct(Drop(s, x)) && x !in Drop(s, x)
    ensures forall y :: y in Drop(s, x) <==> y in s && y != x
    ensures |Drop(s, x)| == |s| - if x in s then 1 else 0
  {
    if x in s {
      var i :| 0 <= i < |s| && s[i] == x;
      WithoutIsDrop(s, i);
      assert forall y :: y in s && y != x ==> y in s[..i] || y in s[i + 1..];
    } else {
      DropAbsent(s, x);
    }
  }

  lemma ConsConcat<T>(h: T, t: seq<T>, b: seq<T>, x: T)
    ensures [h] + t + b == [h] + (t + b)
    ensures x in [h] + t <==> x == h || x in t
  {
  }

  lemma {:induction false} DropConcat<T>(a: seq<T>, b: seq<T>, x: T)
    ensures Drop(a + b, x) == if x in a then Drop(a, x) + b else a + Drop(b, x)
  {
    if a == [] {
      assert a + b == b;
    } else {
      var h, t := a[0], a[1..];
      assert a == [h] + t;
      DropConcat(t, b, x);
      DropConsConcat(h, t, b, x);
    }
  }

  lemma DropConsConcat<T>(h: T, t: seq<T>, b: seq<T>, x: T)
    requires Drop(t + b, x) == if x in t then Drop(t, x) + b else t + Drop(b, x)
    ensures var a := [h] + t; Drop(a + b, x) == if x in a then Drop(a, x) + b else a + Drop(b, x)
  {
    hide Drop;
    DropCons(h, t + b, x);
    DropCons(h, t, x);
    ConsConcat(h, t, b, x);
    ConsConcat(h, Drop(t, x), b, x);
    ConsConcat(h, t, Drop(b, x), x);
  }

  lemma AtWithout<K, V>(s: seq<Node<K, V>>, i: nat, j: int)
    requires i < |s|
    ensures At(Without(s, i), j) == At(s, if j < i then j else j + 1)
  {
  }

  // ----- Elements carrying a key -----

  ghost function ByKey<K, V>(s: seq<Node<K, V>>, k: K): seq<Node<K, V>> {
    if s == [] then [] else if s[0].key == k then [s[0]] + ByKey(s[1..], k) else ByKey(s[1..], k)
  }

  lemma {:induction false} ByKeyHas<K, V>(s: seq<Node<K, V>>, k: K, n: Node<K, V>)
    ensures n in ByKey(s, k) <==> n in s && n.key == k
  {
    if s != [] {
      ByKeyHas(s[1..], k, n);
    }
  }

  lemma ByKeyCons<K, V>(n: Node<K, V>, s: seq<Node<K, V>>, k: K)
    ensures ByKey([n] + s, k) == if n.key == k then [n] + ByKey(s, k) else ByKey(s, k)
  {
    assert ([n] + s)[1..] == s;
  }

  lemma {:induction false} ByKeyDrop<K, V>(s: seq<Node<K, V>>, n: Node<K, V>, k: K)
    ensures ByKey(Drop(s, n), k) == if n.key == k then Drop(ByKey(s, k), n) else ByKey(s, k)
  {
    if s != [] {
      ByKeyDrop(s[1..], n, k);
      DropCons(s[0], ByKey(s[1..], k), n);
      if s[0] != n {
        ByKeyCons(s[0], Drop(s[1..], n), k);
      }
    }
  }

  /** Moving the first element of its key to the front changes no key's elements. */
  lemma ByKeyMoveFront<K, V>(s: seq<Node<K, V>>, n: Node<K, V>, k: K)
    requires n in s && ByKey(s, n.key) != [] && ByKey(s, n.key)[0] == n
    ensures ByKey([n] + Drop(s, n), k) == ByKey(s, k)
  {
    ByKeyCons(n, Drop(s, n), k);
    ByKeyDrop(s, n, k);
  }

  /** The first element that carries k is the first of those carrying it. */
  lemma {:induction false} FirstByKey<K, V>(s: seq<Node<K, V>>, k: K, i: nat)
    requires i < |s| && s[i].key == k && forall j :: 0 <= j < i ==> s[j].key != k
    ensures ByKey(s, k) != [] && ByKey(s, k)[0] == s[i]
  {
    if i > 0 {
      FirstByKey(s[1..], k, i - 1);
    }
  }

  lemma {:induction false} NoneByKey<K, V>(s: seq<Node<K, V>>, k: K)
    requires forall j :: 0 <= j < |s| ==> s[j].key != k
    ensures ByKey(s, k) == []
  {
    if s != [] {
      NoneByKey(s[1..], k);
    }
  }

  // ----- Elements in a bucket -----

  function Bucket(keyHash: nat, numbuckets: nat): (b: nat)
    requires numbuckets > 0
    ensures b < numbuckets
  {
    keyHash % numbuckets
  }

  ghost function InBucket<K, V>(s: seq<Node<K, V>>, b: nat, numbuckets: nat): seq<Node<K, V>>
    requires numbuckets > 0
  {
    if s == [] then []
    else if Bucket(s[0].keyHash, numbuckets) == b then [s[0]] + InBucket(s[1..], b, numbuckets)
    else InBucket(s[1..], b, numbuckets)
  }

  lemma {:induction false} InBucketHas<K, V>(s: seq<Node<K, V>>, b: nat, numbuckets: nat, n: Node<K, V>)
    requires numbuckets > 0
    ensures n in InBucket(s, b, numbuckets) <==> n in s && Bucket(n.keyHash, numbuckets) == b
  {
    if s != [] {
      InBucketHas(s[1..], b, numbuckets, n);
    }
  }

  /** A bucket filled in list order keeps the order of the elements of a key. */
  lemma {:induction false} InBucketByKey<K, V>(s: seq<Node<K, V>>, b: nat, numbuckets: nat, k: K)
    requires numbuckets > 0
    requires forall i :: 0 <= i < |s| && s[i].key == k ==> Bucket(s[i].keyHash, numbuckets) == b
    ensures ByKey(InBucket(s, b, numbuckets), k) == ByKey(s, k)
  {
    if s != [] {
      InBucketByKey(s[1..], b, numbuckets, k);
      if Bucket(s[0].keyHash, numbuckets) == b {
        ByKeyCons(s[0], InBucket(s[1..], b, numbuckets), k);
      }
    }
  }

  // ----- What an iterator still has ahead -----

  ghost function Reversed<T>(s: seq<T>): seq<T> {
    if s == [] then [] else Reversed(s[1..]) + [s[0]]
  }

  lemma {:induction false} ReversedConcat<T>(a: seq<T>, b: seq<T>)
    ensures Reversed(a + b) == Reversed(b) + Reversed(a)
  {
    if a == [] {
      assert a + b == b;
    } else {
      assert (a + b)[1..] == a[1..] + b;
      ReversedConcat(a[1..], b);
    }
  }

  lemma {:induction false} ReversedHas<T>(s: seq<T>, x: T)
    ensures x in Reversed(s) <==> x in s
  {
    if s != [] {
      ReversedHas(s[1..], x);
    }
  }

  ghost function Index<T>(s: seq<T>, x: T): (i: nat)
    requires x in s
    ensures i < |s| && s[i] == x
  {
    if s[0] == x then 0 else 1 + Index(s[1..], x)
  }

  /** From the location towards the tail, or towards the head when the least recent go first. */
  ghost function Ahead<K, V>(s: seq<Node<K, V>>, location: Node?<K, V>, lruFirst: bool): seq<Node<K, V>> {
    if location == null || location !in s then []
    else var i := Index(s, location); if lruFirst then Reversed(s[..i + 1]) else s[i..]
  }

  lemma IndexIs<T>(s: seq<T>, i: nat)
    requires Distinct(s) && i < |s|
    ensures Index(s, s[i]) == i
  {
  }

  lemma AheadAt<K, V>(s: seq<Node<K, V>>, i: nat, lruFirst: bool)
    requires Distinct(s) && i < |s|
    ensures Ahead(s, s[i], lruFirst) == if lruFirst then Reversed(s[..i + 1]) else s[i..]
  {
    IndexIs(s, i);
  }

  lemma ReversedStep<T>(s: seq<T>, i: nat)
    requires i < |s|
    ensures Reversed(s[..i + 1]) == [s[i]] + Reversed(s[..i])
  {
    assert s[..i + 1] == s[..i] + [s[i]];
    ReversedConcat(s[..i], [s[i]]);
    assert Reversed([s[i]]) == [s[i]] by { assert [s[i]][1..] == []; }
  }

  lemma ReversedNone<T>()
    ensures Reversed<T>([]) == []
  {
  }

  lemma AheadStepBack<K, V>(s: seq<Node<K, V>>, i: nat)
    requires Distinct(s) && i < |s|
    ensures Ahead(s, s[i], true) == [s[i]] + Ahead(s, At(s, i - 1), true)
  {
    hide Distinct, Reversed, Index;
    AheadAt(s, i, true);
    ReversedStep(s, i);
    if i > 0 {
      AheadAt(s, i - 1, true);
    } else {
      ReversedNone<Node<K, V>>();
      assert s[..0] == [];
    }
  }

  lemma AheadStepOn<K, V>(s: seq<Node<K, V>>, i: nat)
    requires Distinct(s) && i < |s|
    ensures Ahead(s, s[i], false) == [s[i]] + Ahead(s, At(s, i + 1), false)
  {
    hide Distinct, Index;
    AheadAt(s, i, false);
    assert s[i..] == [s[i]] + s[i + 1..];
    if i + 1 < |s| {
      AheadAt(s, i + 1, false);
    }
  }

  /** Stepping takes the first element off what is ahead. */
  lemma AheadStep<K, V>(s: seq<Node<K, V>>, i: nat, lruFirst: bool)
    requires Distinct(s) && i < |s|
    ensures Ahead(s, s[i], lruFirst) == [s[i]] + Ahead(s, if lruFirst then At(s, i - 1) else At(s, i + 1), lruFirst)
  {
    hide Ahead, Distinct, At;
    if lruFirst {
      AheadStepBack(s, i);
    } else {
      AheadStepOn(s, i);
    }
  }

  lemma {:induction false} ReversedDrop<T>(s: seq<T>, x: T)
    requires Distinct(s)
    ensures Reversed(Drop(s, x)) == Drop(Reversed(s), x)
  {
    if s != [] {
      ReversedDrop(s[1..], x);
      DropConcat(Reversed(s[1..]), [s[0]], x);
      ReversedHas(s[1..], x);
      if s[0] == x {
        assert x !in s[1..];
      } else {
        assert ([s[0]] + Drop(s[1..], x))[1..] == Drop(s[1..], x);
        DropAbsent([s[0]], x);
        if x !in s[1..] {
          DropAbsent(s[1..], x);
        }
      }
    }
  }

  /** Where an iterator at position i goes when the element at p is removed. */
  ghost function Moved<K, V>(s: seq<Node<K, V>>, p: nat, i: nat, lruFirst: bool): Node?<K, V>
    requires p < |s| && i < |s|
  {
    if i != p then s[i] else if lruFirst then At(s, p - 1) else At(s, p + 1)
  }

  lemma DistinctCons<T>(x: T, s: seq<T>)
    requires Distinct(s) && x !in s
    ensures Distinct([x] + s)
  {
  }

  lemma DistinctWithout<T>(s: seq<T>, p: nat)
    requires Distinct(s) && p < |s|
    ensures Distinct(Without(s, p))
  {
  }

  lemma DistinctPart<T>(s: seq<T>, i: nat, j: nat)
    requires Distinct(s) && i <= j <= |s|
    ensures Distinct(s[i..j])
  {
  }

  /** The location after a removal, and its position in what is left. */
  lemma AheadWithout<K, V>(s: seq<Node<K, V>>, p: nat, i: nat, lruFirst: bool)
    requires Distinct(s) && p < |s| && i < |s|
    ensures var d := Without(s, p);
            Ahead(d, Moved(s, p, i, lruFirst), lruFirst) ==
              if lruFirst then Reversed(d[..if i < p then i + 1 else i]) else d[if i <= p then i else i - 1..]
  {
    var d := Without(s, p);
    DistinctWithout(s, p);
    var at := if i < p then i else if i > p then i - 1 else if lruFirst then p - 1 else p;
    if 0 <= at < |d| {
      assert Moved(s, p, i, lruFirst) == d[at];
      AheadAt(d, at, lruFirst);
    }
  }

  lemma DropForward<T>(s: seq<T>, p: nat, i: nat)
    requires Distinct(s) && p < |s| && i < |s|
    ensures Drop(s[i..], s[p]) == Without(s, p)[if i <= p then i else i - 1..]
  {
    hide Drop;
    if i > p {
      DropAbsent(s[i..], s[p]);
    } else {
      DistinctPart(s, i, |s|);
      WithoutIsDrop(s[i..], p - i);
    }
  }

  lemma DropBackward<T>(s: seq<T>, p: nat, i: nat)
    requires Distinct(s) && p < |s| && i < |s|
    ensures Drop(s[..i + 1], s[p]) == Without(s, p)[..if i < p then i + 1 else i]
  {
    hide Drop;
    var t := s[..i + 1];
    if i < p {
      DropAbsent(t, s[p]);
      assert Without(s, p)[..i + 1] == t;
    } else {
      DistinctPart(s, 0, i + 1);
      assert s[0..i + 1] == t;
      WithoutIsDrop(t, p);
      assert Without(t, p) == Without(s, p)[..i];
    }
  }

  /** Removing an element takes it out of what is ahead of every iterator, and nothing else. */
  lemma AheadDrop<K, V>(s: seq<Node<K, V>>, p: nat, i: nat, lruFirst: bool)
    requires Distinct(s) && p < |s| && i < |s|
    ensures Ahead(Drop(s, s[p]), Moved(s, p, i, lruFirst), lruFirst) == Drop(Ahead(s, s[i], lruFirst), s[p])
  {
    hide Ahead, Distinct, Drop, Reversed;
    AheadAt(s, i, lruFirst);
    WithoutIsDrop(s, p);
    AheadWithout(s, p, i, lruFirst);
    if lruFirst {
      DistinctPart(s, 0, i + 1);
      assert s[0..i + 1] == s[..i + 1];
      ReversedDrop(s[..i + 1], s[p]);
      DropBackward(s, p, i);
    } else {
      DropForward(s, p, i);
    }
  }

  /** A new most recent element is ahead only of the iterators that go towards the head. */
  lemma AheadPush<K, V>(s: seq<Node<K, V>>, n: Node<K, V>, i: nat, lruFirst: bool)
    requires Distinct(s) && n !in s && i < |s|
    ensures Ahead([n] + s, s[i], lruFirst) == if lruFirst then Ahead(s, s[i], true) + [n] else Ahead(s, s[i], false)
  {
    hide Ahead, Distinct;
    var t := [n] + s;
    AheadAt(s, i, lruFirst);
    DistinctCons(n, s);
    assert t[i + 1] == s[i];
    AheadAt(t, i + 1, lruFirst);
    if lruFirst {
      assert t[..i + 2] == [n] + s[..i + 1];
      assert t[..i + 2][1..] == s[..i + 1];
    } else {
      assert t[i + 1..] == s[i..];
    }
  }

  /** The elements of s that are in t. */
  ghost function Only<T>(s: seq<T>, t: seq<T>): seq<T> {
    if s == [] then [] else if s[0] in t then [s[0]] + Only(s[1..], t) else Only(s[1..], t)
  }

  lemma {:induction false} OnlyAll<T>(s: seq<T>, t: seq<T>)
    requires forall x :: x in s ==> x in t
    ensures Only(s, t) == s
  {
    if s != [] {
      OnlyAll(s[1..], t);
    }
  }

  lemma {:induction false} OnlyDrop<T>(a: seq<T>, s: seq<T>, x: T)
    requires Distinct(a) && Distinct(s) && forall y :: y in a ==> y in s
    ensures Only(a, Drop(s, x)) == Drop(a, x)
  {
    if a != [] {
      DropKeeps(s, x);
      if a[0] == x {
        forall y | y in a[1..] ensures y in Drop(s, x) {
          assert y != a[0];
        }
        OnlyAll(a[1..], Drop(s, x));
      } else {
        OnlyDrop(a[1..], s, x);
      }
    }
  }

  lemma {:induction false} OnlyOnly<T>(a: seq<T>, s: seq<T>, t: seq<T>)
    requires forall y :: y in t ==> y in s
    ensures Only(Only(a, s), t) == Only(a, t)
  {
    if a != [] {
      OnlyOnly(a[1..], s, t);
      if a[0] in s {
        assert ([a[0]] + Only(a[1..], s))[1..] == Only(a[1..], s);
      }
    }
  }

  lemma {:induction false} ReversedDistinct<T>(s: seq<T>)
    requires Distinct(s)
    ensures Distinct(Reversed(s))
  {
    if s != [] {
      ReversedDistinct(s[1..]);
      ReversedHas(s[1..], s[0]);
      var r := Reversed(s[1..]);
      forall i, j | 0 <= i < j < |r + [s[0]]| ensures (r + [s[0]])[i] != (r + [s[0]])[j] {
        if j == |r| {
          assert r[i] in r;
        }
      }
    }
  }

  /** What is ahead are elements of the list, each once. */
  lemma AheadWithin<K, V>(s: seq<Node<K, V>>, location: Node?<K, V>, lruFirst: bool)
    requires Distinct(s)
    ensures Distinct(Ahead(s, location, lruFirst)) && forall n :: n in Ahead(s, location, lruFirst) ==> n in s
  {
    if location != null && location in s {
      var i := Index(s, location);
      if lruFirst {
        DistinctPart(s, 0, i + 1);
        assert s[0..i + 1] == s[..i + 1];
        ReversedDistinct(s[..i + 1]);
        forall n | n in Reversed(s[..i + 1]) ensures n in s {
          ReversedHas(s[..i + 1], n);
        }
      } else {
        DistinctPart(s, i, |s|);
      }
    }
  }
}
