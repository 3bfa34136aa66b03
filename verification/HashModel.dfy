/** What the hash means to its callers: a list of entries, the first with a key being the one looked up. */
module HashModel {
  import opened Wrappers
  import opened NodeLists

  /** Position of the first entry with key k, the length of the list if there is none. */
  ghost function Find<K, V>(es: seq<(K, V)>, k: K): (i: nat)
    ensures i <= |es|
    ensures i < |es| ==> es[i].0 == k
    ensures forall j :: 0 <= j < i ==> es[j].0 != k
  {
    if es == [] || es[0].0 == k then 0 else 1 + Find(es[1..], k)
  }

  ghost function Lookup<K, V>(es: seq<(K, V)>, k: K): Option<V> {
    var i := Find(es, k);
    if i < |es| then Some(es[i].1) else None
  }

  ghost function Pairs<K, V>(s: seq<Node<K, V>>): (es: seq<(K, V)>)
    ensures |es| == |s| && forall i :: 0 <= i < |s| ==> es[i] == (s[i].key, s[i].value)
  {
    seq(|s|, i requires 0 <= i < |s| => (s[i].key, s[i].value))
  }

  lemma FindIs<K, V>(es: seq<(K, V)>, k: K, i: nat)
    requires i <= |es| && (i < |es| ==> es[i].0 == k) && forall j :: 0 <= j < i ==> es[j].0 != k
    ensures Find(es, k) == i
  {
  }

  /** The first element by key is the first entry with the key. */
  lemma {:induction false} FindByKey<K, V>(s: seq<Node<K, V>>, k: K)
    ensures ByKey(s, k) == [] ==> Find(Pairs(s), k) == |s|
    ensures ByKey(s, k) != [] ==>
              Find(Pairs(s), k) < |s| && s[Find(Pairs(s), k)] == ByKey(s, k)[0]
  {
    if s != [] {
      assert Pairs(s)[1..] == Pairs(s[1..]);
      FindByKey(s[1..], k);
    }
  }

  lemma PairsWithout<K, V>(s: seq<Node<K, V>>, i: nat)
    requires i < |s|
    ensures Pairs(Without(s, i)) == Without(Pairs(s), i)
  {
  }

  lemma PairsCons<K, V>(n: Node<K, V>, s: seq<Node<K, V>>)
    ensures Pairs([n] + s) == [(n.key, n.value)] + Pairs(s)
  {
  }

  lemma PairsMakeRoom<K, V>(s: seq<Node<K, V>>, limit: nat)
    ensures Pairs(MakeRoom(s, limit)) == MakeRoom(Pairs(s), limit)
  {
  }

  // ----- The operations on entries -----

  /** Entry i moved to the front, the others in order. */
  ghost function MoveFront<T>(es: seq<T>, i: nat): seq<T>
    requires i < |es|
  {
    [es[i]] + Without(es, i)
  }

  /** The last entry put in the place of entry i. */
  function SwapRemove<T>(es: seq<T>, i: nat): seq<T>
    requires i < |es|
  {
    es[i := es[|es| - 1]][..|es| - 1]
  }

  /** At most limit - 1 entries, cut from the end; limit 0 is no limit. */
  ghost function MakeRoom<T>(es: seq<T>, limit: nat): seq<T> {
    if limit == 0 || |es| < limit then es else es[..limit - 1]
  }

  ghost predicate UniqueKeys<K, V>(es: seq<(K, V)>) {
    forall i, j :: 0 <= i < j < |es| ==> es[i].0 != es[j].0
  }

  /** The entries, each with its own key, hold exactly the bindings of the finite map m. */
  ghost predicate Represents<K(!new), V>(es: seq<(K, V)>, m: map<K, V>) {
    UniqueKeys(es) && forall k :: Lookup(es, k) == if k in m then Some(m[k]) else None
  }

  lemma LookupAppend<K, V>(es: seq<(K, V)>, e: (K, V), k: K)
    ensures Lookup(es + [e], k) == if Lookup(es, k) == None && e.0 == k then Some(e.1) else Lookup(es, k)
  {
    var i := Find(es, k);
    FindIs(es + [e], k, if i == |es| && e.0 != k then |es| + 1 else i);
  }

  lemma LookupCons<K, V>(es: seq<(K, V)>, e: (K, V), k: K)
    ensures Lookup([e] + es, k) == if e.0 == k then Some(e.1) else Lookup(es, k)
  {
    FindIs([e] + es, k, if e.0 == k then 0 else 1 + Find(es, k));
  }

  lemma LookupWithout<K, V>(es: seq<(K, V)>, i: nat, k: K)
    requires i < |es| && k != es[i].0
    ensures Lookup(Without(es, i), k) == Lookup(es, k)
  {
    var f := Find(es, k);
    FindIs(Without(es, i), k, if f < i then f else f - 1);
  }

  lemma LookupGone<K, V>(es: seq<(K, V)>, i: nat)
    requires UniqueKeys(es) && i < |es|
    ensures Lookup(Without(es, i), es[i].0) == None && Lookup(SwapRemove(es, i), es[i].0) == None
  {
    var a, b := Without(es, i), SwapRemove(es, i);
    assert forall j :: 0 <= j < |b| ==> b[j] == es[if j == i then |es| - 1 else j];
    FindIs(a, es[i].0, |a|);
    FindIs(b, es[i].0, |b|);
  }

  /** Moving a found entry to the front changes no lookup. */
  lemma LookupMoveFront<K, V>(es: seq<(K, V)>, i: nat, k: K)
    requires i < |es| && i == Find(es, es[i].0)
    ensures Lookup(MoveFront(es, i), k) == Lookup(es, k)
  {
    LookupCons(Without(es, i), es[i], k);
    if k != es[i].0 {
      LookupWithout(es, i, k);
    }
  }

  lemma UniqueAfter<K, V>(es: seq<(K, V)>, i: nat)
    requires UniqueKeys(es) && i < |es|
    ensures UniqueKeys(Without(es, i)) && UniqueKeys(SwapRemove(es, i)) && UniqueKeys(MoveFront(es, i))
  {
    var a, b, last := Without(es, i), SwapRemove(es, i), |es| - 1;
    assert forall j :: 0 <= j < |a| ==> a[j] == es[if j < i then j else j + 1];
    assert forall j :: 0 <= j < |b| ==> b[j] == es[if j == i then last else j];
  }

  // ----- The operations refine those of a finite map -----

  lemma AddRefines<K(!new), V>(es: seq<(K, V)>, m: map<K, V>, k: K, v: V)
    requires Represents(es, m) && k !in m
    ensures Represents(es + [(k, v)], m[k := v]) && Represents([(k, v)] + es, m[k := v])
  {
    assert Lookup(es, k) == None;
    forall x
      ensures Lookup(es + [(k, v)], x) == if x == k then Some(v) else Lookup(es, x)
      ensures Lookup([(k, v)] + es, x) == if x == k then Some(v) else Lookup(es, x)
    {
      LookupAppend(es, (k, v), x);
      LookupCons(es, (k, v), x);
    }
  }

  lemma DeleteRefines<K(!new), V>(es: seq<(K, V)>, m: map<K, V>, k: K)
    requires Represents(es, m) && k in m
    ensures Find(es, k) < |es|
    ensures Represents(Without(es, Find(es, k)), m - {k}) && Represents(SwapRemove(es, Find(es, k)), m - {k})
  {
    assert Lookup(es, k) == Some(m[k]);
    var i := Find(es, k);
    UniqueAfter(es, i);
    LookupGone(es, i);
    forall x | x != k
      ensures Lookup(Without(es, i), x) == Lookup(es, x) && Lookup(SwapRemove(es, i), x) == Lookup(es, x)
    {
      OthersStay(es, i, x);
    }
  }

  /** With distinct keys there is nothing to overtake. */
  lemma OthersStay<K(!new), V>(es: seq<(K, V)>, i: nat, x: K)
    requires UniqueKeys(es) && i < |es| && x != es[i].0
    ensures Lookup(Without(es, i), x) == Lookup(es, x) && Lookup(SwapRemove(es, i), x) == Lookup(es, x)
  {
    var w, last := Without(es, i), |es| - 1;
    UniqueAfter(es, i);
    SwapRemoveLookup(es, i, x);
    if i < last && es[last].0 == x {
      assert w[last - 1] == es[last];
      FindIs(w, x, last - 1);
    }
  }

  lemma GetRefines<K(!new), V>(es: seq<(K, V)>, m: map<K, V>, k: K)
    requires Represents(es, m)
    ensures Find(es, k) < |es| ==> Represents(MoveFront(es, Find(es, k)), m)
  {
    var i := Find(es, k);
    if i < |es| {
      UniqueAfter(es, i);
      forall x ensures Lookup(MoveFront(es, i), x) == Lookup(es, x) {
        LookupMoveFront(es, i, x);
      }
    }
  }

  /** The last entry, put in the place of entry i, is of key k and has another value than the next one from there on. */
  ghost predicate Overtakes<K, V>(es: seq<(K, V)>, i: nat, k: K)
    requires i < |es|
  {
    var last, w := |es| - 1, Without(es, i);
    i < last && es[last].0 == k && i <= Find(w, k) < |w| && w[Find(w, k)].1 != es[last].1
  }

  /** Where a key is found after the swap, from where it is found without entry i. */
  lemma FindSwapped<K, V>(es: seq<(K, V)>, i: nat, k: K)
    requires i < |es|
    ensures var last, f := |es| - 1, Find(Without(es, i), k);
            Find(SwapRemove(es, i), k) ==
              if f < i || f == last || i == last then f else if es[last].0 == k then i else f + 1
  {
    var b, w, last := SwapRemove(es, i), Without(es, i), |es| - 1;
    var f := Find(w, k);
    var r := if f < i || f == last || i == last then f else if es[last].0 == k then i else f + 1;
    assert |b| == |w| == last && r <= last;
    assert i < last ==> w[last - 1] == es[last];
    forall j | 0 <= j < r ensures b[j].0 != k {
      assert b[j] == if j == i then es[last] else if j < i then w[j] else w[j - 1];
    }
    if r < last {
      assert b[r] == if r == i then es[last] else if r < i then w[r] else w[r - 1];
    }
    FindIs(b, k, r);
  }

  /**
   Deleting entry i by swapping in the last entry gives every key, the deleted one included, the lookup that
   closing the gap gives it, exactly when the last entry does not overtake one of that key.
   */
  lemma SwapRemoveLookup<K, V>(es: seq<(K, V)>, i: nat, k: K)
    requires i < |es|
    ensures Lookup(SwapRemove(es, i), k) == Lookup(Without(es, i), k) <==> !Overtakes(es, i, k)
    ensures k != es[i].0 ==> Lookup(Without(es, i), k) == Lookup(es, k)
  {
    var b, w, last := SwapRemove(es, i), Without(es, i), |es| - 1;
    FindSwapped(es, i, k);
    if i < last {
      assert w[last - 1] == es[last];
    }
    if k != es[i].0 {
      LookupWithout(es, i, k);
    }
  }

  /** Deleting key 1 from (1,1)(2,1)(2,2) this way changes the value found for key 2. */
  lemma SwapRemoveOvertakes()
    ensures var es := [(1, 1), (2, 1), (2, 2)];
            Lookup(es, 2) == Some(1) && Lookup(SwapRemove(es, Find(es, 1)), 2) == Some(2)
  {
    var es := [(1, 1), (2, 1), (2, 2)];
    FindIs(es, 1, 0);
    FindIs(es, 2, 1);
    assert SwapRemove(es, 0) == [(2, 2), (2, 1)];
    FindIs([(2, 2), (2, 1)], 2, 0);
  }
}
