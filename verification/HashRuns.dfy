/** Whole runs of hash operations, as the contracts of `Genhash.Hash` describe their steps. */
module HashRuns {
  import opened Wrappers
  import opened NodeLists
  import opened HashModel
  import opened Genhash

  datatype Op<K, V> = AddUnique(key: K, value: V) | Get(key: K) | Delete(key: K)

  /** Whether an entry was added or deleted, or what was found. */
  datatype Answer<V> = Done(ok: bool) | Got(value: Option<V>)

  /** A lookup leaves the entries alone or moves the found one to the front. */
  ghost predicate Looked<K, V>(es: seq<(K, V)>, k: K, es': seq<(K, V)>) {
    es' == es || (Find(es, k) < |es| && es' == MoveFront(es, Find(es, k)))
  }

  /** One operation without an LRU limit, in either mode or changing from one to the other. */
  ghost predicate Step<K, V>(es: seq<(K, V)>, op: Op<K, V>, answer: Answer<V>, es': seq<(K, V)>) {
    match op
    case AddUnique(k, v) =>
      && answer == Done(Lookup(es, k) == None)
      && if Lookup(es, k) == None then es' == es + [(k, v)] || es' == [(k, v)] + es else Looked(es, k, es')
    case Get(k) => answer == Got(Lookup(es, k)) && Looked(es, k, es')
    case Delete(k) =>
      var i := Find(es, k);
      && answer == Done(i < |es|)
      && if i < |es| then es' == Without(es, i) || es' == SwapRemove(es, i) else es' == es
  }

  /** The same operations on a finite map. */
  function MapAfter<K, V>(m: map<K, V>, op: Op<K, V>): map<K, V> {
    match op
    case AddUnique(k, v) => if k in m then m else m[k := v]
    case Get(_) => m
    case Delete(k) => m - {k}
  }

  function MapAnswer<K, V>(m: map<K, V>, op: Op<K, V>): Answer<V> {
    match op
    case AddUnique(k, _) => Done(k !in m)
    case Get(k) => Got(if k in m then Some(m[k]) else None)
    case Delete(k) => Done(k in m)
  }

  function MapRun<K, V>(m: map<K, V>, ops: seq<Op<K, V>>): map<K, V>
    decreases |ops|
  {
    if ops == [] then m else MapRun(MapAfter(m, ops[0]), ops[1..])
  }

  function MapAnswers<K, V>(m: map<K, V>, ops: seq<Op<K, V>>): seq<Answer<V>>
    decreases |ops|
  {
    if ops == [] then [] else [MapAnswer(m, ops[0])] + MapAnswers(MapAfter(m, ops[0]), ops[1..])
  }

  lemma StepRefines<K(!new), V>(es: seq<(K, V)>, m: map<K, V>, op: Op<K, V>, answer: Answer<V>, es': seq<(K, V)>)
    requires Represents(es, m) && Step(es, op, answer, es')
    ensures answer == MapAnswer(m, op) && Represents(es', MapAfter(m, op))
  {
    var k := op.key;
    assert Lookup(es, k) == if k in m then Some(m[k]) else None;
    match op
    case AddUnique(_, v) =>
      if k in m {
        GetRefines(es, m, k);
      } else {
        AddRefines(es, m, k, v);
      }
    case Get(_) =>
      GetRefines(es, m, k);
    case Delete(_) =>
      if k in m {
        DeleteRefines(es, m, k);
      } else {
        assert m - {k} == m;
      }
  }

  /** states are the entries before, between and after the operations. */
  ghost predicate IsRun<K, V>(states: seq<seq<(K, V)>>, ops: seq<Op<K, V>>, answers: seq<Answer<V>>) {
    && |states| == |ops| + 1 && |answers| == |ops|
    && forall i :: 0 <= i < |ops| ==> Step(states[i], ops[i], answers[i], states[i + 1])
  }

  /** Every answer in every run is that of a finite map. */
  lemma {:induction false} RunRefinesMap<K(!new), V>(states: seq<seq<(K, V)>>, ops: seq<Op<K, V>>,
                                                         answers: seq<Answer<V>>, m: map<K, V>)
    requires IsRun(states, ops, answers) && Represents(states[0], m)
    ensures answers == MapAnswers(m, ops) && Represents(states[|ops|], MapRun(m, ops))
    decreases |ops|
  {
    if ops != [] {
      StepRefines(states[0], m, ops[0], answers[0], states[1]);
      RunRefinesMap(states[1..], ops[1..], answers[1..], MapAfter(m, ops[0]));
      assert answers == [answers[0]] + answers[1..];
    }
  }

  /** One operation on a hash without a limit. */
  method Perform<K(==, !new), V(==)>(h: Hash<K, V>, op: Op<K, V>) returns (answer: Answer<V>)
    requires h.Valid() && h.lruLimit == 0
    modifies h, h.nodes
    ensures h.Valid() && h.lruLimit == 0 && fresh(h.nodes - old(h.nodes))
    ensures Step(old(h.Entries()), op, answer, h.Entries())
  {
    hide Hash.Valid;
    if op.AddUnique? {
      var ok := h.AddUnique(op.key, op.value);
      return Done(ok);
    }
    if op.Get? {
      answer := PerformGet(h, op.key);
    } else {
      answer := PerformDelete(h, op.key);
    }
  }

  method PerformGet<K(==, !new), V(==)>(h: Hash<K, V>, key: K) returns (answer: Answer<V>)
    requires h.Valid() && h.lruLimit == 0
    modifies h, h.nodes
    ensures h.Valid() && h.lruLimit == 0 && h.nodes == old(h.nodes)
    ensures Step(old(h.Entries()), Get(key), answer, h.Entries())
  {
    hide Hash.Valid;
    var r := h.Get(key);
    return Got(r);
  }

  method PerformDelete<K(==, !new), V(==)>(h: Hash<K, V>, key: K) returns (answer: Answer<V>)
    requires h.Valid() && h.lruLimit == 0
    modifies h, h.nodes
    ensures h.Valid() && h.lruLimit == 0 && h.nodes == old(h.nodes)
    ensures Step(old(h.Entries()), Delete(key), answer, h.Entries())
  {
    hide Hash.Valid;
    var ok := h.Del(key);
    return Done(ok);
  }

  method PerformOnMap<K(==, !new), V(==)>(h: Hash<K, V>, op: Op<K, V>, ghost m: map<K, V>) returns (answer: Answer<V>)
    requires h.Valid() && h.lruLimit == 0 && Represents(h.Entries(), m)
    modifies h, h.nodes
    ensures h.Valid() && h.lruLimit == 0 && fresh(h.nodes - old(h.nodes))
    ensures answer == MapAnswer(m, op) && Represents(h.Entries(), MapAfter(m, op))
  {
    hide Hash.Valid;
    ghost var es := h.Entries();
    answer := Perform(h, op);
    StepRefines(es, m, op, answer, h.Entries());
  }

  /** Operations on a hash answer as those on a finite map, through every switch of modes and growth. */
  method PerformAll<K(==, !new), V(==)>(h: Hash<K, V>, ops: seq<Op<K, V>>, ghost m: map<K, V>)
    returns (answers: seq<Answer<V>>)
    requires h.Valid() && h.lruLimit == 0 && Represents(h.Entries(), m)
    modifies h, h.nodes
    ensures h.Valid() && fresh(h.nodes - old(h.nodes))
    ensures answers == MapAnswers(m, ops) && Represents(h.Entries(), MapRun(m, ops))
    decreases |ops|
  {
    hide Hash.Valid;
    if ops == [] {
      return [];
    }
    var answer := PerformOnMap(h, ops[0], m);
    var rest := PerformAll(h, ops[1..], MapAfter(m, ops[0]));
    return [answer] + rest;
  }
}
