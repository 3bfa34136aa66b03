/** Iterations over a hash that is being changed (libasn1common/genhash.c:600-671). */
module HashIteration {
  import opened Wrappers
  import opened NodeLists
  import opened HashModel
  import opened Genhash
  import opened Iteration

  /**
   What happens while an iterator runs: its own steps, steps of another one, opening and closing newer ones,
   and every operation on the entries.
   */
  datatype Op<K, V> =
    | Next
    | NextOf(other: nat)
    | OpenNew(lruFirst: bool)
    | CloseNewest
    | Add(key: K, value: V)
    | AddUnique(key: K, value: V)
    | Get(key: K)
    | Delete(key: K)
    | SetLimit(limit: int)

  // ----- NORMAL mode -----

  /** An iteration that has got as far as p, over a list of which it has ahead still before it. */
  ghost predicate Reached<T>(p: Progress<T>, order: seq<T>, ahead: seq<T>, ever: set<T>) {
    p.order == order && p.ahead == ahead && forall x :: x in p.seen ==> x in ever
  }

  /** The events es lead from p to there. */
  ghost predicate Advances<T>(p: Progress<T>, es: seq<Event<T>>, order: seq<T>, ahead: seq<T>, ever: set<T>) {
    AllAllowed(p, es) && Reached(Run(p, es), order, ahead, ever)
  }

  lemma NextAdvances<T>(p: Progress<T>, order: seq<T>, ahead: seq<T>, ever: set<T>)
    requires Reached(p, order, ahead, ever)
    ensures Advances(p, [Event.Next], order, if ahead == [] then [] else ahead[1..], ever)
    ensures Run(p, [Event.Next]).returned == if ahead == [] then p.returned else p.returned + [ahead[0]]
  {
    RunOne(p, Event.Next);
  }

  lemma CutAdvances<T>(p: Progress<T>, order: seq<T>, ahead: seq<T>, ever: set<T>, left: seq<T>)
    requires Reached(p, order, ahead, ever) && Distinct(left) && forall x :: x in left ==> x in order
    ensures Advances(p, [Cut(left)], left, Only(ahead, left), ever) && Run(p, [Cut(left)]).returned == p.returned
  {
    RunOne(p, Cut(left));
  }

  lemma AddAdvances<T>(p: Progress<T>, order: seq<T>, ahead: seq<T>, ever: set<T>,
                       n: nat, el: T, joins: bool, ever': set<T>)
    requires Reached(p, order, ahead, ever) && Distinct(order) && n <= |order| && el !in ever && ever + {el} <= ever'
    ensures var rest := Only(ahead, order[..n]);
            && Advances(p, [Cut(order[..n]), Put(el, joins)], [el] + order[..n],
                        if joins then rest + [el] else rest, ever')
            && Run(p, [Cut(order[..n]), Put(el, joins)]).returned == p.returned
  {
    var left := order[..n];
    CutAdvances(p, order, ahead, ever, left);
    var cut, put := Run(p, [Cut(left)]), Put(el, joins);
    RunOne(cut, put);
    RunConcat(p, [Cut(left)], [put]);
    assert [Cut(left)] + [put] == [Cut(left), put];
  }

  ghost predicate Open<K(!new), V>(h: Hash<K, V>, k: nat)
    reads h, h.nodes
  {
    h.Valid() && k < |h.cursors| && h.numbuckets > 0
  }

  method NextEntry<K(==, !new), V(==)>(h: Hash<K, V>, k: nat, ghost p: Progress<Node<K, V>>) returns (r: Option<(K, V)>)
    requires Open(h, k) && Reached(p, h.lru, AheadOf(h.lru, h.cursors[k]), h.nodes)
    modifies h`cursors
    ensures Open(h, k) && |h.cursors| == |old(h.cursors)|
    ensures Advances(p, [Event.Next], h.lru, AheadOf(h.lru, h.cursors[k]), h.nodes)
    ensures r == if p.ahead == [] then None else Some((p.ahead[0].key, p.ahead[0].value))
  {
    NextAdvances(p, h.lru, AheadOf(h.lru, h.cursors[k]), h.nodes);
    r := NextAhead(h, k);
  }

  method NextAhead<K(==, !new), V(==)>(h: Hash<K, V>, k: nat) returns (r: Option<(K, V)>)
    requires Open(h, k)
    modifies h`cursors
    ensures Open(h, k) && |h.cursors| == |old(h.cursors)|
    ensures var ahead := AheadOf(h.lru, old(h.cursors)[k]);
            && r == (if ahead == [] then None else Some((ahead[0].key, ahead[0].value)))
            && AheadOf(h.lru, h.cursors[k]) == if ahead == [] then [] else ahead[1..]
  {
    hide Hash.Valid, AheadOf, SlotsAhead;
    r := h.IterNext(k);
  }

  method AddEntry<K(==, !new), V(==)>(h: Hash<K, V>, k: nat, key: K, value: V, ghost p: Progress<Node<K, V>>)
    returns (ghost es: seq<Event<Node<K, V>>>)
    requires Open(h, k) && Reached(p, h.lru, AheadOf(h.lru, h.cursors[k]), h.nodes)
    modifies h, h.nodes
    ensures Open(h, k) && fresh(h.nodes - old(h.nodes)) && |h.cursors| == |old(h.cursors)|
    ensures Advances(p, es, h.lru, AheadOf(h.lru, h.cursors[k]), h.nodes) && Run(p, es).returned == p.returned
  {
    ghost var el, n, joins := AddAhead(h, k, key, value);
    AddAdvances(p, p.order, p.ahead, old(h.nodes), n, el, joins, h.nodes);
    es := [Cut(p.order[..n]), Put(el, joins)];
  }

  method AddAhead<K(==, !new), V(==)>(h: Hash<K, V>, k: nat, key: K, value: V)
    returns (ghost el: Node<K, V>, ghost n: nat, ghost joins: bool)
    requires Open(h, k)
    modifies h, h.nodes
    ensures Open(h, k) && |h.cursors| == |old(h.cursors)|
    ensures fresh(el) && fresh(h.nodes - old(h.nodes)) && old(h.nodes) + {el} <= h.nodes && el !in old(h.nodes)
    ensures Distinct(old(h.lru)) && n <= |old(h.lru)| && h.lru == [el] + old(h.lru)[..n]
    ensures var ahead := Only(AheadOf(old(h.lru), old(h.cursors)[k]), old(h.lru)[..n]);
            AheadOf(h.lru, h.cursors[k]) == if joins then ahead + [el] else ahead
  {
    hide Hash.Entries, Hash.Extended, AheadOf, Only;
    ghost var kept, c, s := MakeRoom(h.lru, h.lruLimit), h.cursors[k], h.lru;
    n, joins := |kept|, c.lruFirst && Only(AheadOf(s, c), kept) != [];
    assert s[..n] == kept;
    h.Add(key, value);
    el := h.lru[0];
  }

  method DeleteEntry<K(==, !new), V(==)>(h: Hash<K, V>, k: nat, key: K, ghost p: Progress<Node<K, V>>)
    returns (ghost es: seq<Event<Node<K, V>>>)
    requires Open(h, k) && Reached(p, h.lru, AheadOf(h.lru, h.cursors[k]), h.nodes)
    modifies h, h.nodes
    ensures Open(h, k) && h.nodes == old(h.nodes) && |h.cursors| == |old(h.cursors)|
    ensures Advances(p, es, h.lru, AheadOf(h.lru, h.cursors[k]), h.nodes) && Run(p, es).returned == p.returned
  {
    DeleteAhead(h, k, key);
    CutAdvances(p, p.order, p.ahead, h.nodes, h.lru);
    es := [Cut(h.lru)];
  }

  method DeleteAhead<K(==, !new), V(==)>(h: Hash<K, V>, k: nat, key: K)
    requires Open(h, k)
    modifies h, h.nodes
    ensures Open(h, k) && h.nodes == old(h.nodes) && |h.cursors| == |old(h.cursors)|
    ensures Distinct(h.lru) && forall x :: x in h.lru ==> x in old(h.lru)
    ensures AheadOf(h.lru, h.cursors[k]) == Only(AheadOf(old(h.lru), old(h.cursors)[k]), h.lru)
  {
    hide Hash.Valid, Hash.Entries, Hash.Deleted, AheadOf, Only;
    var _ := h.Del(key);
    h.Counted();
    assert old(h.cursors)[k] == old(h.cursors[k]);
  }

  /** Iterator k, which has got as far as p. */
  ghost predicate Stands<K(!new), V>(h: Hash<K, V>, k: nat, p: Progress<Node<K, V>>)
    reads h, h.nodes
  {
    Open(h, k) && Reached(p, h.lru, AheadOf(h.lru, h.cursors[k]), h.nodes)
  }

  /** The entries stay as they are. */
  twostate predicate Undisturbed<K(!new), V>(h: Hash<K, V>)
    reads h
  {
    && h.lru == old(h.lru) && h.nodes == old(h.nodes)
    && h.slots == old(h.slots) && h.numbuckets == old(h.numbuckets)
  }

  method LookUp<K(==, !new), V(==)>(h: Hash<K, V>, k: nat, key: K) returns (r: Option<V>)
    requires h.Valid() && k < |h.cursors|
    modifies h, h.nodes
    ensures h.Valid() && k < |h.cursors| && Undisturbed(h) && h.cursors == old(h.cursors)
  {
    hide Hash.Valid, Hash.Entries, Hash.Fronted;
    r := h.Get(key);
  }

  /** Adding unless present is a lookup and an addition. */
  method AddMissing<K(==, !new), V(==)>(h: Hash<K, V>, k: nat, key: K, value: V, ghost p: Progress<Node<K, V>>)
    returns (ghost es: seq<Event<Node<K, V>>>)
    requires Stands(h, k, p)
    modifies h, h.nodes
    ensures Open(h, k) && fresh(h.nodes - old(h.nodes))
    ensures Advances(p, es, h.lru, AheadOf(h.lru, h.cursors[k]), h.nodes) && Run(p, es).returned == p.returned
  {
    var r := LookUp(h, k, key);
    if r.Some? {
      return [];
    }
    es := AddEntry(h, k, key, value, p);
  }

  /** An operation on the entries. */
  method Change<K(==, !new), V(==)>(h: Hash<K, V>, k: nat, op: Op<K, V>, ghost p: Progress<Node<K, V>>)
    returns (ghost es: seq<Event<Node<K, V>>>)
    requires Stands(h, k, p) && (op.Add? || op.AddUnique? || op.Delete?)
    modifies h, h.nodes
    ensures Open(h, k) && fresh(h.nodes - old(h.nodes))
    ensures Advances(p, es, h.lru, AheadOf(h.lru, h.cursors[k]), h.nodes) && Run(p, es).returned == p.returned
  {
    match op
    case Delete(key) => es := DeleteEntry(h, k, key, p);
    case AddUnique(key, value) => es := AddMissing(h, k, key, value, p);
    case Add(key, value) => es := AddEntry(h, k, key, value, p);
  }

  method StepOther<K(==, !new), V(==)>(h: Hash<K, V>, k: nat, other: nat)
    requires h.Valid() && k < |h.cursors|
    modifies h`cursors
    ensures h.Valid() && k < |h.cursors| && Undisturbed(h) && h.cursors[k] == old(h.cursors[k])
  {
    hide Hash.Valid, Hash.Entries, AheadOf, SlotsAhead;
    if other < |h.cursors| && other != k {
      var _ := h.IterNext(other);
    }
  }

  method OpenOther<K(==, !new), V(==)>(h: Hash<K, V>, k: nat, lruFirst: bool)
    requires h.Valid() && k < |h.cursors|
    modifies h`cursors
    ensures h.Valid() && k + 1 < |h.cursors| && Undisturbed(h) && h.cursors[k + 1] == old(h.cursors[k])
  {
    hide Hash.Valid, Hash.Entries, AheadOf, SlotsAhead, Reversed;
    var _ := h.IterInit(lruFirst);
  }

  method CloseOther<K(==, !new), V(==)>(h: Hash<K, V>, k: nat)
    requires h.Valid() && k < |h.cursors| && k > 0
    modifies h`cursors
    ensures h.Valid() && k - 1 < |h.cursors| && Undisturbed(h) && h.cursors[k - 1] == old(h.cursors[k])
  {
    hide Hash.Valid, Hash.Entries, AheadOf, SlotsAhead;
    h.IterDone(0);
  }

  /** Any other operation leaves alone what iterator k has ahead; the iterator may get another number. */
  method Beside<K(==, !new), V(==)>(h: Hash<K, V>, k: nat, op: Op<K, V>) returns (k': nat)
    requires h.Valid() && k < |h.cursors| && (op.NextOf? || op.OpenNew? || op.CloseNewest? || op.Get? || op.SetLimit?)
    modifies h, h.nodes
    ensures h.Valid() && k' < |h.cursors| && Undisturbed(h) && h.cursors[k'] == old(h.cursors[k])
  {
    hide Hash.Valid;
    match op
    case NextOf(other) =>
      StepOther(h, k, other);
      return k;
    case OpenNew(lruFirst) =>
      OpenOther(h, k, lruFirst);
      return k + 1;
    case CloseNewest =>
      if k == 0 {
        return 0;
      }
      CloseOther(h, k);
      return k - 1;
    case Get(key) =>
      var _ := LookUp(h, k, key);
      return k;
    case SetLimit(limit) =>
      var _ := h.SetLruLimit(limit);
      return k;
  }

  method NextStep<K(==, !new), V(==)>(h: Hash<K, V>, k: nat, ghost p: Progress<Node<K, V>>)
    returns (log: seq<(K, V)>, ghost es: seq<Event<Node<K, V>>>)
    requires Stands(h, k, p)
    modifies h`cursors
    ensures Open(h, k) && Advances(p, es, h.lru, AheadOf(h.lru, h.cursors[k]), h.nodes)
    ensures Pairs(Run(p, es).returned) == Pairs(p.returned) + log
  {
    NextAdvances(p, p.order, p.ahead, h.nodes);
    var r := NextEntry(h, k, p);
    log, es := if r.Some? then [r.value] else [], [Event.Next];
    NextLog(p, Run(p, es), log);
  }

  lemma NextLog<K, V>(p: Progress<Node<K, V>>, p': Progress<Node<K, V>>, log: seq<(K, V)>)
    requires p'.returned == if p.ahead == [] then p.returned else p.returned + [p.ahead[0]]
    requires log == if p.ahead == [] then [] else [(p.ahead[0].key, p.ahead[0].value)]
    ensures Pairs(p'.returned) == Pairs(p.returned) + log
  {
  }

  method Step<K(==, !new), V(==)>(h: Hash<K, V>, k: nat, op: Op<K, V>, ghost p: Progress<Node<K, V>>)
    returns (k': nat, log: seq<(K, V)>, ghost es: seq<Event<Node<K, V>>>)
    requires Stands(h, k, p)
    modifies h, h.nodes
    ensures Open(h, k') && fresh(h.nodes - old(h.nodes))
    ensures Advances(p, es, h.lru, AheadOf(h.lru, h.cursors[k']), h.nodes)
    ensures Pairs(Run(p, es).returned) == Pairs(p.returned) + log
  {
    if op.Next? {
      log, es := NextStep(h, k, p);
      return k, log, es;
    }
    if op.Add? || op.AddUnique? || op.Delete? {
      es := Change(h, k, op, p);
      return k, [], es;
    }
    k' := Beside(h, k, op);
    return k', [], [];
  }

  /** Everything that happens to a NORMAL hash while one of its iterators is open. */
  method Continue<K(==, !new), V(==)>(h: Hash<K, V>, k: nat, ops: seq<Op<K, V>>, ghost p: Progress<Node<K, V>>)
    returns (k': nat, log: seq<(K, V)>, ghost es: seq<Event<Node<K, V>>>)
    requires Stands(h, k, p)
    modifies h, h.nodes
    ensures Open(h, k') && fresh(h.nodes - old(h.nodes))
    ensures Advances(p, es, h.lru, AheadOf(h.lru, h.cursors[k']), h.nodes)
    ensures Pairs(Run(p, es).returned) == Pairs(p.returned) + log
    decreases |ops|
  {
    if ops == [] {
      return k, [], [];
    }
    var k1, first;
    ghost var es1, es2;
    k1, first, es1 := Step(h, k, ops[0], p);
    var rest;
    k', rest, es2 := Continue(h, k1, ops[1..], Run(p, es1));
    Join(p, es1, first, es2, rest, h.lru, AheadOf(h.lru, h.cursors[k']), h.nodes);
    return k', first + rest, es1 + es2;
  }

  lemma Join<K, V>(p: Progress<Node<K, V>>, es1: seq<Event<Node<K, V>>>, log1: seq<(K, V)>,
                   es2: seq<Event<Node<K, V>>>, log2: seq<(K, V)>,
                   order: seq<Node<K, V>>, ahead: seq<Node<K, V>>, ever: set<Node<K, V>>)
    requires AllAllowed(p, es1) && Pairs(Run(p, es1).returned) == Pairs(p.returned) + log1
    requires Advances(Run(p, es1), es2, order, ahead, ever)
    requires Pairs(Run(Run(p, es1), es2).returned) == Pairs(Run(p, es1).returned) + log2
    ensures Advances(p, es1 + es2, order, ahead, ever)
    ensures Pairs(Run(p, es1 + es2).returned) == Pairs(p.returned) + (log1 + log2)
  {
    RunConcat(p, es1, es2);
  }

  /**
   A whole iteration over a NORMAL hash, in either direction, whatever is done meanwhile: the log holds no
   element twice, and when nothing is ahead any more, every element that was there throughout.
   */
  method Iterate<K(==, !new), V(==)>(h: Hash<K, V>, lruFirst: bool, ops: seq<Op<K, V>>)
    returns (k: nat, log: seq<(K, V)>, ghost returned: seq<Node<K, V>>)
    requires h.Valid() && h.numbuckets > 0
    modifies h, h.nodes
    ensures Open(h, k) && log == Pairs(returned) && Distinct(returned)
    ensures AheadOf(h.lru, h.cursors[k]) == [] ==> forall x :: x in old(h.lru) && x in h.lru ==> x in returned
  {
    ghost var s := h.lru;
    ghost var es;
    k, log, es := IterateFrom(h, lruFirst, ops, s, Start(s, lruFirst));
    returned := Run(Start(s, lruFirst), es).returned;
    Finished(s, lruFirst, es, h.lru, AheadOf(h.lru, h.cursors[k]), h.nodes);
  }

  method IterateFrom<K(==, !new), V(==)>(h: Hash<K, V>, lruFirst: bool, ops: seq<Op<K, V>>,
                                         ghost s: seq<Node<K, V>>, ghost p: Progress<Node<K, V>>)
    returns (k: nat, log: seq<(K, V)>, ghost es: seq<Event<Node<K, V>>>)
    requires h.Valid() && h.numbuckets > 0 && s == h.lru && p == Start(s, lruFirst)
    modifies h, h.nodes
    ensures Open(h, k) && Distinct(s) && Advances(p, es, h.lru, AheadOf(h.lru, h.cursors[k]), h.nodes)
    ensures log == Pairs(Run(p, es).returned)
  {
    OpenFirst(h, lruFirst, p);
    k, log, es := Continue(h, 0, ops, p);
    WholeLog(p, Run(p, es), log);
  }

  lemma WholeLog<K, V>(p: Progress<Node<K, V>>, p': Progress<Node<K, V>>, log: seq<(K, V)>)
    requires p.returned == [] && Pairs(p'.returned) == Pairs(p.returned) + log
    ensures log == Pairs(p'.returned)
  {
  }

  lemma Finished<T>(s: seq<T>, lruFirst: bool, es: seq<Event<T>>, order: seq<T>, ahead: seq<T>, ever: set<T>)
    requires Distinct(s) && Advances(Start(s, lruFirst), es, order, ahead, ever)
    ensures Distinct(Run(Start(s, lruFirst), es).returned)
    ensures ahead == [] ==> forall x :: x in s && x in order ==> x in Run(Start(s, lruFirst), es).returned
  {
    EachReturnedOnce(s, lruFirst, es);
  }

  method OpenFirst<K(==, !new), V(==)>(h: Hash<K, V>, lruFirst: bool, ghost p: Progress<Node<K, V>>)
    requires h.Valid() && h.numbuckets > 0 && p == Start(h.lru, lruFirst)
    modifies h`cursors
    ensures Stands(h, 0, p) && Distinct(h.lru) && h.lru == old(h.lru) && h.nodes == old(h.nodes)
  {
    OpenAhead(h, lruFirst);
  }

  method OpenAhead<K(==, !new), V(==)>(h: Hash<K, V>, lruFirst: bool)
    requires h.Valid() && h.numbuckets > 0
    modifies h`cursors
    ensures Open(h, 0) && Distinct(h.lru)
    ensures AheadOf(h.lru, h.cursors[0]) == if lruFirst then Reversed(h.lru) else h.lru
  {
    hide Hash.Valid, Hash.Entries, AheadOf, SlotsAhead, Reversed;
    h.Counted();
    var _ := h.IterInit(lruFirst);
  }

  // ----- TINY mode -----

  /**
   An iterator of a TINY hash has got as far as p, over the entries' numbers: entry n is the n-th ever made,
   so that two entries with the same key and value are told apart.
   */
  ghost predicate NumbersOf<K, V>(slots: seq<(K, V)>, c: Cursor<K, V>, ids: seq<nat>, made: seq<(K, V)>,
                                  p: Progress<nat>)
  {
    && |ids| == |slots| && Distinct(ids) && InRange(ids, c)
    && (forall i :: 0 <= i < |ids| ==> ids[i] < |made| && made[ids[i]] == slots[i])
    && (forall x :: x in p.order <==> x in ids) && Distinct(p.order)
    && p.ahead == SlotsAhead(ids, c)
    && (forall x :: x in p.seen ==> x < |made|)
    && (forall i :: 0 <= i < |p.returned| ==> p.returned[i] < |made|)
  }

  /** The entries with these numbers. */
  ghost function Made<K, V>(made: seq<(K, V)>, ns: seq<nat>): (r: seq<(K, V)>)
    requires forall i :: 0 <= i < |ns| ==> ns[i] < |made|
    ensures |r| == |ns| && forall i :: 0 <= i < |ns| ==> r[i] == made[ns[i]]
  {
    seq(|ns|, i requires 0 <= i < |ns| => made[ns[i]])
  }

  lemma TinyNextStep<K, V>(slots: seq<(K, V)>, c: Cursor<K, V>, ids: seq<nat>, made: seq<(K, V)>, p: Progress<nat>)
    requires NumbersOf(slots, c, ids, made, p)
    ensures p.ahead == [] <==> SlotsAhead(slots, c) == []
    ensures p.ahead != [] ==> p.ahead[0] < |made| && SlotsAhead(slots, c)[0] == made[p.ahead[0]]
    ensures p.ahead != [] ==> NumbersOf(slots, Stepped(c), ids, made, Apply(p, Event.Next))
  {
    if 0 <= c.itemNumber < |ids| {
      SlotsAheadStep(ids, c);
      SlotsAheadStep(slots, c);
    }
  }

  lemma TinyAddStep<K, V>(slots: seq<(K, V)>, c: Cursor<K, V>, ids: seq<nat>, made: seq<(K, V)>,
                          p: Progress<nat>, e: (K, V))
    requires NumbersOf(slots, c, ids, made, p)
    ensures var put := Put(|made|, c.lruFirst);
            Allowed(p, put) && NumbersOf(slots + [e], c, ids + [|made|], made + [e], Apply(p, put))
  {
    var n: nat := |made|;
    SlotsAppended<nat, K, V>(ids, c, n);
    DistinctAppend(ids, n);
    DistinctCons(n, p.order);
  }

  lemma TinyDeleteStep<K, V>(slots: seq<(K, V)>, c: Cursor<K, V>, ids: seq<nat>, made: seq<(K, V)>,
                             p: Progress<nat>, i: nat)
    requires NumbersOf(slots, c, ids, made, p) && i < |slots|
    ensures var cut := Cut(Without(ids, i));
            Allowed(p, cut) && NumbersOf(Without(slots, i), Shifted(c, i), Without(ids, i), made, Apply(p, cut))
  {
    var w := Without(ids, i);
    SlotsDeleted(ids, c, i);
    assert forall j :: 0 <= j < |w| ==> w[j] == ids[if j < i then j else j + 1];
    assert forall j :: 0 <= j < |w| ==> Without(slots, i)[j] == slots[if j < i then j else j + 1];
  }

  datatype Track<K, V> = Track(ids: seq<nat>, made: seq<(K, V)>, p: Progress<nat>)

  /** Iterator k of a TINY hash is where the track says. */
  ghost predicate OnTrack<K(!new), V>(h: Hash<K, V>, k: nat, t: Track<K, V>)
    reads h, h.nodes
  {
    h.Valid() && h.numbuckets == 0 && k < |h.cursors| && NumbersOf(h.slots, h.cursors[k], t.ids, t.made, t.p)
  }

  /** The entries returned so far. */
  ghost function LogOf<K, V>(t: Track<K, V>): seq<(K, V)>
    requires forall i :: 0 <= i < |t.p.returned| ==> t.p.returned[i] < |t.made|
  {
    Made(t.made, t.p.returned)
  }

  /** One track continues another by allowed events; entries keep their numbers. */
  ghost predicate Continues<K, V>(t: Track<K, V>, es: seq<Event<nat>>, t': Track<K, V>) {
    AllAllowed(t.p, es) && t'.p == Run(t.p, es) && t.made <= t'.made
  }

  method TinyNext<K(==, !new), V(==)>(h: Hash<K, V>, k: nat, ghost t: Track<K, V>)
    returns (r: Option<(K, V)>, ghost t': Track<K, V>, ghost es: seq<Event<nat>>)
    requires OnTrack(h, k, t)
    modifies h`cursors
    ensures OnTrack(h, k, t') && Continues(t, es, t')
    ensures LogOf(t') == LogOf(t) + if r.Some? then [r.value] else []
    ensures r == None <==> t.p.ahead == []
  {
    TinyNextStep(h.slots, h.cursors[k], t.ids, t.made, t.p);
    r := TinyNextAhead(h, k);
    es, t' := [Event.Next], t.(p := Apply(t.p, Event.Next));
    RunOne(t.p, Event.Next);
  }

  method TinyNextAhead<K(==, !new), V(==)>(h: Hash<K, V>, k: nat) returns (r: Option<(K, V)>)
    requires h.Valid() && h.numbuckets == 0 && k < |h.cursors|
    modifies h`cursors
    ensures h.Valid() && |h.cursors| == |old(h.cursors)|
    ensures var ahead := SlotsAhead(h.slots, old(h.cursors)[k]); r == if ahead == [] then None else Some(ahead[0])
    ensures h.cursors[k] == if r == None then old(h.cursors)[k] else Stepped(old(h.cursors)[k])
  {
    hide Hash.Valid, AheadOf, SlotsAhead;
    r := h.IterNext(k);
  }

  method TinyAdd<K(==, !new), V(==)>(h: Hash<K, V>, k: nat, key: K, value: V, ghost t: Track<K, V>)
    returns (ghost t': Track<K, V>, ghost es: seq<Event<nat>>)
    requires OnTrack(h, k, t) && h.HasSlot()
    modifies h, h.nodes
    ensures OnTrack(h, k, t') && Continues(t, es, t') && LogOf(t') == LogOf(t)
  {
    ghost var c, e, n := h.cursors[k], (key, value), |t.made|;
    TinyAddStep(h.slots, c, t.ids, t.made, t.p, e);
    h.Add(key, value);
    es := [Put(n, c.lruFirst)];
    t' := Track(t.ids + [n], t.made + [e], Apply(t.p, Put(n, c.lruFirst)));
    RunOne(t.p, Put(n, c.lruFirst));
    SameLog(t, t');
  }

  lemma SameLog<K, V>(t: Track<K, V>, t': Track<K, V>)
    requires t'.p.returned == t.p.returned && t.made <= t'.made
    requires forall i :: 0 <= i < |t.p.returned| ==> t.p.returned[i] < |t.made|
    ensures LogOf(t') == LogOf(t)
  {
  }

  method TinyDelete<K(==, !new), V(==)>(h: Hash<K, V>, k: nat, key: K, ghost t: Track<K, V>)
    returns (ghost t': Track<K, V>, ghost es: seq<Event<nat>>)
    requires OnTrack(h, k, t)
    modifies h, h.nodes
    ensures OnTrack(h, k, t') && Continues(t, es, t') && LogOf(t') == LogOf(t)
  {
    ghost var i, c := Find(h.slots, key), h.cursors[k];
    if i < |h.slots| {
      TinyDeleteStep(h.slots, c, t.ids, t.made, t.p, i);
    }
    var ok := TinyDeleteAt(h, k, key);
    if !ok {
      return t, [];
    }
    ghost var cut := Cut(Without(t.ids, i));
    es, t' := [cut], Track(Without(t.ids, i), t.made, Apply(t.p, cut));
    RunOne(t.p, cut);
  }

  method TinyDeleteAt<K(==, !new), V(==)>(h: Hash<K, V>, k: nat, key: K) returns (ok: bool)
    requires h.Valid() && h.numbuckets == 0 && k < |h.cursors|
    modifies h, h.nodes
    ensures h.Valid() && h.numbuckets == 0 && |h.cursors| == |old(h.cursors)|
    ensures ok <==> Find(old(h.slots), key) < |old(h.slots)|
    ensures ok ==> h.slots == Without(old(h.slots), Find(old(h.slots), key))
    ensures ok ==> h.cursors[k] == Shifted(old(h.cursors)[k], Find(old(h.slots), key))
    ensures !ok ==> h.slots == old(h.slots) && h.cursors == old(h.cursors)
  {
    hide Hash.Valid;
    ok := h.Del(key);
  }

  /** Whether the operation would switch the hash to buckets. */
  predicate Switches<K(!new), V>(h: Hash<K, V>, op: Op<K, V>)
    reads h
  {
    (op.Add? || op.AddUnique?) && !h.HasSlot()
  }

  method TinyStep<K(==, !new), V(==)>(h: Hash<K, V>, k: nat, op: Op<K, V>, ghost t: Track<K, V>)
    returns (k': nat, log: seq<(K, V)>, ghost t': Track<K, V>, ghost es: seq<Event<nat>>)
    requires OnTrack(h, k, t) && !Switches(h, op)
    modifies h, h.nodes
    ensures OnTrack(h, k', t') && Continues(t, es, t') && LogOf(t') == LogOf(t) + log
  {
    k', log := k, [];
    match op
    case Next =>
      var r;
      r, t', es := TinyNext(h, k, t);
      log := if r.Some? then [r.value] else [];
    case Add(key, value) => t', es := TinyAdd(h, k, key, value, t);
    case AddUnique(key, value) => t', es := TinyAddMissing(h, k, key, value, t);
    case Delete(key) => t', es := TinyDelete(h, k, key, t);
    case _ =>
      k' := Beside(h, k, op);
      t', es := t, [];
  }

  method TinyAddMissing<K(==, !new), V(==)>(h: Hash<K, V>, k: nat, key: K, value: V, ghost t: Track<K, V>)
    returns (ghost t': Track<K, V>, ghost es: seq<Event<nat>>)
    requires OnTrack(h, k, t) && h.HasSlot()
    modifies h, h.nodes
    ensures OnTrack(h, k, t') && Continues(t, es, t') && LogOf(t') == LogOf(t)
  {
    var r := LookUp(h, k, key);
    if r.Some? {
      return t, [];
    }
    t', es := TinyAdd(h, k, key, value, t);
  }

  /** Everything that happens to a TINY hash while one of its iterators is open, up to the switch to buckets. */
  method TinyContinue<K(==, !new), V(==)>(h: Hash<K, V>, k: nat, ops: seq<Op<K, V>>, ghost t: Track<K, V>)
    returns (k': nat, log: seq<(K, V)>, ghost t': Track<K, V>, ghost es: seq<Event<nat>>)
    requires OnTrack(h, k, t)
    modifies h, h.nodes
    ensures OnTrack(h, k', t') && Continues(t, es, t') && LogOf(t') == LogOf(t) + log
    decreases |ops|
  {
    if ops == [] || Switches(h, ops[0]) {
      return k, [], t, [];
    }
    var k1, first, rest;
    ghost var t1, es1, es2;
    k1, first, t1, es1 := TinyStep(h, k, ops[0], t);
    k', rest, t', es2 := TinyContinue(h, k1, ops[1..], t1);
    log, es := first + rest, es1 + es2;
    JoinTracks(t, es1, t1, first, es2, t', rest);
  }

  ghost predicate Logged<K, V>(t: Track<K, V>) {
    forall i :: 0 <= i < |t.p.returned| ==> t.p.returned[i] < |t.made|
  }

  lemma JoinTracks<K, V>(t: Track<K, V>, es1: seq<Event<nat>>, t1: Track<K, V>, log1: seq<(K, V)>,
                         es2: seq<Event<nat>>, t2: Track<K, V>, log2: seq<(K, V)>)
    requires Continues(t, es1, t1) && Continues(t1, es2, t2) && Logged(t) && Logged(t1) && Logged(t2)
    requires LogOf(t1) == LogOf(t) + log1 && LogOf(t2) == LogOf(t1) + log2
    ensures Continues(t, es1 + es2, t2) && LogOf(t2) == LogOf(t) + (log1 + log2)
  {
    RunConcat(t.p, es1, es2);
  }

  /**
   A whole iteration over a TINY hash, in either direction, whatever is done meanwhile short of the switch:
   the log holds no entry twice, even among equal ones, and when nothing is ahead any more, every entry that
   was there throughout. The track's numbers tell the entries apart.
   */
  method TinyIterate<K(==, !new), V(==)>(h: Hash<K, V>, lruFirst: bool, ops: seq<Op<K, V>>)
    returns (k: nat, log: seq<(K, V)>, ghost t: Track<K, V>)
    requires h.Valid() && h.numbuckets == 0
    modifies h, h.nodes
    ensures OnTrack(h, k, t) && old(h.slots) <= t.made && log == LogOf(t) && Distinct(t.p.returned)
    ensures SlotsAhead(h.slots, h.cursors[k]) == [] ==>
              forall x :: 0 <= x < |old(h.slots)| && x in t.ids ==> x in t.p.returned
  {
    hide Hash.Valid, NumbersOf;
    ghost var s := h.slots;
    ghost var start, es := TinyStart(s, lruFirst), [];
    TinyOpen(h, lruFirst, start);
    k, log, t, es := TinyContinue(h, 0, ops, start);
    NumbersLogged(h.slots, h.cursors[k], t);
    TinyFinished(s, lruFirst, es, t, h.slots, h.cursors[k]);
  }

  /** Where a new iterator starts from. */
  ghost function TinyStart<K, V>(slots: seq<(K, V)>, lruFirst: bool): Track<K, V> {
    var ids := FirstNumbers(|slots|);
    Track(ids, slots, Start(ids, !lruFirst))
  }

  method TinyOpen<K(==, !new), V(==)>(h: Hash<K, V>, lruFirst: bool, ghost start: Track<K, V>)
    requires h.Valid() && h.numbuckets == 0 && start == TinyStart(h.slots, lruFirst)
    modifies h`cursors
    ensures OnTrack(h, 0, start) && Logged(start) && LogOf(start) == []
  {
    hide Hash.Valid, NumbersOf;
    var _ := h.IterInit(lruFirst);
    StartNumbers(h.slots, h.cursors[0], start);
  }

  lemma NumbersLogged<K, V>(slots: seq<(K, V)>, c: Cursor<K, V>, t: Track<K, V>)
    requires NumbersOf(slots, c, t.ids, t.made, t.p)
    ensures Logged(t)
  {
  }

  lemma TinyFinished<K, V>(slots0: seq<(K, V)>, lruFirst: bool, es: seq<Event<nat>>, t: Track<K, V>,
                           slots: seq<(K, V)>, c: Cursor<K, V>)
    requires Continues(TinyStart(slots0, lruFirst), es, t) && NumbersOf(slots, c, t.ids, t.made, t.p)
    ensures slots0 <= t.made && Distinct(t.p.returned)
    ensures SlotsAhead(slots, c) == [] ==> forall x :: 0 <= x < |slots0| && x in t.ids ==> x in t.p.returned
  {
    var ids := FirstNumbers(|slots0|);
    EachReturnedOnce(ids, !lruFirst, es);
    TinyNextStep(slots, c, t.ids, t.made, t.p);
    forall x | 0 <= x < |slots0| && x in t.ids && SlotsAhead(slots, c) == [] ensures x in t.p.returned {
      assert ids[x] == x;
    }
  }

  ghost function FirstNumbers(n: nat): (r: seq<nat>)
    ensures |r| == n && forall i :: 0 <= i < n ==> r[i] == i
  {
    seq(n, i => i)
  }

  lemma StartNumbers<K, V>(slots: seq<(K, V)>, c: Cursor<K, V>, t: Track<K, V>)
    requires t.made == slots && t.ids == FirstNumbers(|slots|) && t.p == Start(t.ids, !c.lruFirst)
    requires c.itemNumber == if c.lruFirst then 0 else |slots| - 1
    ensures NumbersOf(slots, c, t.ids, t.made, t.p)
  {
    SlotsWhole<nat, K, V>(t.ids, c);
  }

  // ----- The switch to buckets -----

  lemma {:induction false} PairsReversed<K, V>(s: seq<Node<K, V>>)
    ensures Pairs(Reversed(s)) == Reversed(Pairs(s)) && |Reversed(s)| == |s|
  {
    if s != [] {
      PairsReversed(s[1..]);
      assert Pairs(s)[1..] == Pairs(s[1..]);
    }
  }

  /** An iterator of a TINY hash after its four entries moved into buckets. */
  ghost function Moved<K, V>(s: seq<Node<K, V>>, c: Cursor<K, V>): Cursor<K, V> {
    c.(location := At(s, c.itemNumber))
  }

  /**
   The switch turns an iterator round: from its own entry on it goes the other way. What it has ahead stays
   the same if and only if it had nothing ahead.
   */
  lemma SwitchTurnsRound<K, V>(s: seq<Node<K, V>>, c: Cursor<K, V>)
    requires Distinct(s) && |s| == IH_VALUES
    ensures var n := c.itemNumber;
            0 <= n < |s| ==>
              && SlotsAhead(Pairs(s), c) == (if c.lruFirst then Pairs(s)[n..] else Reversed(Pairs(s)[..n + 1]))
              && Pairs(AheadOf(s, Moved(s, c))) == (if c.lruFirst then Reversed(Pairs(s)[..n + 1]) else Pairs(s)[n..])
    ensures Pairs(AheadOf(s, Moved(s, c))) == SlotsAhead(Pairs(s), c) <==> SlotsAhead(Pairs(s), c) == []
  {
    var n := c.itemNumber;
    if 0 <= n < |s| {
      AheadAt(s, n, c.lruFirst);
      assert Pairs(s)[..n + 1] == Pairs(s[..n + 1]) && Pairs(s)[n..] == Pairs(s[n..]);
      PairsReversed(s[..n + 1]);
      assert |Pairs(s)[n..]| == |s| - n && |Reversed(Pairs(s)[..n + 1])| == n + 1;
      assert n + 1 != |s| - n;
    }
  }

  /** The iterators of a full TINY hash at the switch. */
  method Switch<K(==, !new), V(==)>(h: Hash<K, V>)
    requires h.Valid() && h.numbuckets == 0 && h.numelements == IH_VALUES
    modifies h
    ensures h.Valid() && h.numbuckets > 0 && h.Entries() == old(h.slots) && |h.cursors| == |old(h.cursors)|
    ensures forall k :: 0 <= k < |h.cursors| ==>
              (Pairs(AheadOf(h.lru, h.cursors[k])) == SlotsAhead(old(h.slots), old(h.cursors)[k]) <==>
               SlotsAhead(old(h.slots), old(h.cursors)[k]) == [])
  {
    ghost var slots, cs := h.slots, h.cursors;
    h.ExpandTiny();
    forall k | 0 <= k < |cs|
      ensures Pairs(AheadOf(h.lru, h.cursors[k])) == SlotsAhead(slots, cs[k]) <==> SlotsAhead(slots, cs[k]) == []
    {
      SwitchTurnsRound(h.lru, cs[k]);
    }
  }

  /** An upward iterator that has returned the first of four entries: 3 and 4 are lost, and 1 comes again. */
  lemma FirstComesAgain(s: seq<Node<int, int>>, c: Cursor<int, int>)
    requires Distinct(s) && Pairs(s) == [(1, 1), (2, 2), (3, 3), (4, 4)] && c.lruFirst && c.itemNumber == 1
    ensures SlotsAhead(Pairs(s), c) == [(2, 2), (3, 3), (4, 4)]
    ensures Pairs(AheadOf(s, Moved(s, c))) == [(2, 2), (1, 1)]
  {
    SwitchTurnsRound(s, c);
    var first := Pairs(s)[..2];
    var rest := first[1..];
    assert first == [(1, 1), (2, 2)] && rest == [(2, 2)] && rest[1..] == [];
    assert Reversed(rest) == Reversed(rest[1..]) + [rest[0]] == [(2, 2)];
    assert Reversed(first) == Reversed(rest) + [first[0]];
  }
}
