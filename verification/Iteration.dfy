/** Whole iterations: what is returned while entries come and go (libasn1common/genhash.c:600-671). */
module Iteration {
  import opened NodeLists
  import opened HashModel
  import opened Genhash

  /** The list, what one iterator has ahead, what it returned, and everything that was ever in the list. */
  datatype Progress<T> = Progress(order: seq<T>, ahead: seq<T>, returned: seq<T>, seen: seq<T>)

  /**
   Next returns an element; Cut removes elements (a deletion, an eviction or several); Put adds a new one
   on top, which may join what is ahead.
   */
  datatype Event<T> = Next | Cut(left: seq<T>) | Put(x: T, joins: bool)

  ghost predicate Allowed<T>(p: Progress<T>, e: Event<T>) {
    match e
    case Next => true
    case Cut(left) => Distinct(left) && forall x :: x in left ==> x in p.order
    case Put(x, _) => x !in p.seen
  }

  ghost function Apply<T>(p: Progress<T>, e: Event<T>): Progress<T> {
    match e
    case Next => if p.ahead == [] then p else p.(ahead := p.ahead[1..], returned := p.returned + [p.ahead[0]])
    case Cut(left) => p.(order := left, ahead := Only(p.ahead, left))
    case Put(x, joins) =>
      Progress([x] + p.order, if joins then p.ahead + [x] else p.ahead, p.returned, [x] + p.seen)
  }

  ghost predicate AllAllowed<T>(p: Progress<T>, es: seq<Event<T>>)
    decreases |es|
  {
    es == [] || (Allowed(p, es[0]) && AllAllowed(Apply(p, es[0]), es[1..]))
  }

  ghost function Run<T>(p: Progress<T>, es: seq<Event<T>>): Progress<T>
    decreases |es|
  {
    if es == [] then p else Run(Apply(p, es[0]), es[1..])
  }

  /** Nothing is handed out twice, what is ahead is in the list, and no element of s still there was skipped. */
  ghost predicate Sound<T>(s: seq<T>, p: Progress<T>) {
    && Distinct(p.order) && Distinct(p.returned + p.ahead)
    && (forall x :: x in p.ahead ==> x in p.order)
    && (forall x :: x in p.order ==> x in p.seen)
    && (forall x :: x in p.returned ==> x in p.seen)
    && (forall x :: x in s ==> x in p.seen)
    && (forall x :: x in s && x in p.order ==> x in p.returned || x in p.ahead)
  }

  lemma {:induction false} OnlyHas<T>(s: seq<T>, t: seq<T>, x: T)
    ensures x in Only(s, t) <==> x in s && x in t
  {
    if s != [] {
      OnlyHas(s[1..], t, x);
    }
  }

  lemma {:induction false} OnlyDistinct<T>(a: seq<T>, s: seq<T>, t: seq<T>)
    requires Distinct(a + s)
    ensures Distinct(a + Only(s, t))
    decreases |s|
  {
    if s != [] {
      if s[0] in t {
        assert (a + [s[0]]) + s[1..] == a + s;
        OnlyDistinct(a + [s[0]], s[1..], t);
        assert (a + [s[0]]) + Only(s[1..], t) == a + Only(s, t);
      } else {
        var u := a + s[1..];
        assert forall i :: 0 <= i < |u| ==> u[i] == (a + s)[if i < |a| then i else i + 1];
        OnlyDistinct(a, s[1..], t);
      }
    }
  }

  lemma SoundStep<T>(s: seq<T>, p: Progress<T>, e: Event<T>)
    requires Sound(s, p) && Allowed(p, e)
    ensures Sound(s, Apply(p, e))
  {
    match e
    case Next =>
      if p.ahead != [] {
        assert (p.returned + [p.ahead[0]]) + p.ahead[1..] == p.returned + p.ahead;
        assert p.ahead == [p.ahead[0]] + p.ahead[1..];
      }
    case Cut(left) =>
      OnlyDistinct(p.returned, p.ahead, left);
      forall x | x in Only(p.ahead, left) ensures x in p.ahead && x in left {
        OnlyHas(p.ahead, left, x);
      }
      forall x | x in p.ahead && x in left ensures x in Only(p.ahead, left) {
        OnlyHas(p.ahead, left, x);
      }
    case Put(x, joins) =>
      DistinctCons(x, p.order);
      if joins {
        DistinctAppend(p.returned + p.ahead, x);
        assert p.returned + (p.ahead + [x]) == (p.returned + p.ahead) + [x];
      }
  }

  lemma DistinctAppend<T>(s: seq<T>, x: T)
    requires Distinct(s) && x !in s
    ensures Distinct(s + [x])
  {
  }

  lemma {:induction false} SoundRun<T>(s: seq<T>, p: Progress<T>, es: seq<Event<T>>)
    requires Sound(s, p) && AllAllowed(p, es)
    ensures Sound(s, Run(p, es))
    decreases |es|
  {
    if es != [] {
      SoundStep(s, p, es[0]);
      SoundRun(s, Apply(p, es[0]), es[1..]);
    }
  }

  /** A new iteration over s. */
  ghost function Start<T>(s: seq<T>, lruFirst: bool): Progress<T> {
    Progress(s, if lruFirst then Reversed(s) else s, [], s)
  }

  lemma StartSound<T>(s: seq<T>, lruFirst: bool)
    requires Distinct(s)
    ensures Sound(s, Start(s, lruFirst))
  {
    ReversedDistinct(s);
    forall x | x in Reversed(s) ensures x in s {
      ReversedHas(s, x);
    }
    forall x | x in s ensures x in Reversed(s) {
      ReversedHas(s, x);
    }
    var p := Start(s, lruFirst);
    assert p.returned + p.ahead == p.ahead;
  }

  /** No element returned twice; and once nothing is ahead, every one of s that is still there was returned. */
  ghost predicate ReturnedOnce<T>(s: seq<T>, p: Progress<T>) {
    Distinct(p.returned) && (p.ahead == [] ==> forall x :: x in s && x in p.order ==> x in p.returned)
  }

  lemma SoundReturnsOnce<T>(s: seq<T>, p: Progress<T>)
    requires Sound(s, p)
    ensures ReturnedOnce(s, p)
  {
    DistinctPart(p.returned + p.ahead, 0, |p.returned|);
    assert (p.returned + p.ahead)[0..|p.returned|] == p.returned;
  }

  /**
   Whatever is deleted, evicted and added while an iterator runs, in either direction: no element is
   returned twice, and when nothing is ahead any more, every element that was in the list from the start
   to the end has been returned.
   */
  lemma EachReturnedOnce<T>(s: seq<T>, lruFirst: bool, es: seq<Event<T>>)
    requires Distinct(s) && AllAllowed(Start(s, lruFirst), es)
    ensures ReturnedOnce(s, Run(Start(s, lruFirst), es))
  {
    StartSound(s, lruFirst);
    SoundRun(s, Start(s, lruFirst), es);
    SoundReturnsOnce(s, Run(Start(s, lruFirst), es));
  }

  // ----- TINY mode moves the same way -----

  /** A TINY iterator's slot number never leaves the slots by more than one. */
  ghost predicate InRange<T, K, V>(slots: seq<T>, c: Cursor<K, V>) {
    if c.lruFirst then 0 <= c.itemNumber <= |slots| else -1 <= c.itemNumber < |slots|
  }

  lemma OnlyForward<T>(s: seq<T>, i: nat, n: nat)
    requires Distinct(s) && i < |s| && n < |s|
    ensures Only(s[n..], Without(s, i)) == Drop(s[n..], s[i])
  {
    WithoutIsDrop(s, i);
    DistinctPart(s, n, |s|);
    OnlyDrop(s[n..], s, s[i]);
  }

  lemma OnlyBackward<T>(s: seq<T>, i: nat, n: nat)
    requires Distinct(s) && i < |s| && n < |s|
    ensures Only(Reversed(s[..n + 1]), Without(s, i)) == Drop(Reversed(s[..n + 1]), s[i])
  {
    WithoutIsDrop(s, i);
    var part := s[..n + 1];
    DistinctPart(s, 0, n + 1);
    assert s[0..n + 1] == part;
    ReversedDistinct(part);
    forall x | x in Reversed(part) ensures x in s {
      ReversedHas(part, x);
    }
    OnlyDrop(Reversed(part), s, s[i]);
  }

  /** Deleting slot i while iterators run is a Cut. */
  lemma SlotsDeleted<T, K, V>(slots: seq<T>, c: Cursor<K, V>, i: nat)
    requires Distinct(slots) && i < |slots| && InRange(slots, c)
    ensures InRange(Without(slots, i), Shifted(c, i))
    ensures SlotsAhead(Without(slots, i), Shifted(c, i)) == Only(SlotsAhead(slots, c), Without(slots, i))
  {
    var n := c.itemNumber;
    if 0 <= n < |slots| {
      if c.lruFirst {
        OnlyForward(slots, i, n);
        DropForward(slots, i, n);
      } else {
        OnlyBackward(slots, i, n);
        ReversedDrop(slots[..n + 1], slots[i]);
        DropBackward(slots, i, n);
      }
    }
  }

  /** Adding a slot is a Put that joins the iterators going up, even ended ones. */
  lemma SlotsAppended<T, K, V>(slots: seq<T>, c: Cursor<K, V>, e: T)
    requires InRange(slots, c)
    ensures InRange(slots + [e], c)
    ensures SlotsAhead(slots + [e], c) == if c.lruFirst then SlotsAhead(slots, c) + [e] else SlotsAhead(slots, c)
  {
    var n := c.itemNumber;
    if 0 <= n < |slots| && !c.lruFirst {
      assert (slots + [e])[..n + 1] == slots[..n + 1];
    }
  }

  lemma {:induction false} RunConcat<T>(p: Progress<T>, a: seq<Event<T>>, b: seq<Event<T>>)
    ensures Run(p, a + b) == Run(Run(p, a), b)
    ensures AllAllowed(p, a) && AllAllowed(Run(p, a), b) ==> AllAllowed(p, a + b)
    decreases |a|
  {
    if a == [] {
      assert a + b == b;
    } else {
      assert (a + b)[1..] == a[1..] + b;
      RunConcat(Apply(p, a[0]), a[1..], b);
    }
  }

  lemma RunOne<T>(p: Progress<T>, e: Event<T>)
    ensures Run(p, [e]) == Apply(p, e) && (AllAllowed(p, [e]) <==> Allowed(p, e))
  {
    assert [e][1..] == [];
  }
}
