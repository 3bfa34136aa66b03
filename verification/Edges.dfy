/**
 Edges and pieces of a constraint range: an integer or one of the two marks MIN and MAX,
 and a closed interval between two edges.  Integers have the width of `intmax_t`.
 */
module Edges {
  const INTMAX_MIN: int := -0x8000_0000_0000_0000
  const INTMAX_MAX: int := 0x7FFF_FFFF_FFFF_FFFF

  type intmax = v: int | INTMAX_MIN <= v <= INTMAX_MAX

  datatype Edge = Min | Max | Value(value: intmax)

  /** Places edges on the number line: MIN just below every `intmax`, MAX just above. */
  ghost function Key(e: Edge): (k: int)
    ensures k < INTMAX_MIN <==> e.Min?
    ensures k > INTMAX_MAX <==> e.Max?
  {
    match e
    case Min => INTMAX_MIN - 1
    case Max => INTMAX_MAX + 1
    case Value(v) => v
  }

  function EdgeCompare(el: Edge, er: Edge): (r: int)
    ensures r < 0 <==> Key(el) < Key(er)
    ensures r > 0 <==> Key(el) > Key(er)
    ensures r == 0 <==> el == er
  {
    match (el, er)
    case (Min, Min) => 0
    case (Min, _) => -1
    case (Max, Max) => 0
    case (Max, _) => 1
    case (Value(_), Min) => 1
    case (Value(_), Max) => -1
    case (Value(x), Value(y)) => if x < y then -1 else if x > y then 1 else 0
  }

  /** A range without children. */
  datatype Piece = Piece(left: Edge, right: Edge)

  function PartialCompare(ra: Piece, rb: Piece): int { EdgeCompare(ra.left, rb.left) }

  function PieceCompare(ra: Piece, rb: Piece): int {
    var ret := EdgeCompare(ra.left, rb.left);
    if ret == 0 then EdgeCompare(ra.right, rb.right) else ret
  }

  /** MAX is no left edge, MIN is no right edge, and the edges are in order. */
  predicate Proper(p: Piece) {
    !p.left.Max? && !p.right.Min? && EdgeCompare(p.left, p.right) <= 0
  }

  ghost predicate AllProper(ps: seq<Piece>) {
    forall i :: 0 <= i < |ps| ==> Proper(ps[i])
  }

  /** The integers a piece stands for. */
  ghost predicate In(p: Piece, x: int) {
    && (p.left.Min? || (p.left.Value? && p.left.value <= x))
    && (p.right.Max? || (p.right.Value? && x <= p.right.value))
  }

  ghost predicate InSome(ps: seq<Piece>, x: int) {
    exists i :: 0 <= i < |ps| && In(ps[i], x)
  }

  /** A proper piece always holds some `intmax`. */
  lemma ProperInhabited(p: Piece) returns (x: intmax)
    requires Proper(p)
    ensures In(p, x)
  {
    x := if p.left.Value? then p.left.value else if p.right.Value? then p.right.value else 0;
  }

  /** Whether two pieces have a common element. */
  predicate Overlap(ra: Piece, rb: Piece)
    requires EdgeCompare(ra.left, ra.right) <= 0
    requires EdgeCompare(rb.left, rb.right) <= 0
  {
    EdgeCompare(ra.left, rb.right) <= 0 && EdgeCompare(ra.right, rb.left) >= 0
  }

  /** Overlap is exactly having a common integer. */
  lemma OverlapMeansCommon(ra: Piece, rb: Piece)
    requires Proper(ra) && Proper(rb)
    ensures Overlap(ra, rb) <==> exists x: intmax :: In(ra, x) && In(rb, x)
  {
    if Overlap(ra, rb) {
      var left := if EdgeCompare(ra.left, rb.left) < 0 then rb.left else ra.left;
      var right := if EdgeCompare(ra.right, rb.right) > 0 then rb.right else ra.right;
      var x := ProperInhabited(Piece(left, right));
      assert In(ra, x) && In(rb, x);
    }
  }

  /** p lies inside q, edge for edge. */
  predicate Within(p: Piece, q: Piece) {
    EdgeCompare(p.left, q.left) >= 0 && EdgeCompare(p.right, q.right) <= 0
  }

  lemma WithinMeansSubset(p: Piece, q: Piece, x: int)
    requires Proper(p) && Proper(q) && Within(p, q) && In(p, x)
    ensures In(q, x)
  {
  }

  lemma InSomeConcat(a: seq<Piece>, b: seq<Piece>, x: int)
    ensures InSome(a + b, x) <==> InSome(a, x) || InSome(b, x)
  {
    if i :| 0 <= i < |a| && In(a[i], x) { assert In((a + b)[i], x); }
    if i :| 0 <= i < |b| && In(b[i], x) { assert In((a + b)[|a| + i], x); }
  }

  lemma InSomeCons(p: Piece, b: seq<Piece>, x: int)
    ensures InSome([p] + b, x) <==> In(p, x) || InSome(b, x)
  {
    InSomeConcat([p], b, x);
    assert InSome([p], x) <==> In(p, x) by { if In(p, x) { assert In([p][0], x); } }
  }

  lemma InSomeMultiset(a: seq<Piece>, b: seq<Piece>, x: int)
    requires multiset(a) == multiset(b)
    ensures InSome(a, x) <==> InSome(b, x)
  {
    if i :| 0 <= i < |a| && In(a[i], x) {
      assert a[i] in multiset(b);
      assert a[i] in b;
    }
    if i :| 0 <= i < |b| && In(b[i], x) {
      assert b[i] in multiset(a);
      assert b[i] in a;
    }
  }
}
