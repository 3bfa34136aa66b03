/** Compiling a range to a C boolean test (libasn1compiler/asn1c_constraint.c, `emit_range_comparison_code`). */
module RangeTest {
  import opened Edges
  import opened Crange

  /** The emitted expression; Nothing is the empty text, which callers take as "always true". */
  datatype Test =
    | Nothing
    | AtMost(v: int)
    | AtLeast(v: int)
    | Equal(v: int)
    | Both(l: Test, r: Test)
    | Either(l: Test, r: Test)

  predicate Eval(t: Test, x: int) {
    match t
    case Nothing => true
    case AtMost(v) => x <= v
    case AtLeast(v) => x >= v
    case Equal(v) => x == v
    case Both(l, r) => Eval(l, x) && Eval(r, x)
    case Either(l, r) => Eval(l, x) || Eval(r, x)
  }

  /** The values the tested variable can take; -1 stands for an absent bound. */
  datatype Natural = Natural(start: intmax, stop: intmax)

  predicate Takes(n: Natural, x: int) {
    (n.start == -1 || n.start <= x) && (n.stop == -1 || x <= n.stop)
  }

  predicate IgnoreLeft(p: Piece, n: Natural) {
    p.left.Min? || (n.start != -1 && p.left.Value? && p.left.value <= n.start)
  }

  predicate IgnoreRight(p: Piece, n: Natural) {
    p.right.Max? || (n.stop != -1 && p.right.Value? && p.right.value >= n.stop)
  }

  /** The piece leaves nothing to test. */
  predicate CoversNatural(p: Piece, n: Natural) {
    IgnoreLeft(p, n) && IgnoreRight(p, n)
  }

  ghost predicate Equivalent(t: Test, ps: seq<Piece>, n: Natural) {
    forall x: int :: Takes(n, x) ==> (Eval(t, x) <==> InSome(ps, x))
  }

  method EmitPiece(p: Piece, n: Natural) returns (t: Test)
    requires Proper(p)
    ensures t.Nothing? <==> CoversNatural(p, n)
    ensures forall x: int :: Takes(n, x) ==> (Eval(t, x) <==> In(p, x))
  {
    var ignoreLeft := IgnoreLeft(p, n);
    var ignoreRight := IgnoreRight(p, n);
    if ignoreLeft && ignoreRight {
      t := Nothing;
    } else if ignoreLeft {
      t := AtMost(p.right.value);
    } else if ignoreRight {
      t := AtLeast(p.left.value);
    } else if p.left.value == p.right.value {
      t := Equal(p.right.value);
    } else {
      t := Both(AtLeast(p.left.value), AtMost(p.right.value));
    }
  }

  lemma SinglePieceIn(p: Piece)
    ensures forall x: int :: InSome([p], x) <==> In(p, x)
  {
    assert [p][0] == p;
  }

  ghost predicate AllCover(ps: seq<Piece>, n: Natural) {
    forall k :: 0 <= k < |ps| ==> CoversNatural(ps[k], n)
  }

  /** The pieces that take part in the test. */
  ghost predicate InTested(ps: seq<Piece>, n: Natural, x: int) {
    exists k :: 0 <= k < |ps| && !CoversNatural(ps[k], n) && In(ps[k], x)
  }

  lemma TestedStep(ps: seq<Piece>, p: Piece, n: Natural)
    ensures AllCover(ps + [p], n) <==> AllCover(ps, n) && CoversNatural(p, n)
    ensures forall x: int :: InTested(ps + [p], n, x) <==> InTested(ps, n, x) || (!CoversNatural(p, n) && In(p, x))
  {
    var qs := ps + [p];
    assert qs[|ps|] == p;
    assert forall k :: 0 <= k < |ps| ==> ps[k] == qs[k];
  }

  /** t tests for the pieces that do not cover the natural values. */
  ghost predicate Tests(t: Test, ps: seq<Piece>, n: Natural) {
    && (t.Nothing? <==> AllCover(ps, n))
    && (!t.Nothing? ==> forall x: int :: Takes(n, x) ==> (Eval(t, x) <==> InTested(ps, n, x)))
  }

  method EmitParts(ps: seq<Piece>, n: Natural) returns (t: Test)
    requires AllProper(ps)
    ensures Tests(t, ps, n)
  {
    t := Nothing;
    for i := 0 to |ps|
      invariant Tests(t, ps[..i], n)
    {
      var rec := EmitPiece(ps[i], n);
      assert ps[..i + 1] == ps[..i] + [ps[i]];
      TestedStep(ps[..i], ps[i], n);
      if !rec.Nothing? {
        if t.Nothing? {
          t := rec;
        } else {
          t := Either(t, rec);
        }
      }
    }
    assert ps[..|ps|] == ps;
  }

  /** The test of a canonical range is equivalent to it exactly when no part alone covers the natural values. */
  method Emit(range: Range, n: Natural) returns (t: Test)
    requires Canonical(range.AsView())
    ensures range.elements == [] ==> Equivalent(t, range.OwnPieces(), n)
    ensures range.elements != [] && (exists x :: Takes(n, x)) ==>
              (Equivalent(t, range.elements, n) <==>
               forall i :: 0 <= i < |range.elements| ==> !CoversNatural(range.elements[i], n))
  {
    if range.elements == [] {
      t := EmitPiece(Piece(range.left, range.right), n);
      SinglePieceIn(Piece(range.left, range.right));
      return;
    }
    t := EmitParts(range.elements, n);
    ghost var ps := range.elements;
    if i :| 0 <= i < |ps| && CoversNatural(ps[i], n) {
      CoveringPartIsLost(ps, n, i);
    } else {
      NoPartIsLost(ps, n);
      assert !CoversNatural(ps[0], n);
    }
  }

  lemma NoPartIsLost(ps: seq<Piece>, n: Natural)
    requires forall i :: 0 <= i < |ps| ==> !CoversNatural(ps[i], n)
    ensures forall x: int :: InTested(ps, n, x) <==> InSome(ps, x)
  {
  }

  /** A part that covers the natural values is left out, and the others are then never true. */
  lemma CoveringPartIsLost(ps: seq<Piece>, n: Natural, i: nat)
    requires AllProper(ps) && Separated(ps) && |ps| > 1 && i < |ps| && CoversNatural(ps[i], n)
    ensures forall x: int :: Takes(n, x) ==> InSome(ps, x) && !InTested(ps, n, x)
    ensures (exists x :: Takes(n, x)) ==> exists k :: 0 <= k < |ps| && !CoversNatural(ps[k], n)
  {
    forall x: int | Takes(n, x) ensures InSome(ps, x) && !InTested(ps, n, x) {
      assert In(ps[i], x);
      forall k | 0 <= k < |ps| && k != i ensures !In(ps[k], x) {
        assert Key(ps[i].right) + 1 < Key(ps[k].left) || Key(ps[k].right) + 1 < Key(ps[i].left);
      }
    }
    if x :| Takes(n, x) {
      var k := if i == 0 then 1 else 0;
      assert In(ps[i], x) && !In(ps[k], x);
    }
  }

  /** If every part holds a natural value, none covers them all, so the test is equivalent. */
  lemma MeetingPartsNeverCover(ps: seq<Piece>, n: Natural)
    requires AllProper(ps) && Separated(ps) && |ps| > 1
    requires forall i :: 0 <= i < |ps| ==> exists x :: Takes(n, x) && In(ps[i], x)
    ensures forall i :: 0 <= i < |ps| ==> !CoversNatural(ps[i], n)
  {
    forall i | 0 <= i < |ps| ensures !CoversNatural(ps[i], n) {
      var k := if i == 0 then 1 else 0;
      var x :| Takes(n, x) && In(ps[k], x);
      assert Key(ps[i].right) + 1 < Key(ps[k].left) || Key(ps[k].right) + 1 < Key(ps[i].left);
    }
  }

  /** (0..255 | 300..400) over octets is such a lost part: the test is x >= 300. */
  lemma OctetRangeIsLost(x: int)
    requires 0 <= x <= 255
    ensures var ps := [Piece(Value(0), Value(255)), Piece(Value(300), Value(400))];
            && Separated(ps) && AllProper(ps) && InSome(ps, x) && !InTested(ps, Natural(0, 255), x)
  {
    var ps := [Piece(Value(0), Value(255)), Piece(Value(300), Value(400))];
    CoveringPartIsLost(ps, Natural(0, 255), 0);
  }
}
