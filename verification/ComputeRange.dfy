/**
 Evaluating a constraint tree to a range (libasn1fix/asn1fix_crange.c,
 `asn1constraint_compute_constraint_range` for integer values).
 */
module ComputeRange {
  import opened Edges
  import opened Crange
  import opened ConstraintTree
  import opened Evaluation

  /** What the evaluation of a tree ends in; Aborted stands for a failed assertion. */
  datatype Outcome = Returned(range: Range) | Eperm | Erange | Aborted

  /** An outcome without its object. */
  datatype Verdict = Ranged(view: View) | NoRange | JustMarker | Error

  ghost function Judged(o: Outcome): Verdict
    reads if o.Returned? then {o.range} else {}
  {
    match o
    case Returned(r) => if r.incompatible then NoRange else Ranged(r.AsView())
    case Erange => JustMarker
    case _ => Error
  }

  /** The range holds just the members of P. */
  ghost predicate Represents(v: View, P: iset<int>) {
    Canonical(v) && forall x: int :: Has(v, x) <==> x in P
  }

  /** The outcome has the given meaning. */
  ghost predicate Yields(v: Verdict, m: Meaning) {
    match m
    case Denotes(S) => v.Ranged? && Represents(v.view, S)
    case Marker => v.JustMarker?
    case Incompatible => v.NoRange?
    case Failure => v.Error?
  }

  /** The parent's view; without a parent it is (MIN..MAX). */
  ghost function ParentView(minmax: Range?): View
    reads minmax
  {
    if minmax == null then View(Min, Max, [], false) else minmax.AsView()
  }

  /** The parent holds just the members of P; without a parent that is all integers. */
  ghost predicate Parent(minmax: Range?, P: iset<int>)
    reads minmax
  {
    Represents(ParentView(minmax), P) && (minmax != null ==> !minmax.incompatible)
  }

  // ----- Filling in an edge -----

  datatype FillResult = Filled(edge: Edge) | FillFail | FillIncompatible

  method Fill(v: Literal, minmax: Range?, isLeft: bool) returns (r: FillResult)
    ensures r.FillFail? <==> v.Referenced? || v.Unrecognized?
    ensures r.FillIncompatible? <==> v.BitVector?
    ensures r.Filled? ==> r.edge == if isLeft then LeftEdge(v, ParentView(minmax)) else RightEdge(v, ParentView(minmax))
  {
    match v {
      case Integer(i) => r := Filled(Value(i));
      case MinValue => r := Filled(if minmax != null then minmax.left else Min);
      case MaxValue => r := Filled(if minmax != null then minmax.right else Max);
      case Boolean(b) => r := Filled(Value(if b then 1 else 0));
      case Tuple(i) => r := Filled(Value(i));
      case CharString => r := Filled(if isLeft then Min else Max);
      case Referenced => r := FillFail;
      case BitVector => r := FillIncompatible;
      case Unrecognized => r := FillFail;
    }
  }

  /** The edges a literal stands for within a parent range. */
  ghost function LeftEdge(v: Literal, parent: View): Edge {
    if Number(v) then Value(NumberOf(v)) else if v.MaxValue? then parent.right
    else if v.MinValue? then parent.left else Min
  }

  ghost function RightEdge(v: Literal, parent: View): Edge {
    if Number(v) then Value(NumberOf(v)) else if v.MinValue? then parent.left
    else if v.MaxValue? then parent.right else Max
  }

  /** MIN is no upper end, and MAX no lower one. */
  predicate PlainEnds(a: Literal, b: Literal) {
    !a.MaxValue? && !b.MinValue?
  }

  /** The edges of a literal pair; for all x of the parent, lying between them is From and UpTo. */
  lemma EdgesMean(a: Literal, b: Literal, parent: View, P: iset<int>)
    requires Represents(parent, P) && P != iset{} && PlainEnds(a, b)
    ensures var left, right := LeftEdge(a, parent), RightEdge(b, parent);
            && !left.Max? && !right.Min?
            && (forall x: int :: x in P ==> (From(x, a) && UpTo(x, b) <==> In(Piece(left, right), x)))
  {
    EndsMean(parent, P);
  }

  /** The outer edges of a range bound its members, and values among them are members. */
  lemma EndsMean(v: View, P: iset<int>)
    requires Represents(v, P) && P != iset{}
    ensures forall x: int :: x in P ==> In(Piece(v.left, v.right), x)
    ensures v.left.Value? ==> v.left.value in P
    ensures v.right.Value? ==> v.right.value in P
  {
    FlagMeansEmpty(v, P);
    ParentOuterEdges(v);
    var ps := Pieces(v);
    if v.left.Value? {
      assert In(ps[0], v.left.value);
    }
    if v.right.Value? {
      assert In(ps[|ps| - 1], v.right.value);
    }
  }

  lemma UnboundedEnds(v: View, P: iset<int>)
    requires Represents(v, P) && P != iset{}
    ensures v.right.Max? <==> !BoundedAbove(P)
    ensures v.left.Min? <==> !BoundedBelow(P)
  {
    FlagMeansEmpty(v, P);
    EndsMean(v, P);
    var ps := Pieces(v);
    if v.right.Max? {
      forall b: int ensures !UpperBound(P, b) {
        var p := ps[|ps| - 1];
        var x := if p.left.Value? && p.left.value > b then p.left.value as int else b + 1;
        assert In(p, x) && x in P;
      }
    } else {
      assert UpperBound(P, v.right.value);
    }
    if v.left.Min? {
      forall b: int ensures !LowerBound(P, b) {
        var p := ps[0];
        var x := if p.right.Value? && p.right.value < b then p.right.value as int else b - 1;
        assert In(p, x) && x in P;
      }
    } else {
      assert LowerBound(P, v.left.value);
    }
  }

  /** A canonical range lies between its outer edges. */
  lemma ParentOuterEdges(v: View)
    requires Canonical(v)
    ensures forall x: int :: Has(v, x) ==> In(Piece(v.left, v.right), x)
  {
    forall x: int | Has(v, x) ensures In(Piece(v.left, v.right), x) {
      var i :| 0 <= i < |Pieces(v)| && In(Pieces(v)[i], x);
    }
  }

  lemma OuterEdgesWithin(v: View)
    requires Canonical(v)
    ensures EdgeWithin(Pieces(v), v.left) && EdgeWithin(Pieces(v), v.right)
  {
    var ps := Pieces(v);
    assert EdgeCompare(ps[0].left, v.left) <= 0 <= EdgeCompare(ps[0].right, v.left);
    assert EdgeCompare(ps[|ps| - 1].left, v.right) <= 0 <= EdgeCompare(ps[|ps| - 1].right, v.right);
  }

  lemma NumberWithin(ps: seq<Piece>, x: intmax)
    requires AllProper(ps)
    ensures EdgeWithin(ps, Value(x)) <==> InSome(ps, x)
  {
    assert forall i :: 0 <= i < |ps| ==>
      (In(ps[i], x) <==> EdgeCompare(ps[i].left, Value(x)) <= 0 <= EdgeCompare(ps[i].right, Value(x)));
  }

  /** The strict check of an edge is membership, as EdgeIn has it. */
  lemma EdgeInMeans(v: Literal, isLeft: bool, parent: View, P: iset<int>)
    requires Represents(parent, P) && P != iset{} && !Unreadable(v) && !v.BitVector?
    ensures EdgeIn(v, isLeft, P) <==>
              EdgeWithin(Pieces(parent), if isLeft then LeftEdge(v, parent) else RightEdge(v, parent))
  {
    FlagMeansEmpty(parent, P);
    OuterEdgesWithin(parent);
    UnboundedEnds(parent, P);
    if Number(v) {
      NumberWithin(Pieces(parent), NumberOf(v));
    } else if v.CharString? {
      OuterMost(parent);
    }
  }

  lemma OuterMost(v: View)
    requires Canonical(v)
    ensures EdgeWithin(Pieces(v), Min) <==> v.left.Min?
    ensures EdgeWithin(Pieces(v), Max) <==> v.right.Max?
  {
    OuterEdgesWithin(v);
  }

  /** When both edges lie in the parent, there is something between them just when they are in order. */
  lemma BetweenInhabited(a: Literal, b: Literal, parent: View, P: iset<int>)
    requires Represents(parent, P) && P != iset{} && PlainEnds(a, b)
    requires EdgeIn(a, true, P) && EdgeIn(b, false, P)
    requires !Unreadable(a) && !Unreadable(b) && !a.BitVector? && !b.BitVector?
    ensures Between(a, b, P, false) != iset{} <==> EdgeCompare(LeftEdge(a, parent), RightEdge(b, parent)) <= 0
  {
    var left, right := LeftEdge(a, parent), RightEdge(b, parent);
    EndsMean(parent, P);
    EdgesMean(a, b, parent, P);
    if EdgeCompare(left, right) <= 0 {
      FlagMeansEmpty(parent, P);
      var y := UnflaggedInhabited(parent);
      var x := if left.Value? then left.value else if right.Value? then right.value else y;
      assert x in Between(a, b, P, false);
    }
  }

  // ----- Values and intervals -----

  /** The parent cut down to the interval between two edges; out of order they are an error. */
  method Constrain(left: Edge, right: Edge, minmax: Range, ghost P: iset<int>) returns (o: Outcome)
    requires Parent(minmax, P) && !left.Max? && !right.Min?
    ensures o.Returned? ==> fresh(o.range)
    ensures P == iset{} ==> Yields(Judged(o), Denotes(iset{}))
    ensures P != iset{} ==>
              var inside := EdgesWithin(Pieces(ParentView(minmax)), [Piece(left, right)]);
              && (inside && EdgeCompare(left, right) <= 0 ==>
                    Yields(Judged(o), Denotes(iset x: int | x in P && In(Piece(left, right), x))))
              && (o.Eperm? <==> !inside)
              && (o.Aborted? <==> inside && EdgeCompare(left, right) > 0)
  {
    var range := new Range();
    range.left, range.right := left, right;
    var clone := new Range.Clone(minmax);
    ghost var parent := ParentView(minmax);
    FlagMeansEmpty(parent, P);
    if EdgeCompare(left, right) <= 0 {
      SinglePiece(range.AsView());
      var ok := clone.Intersect(range, true);
      if !ok {
        return Eperm;
      }
    } else if !clone.emptyConstraint {
      // Edges out of order: one is outside the parent, or the assertion of the overlap test fails.
      var inside := CheckEdgesWithin(clone.OwnPieces(), range.OwnPieces());
      return if inside then Aborted else Eperm;
    }
    clone.Canonicalize();
    return Returned(clone);
  }

  lemma FlagMeansEmpty(v: View, P: iset<int>)
    requires Represents(v, P)
    ensures v.empty <==> P == iset{}
  {
    if v.empty {
      forall x: int ensures x !in P {
        assert !Has(v, x);
      }
    } else {
      var x := UnflaggedInhabited(v);
      assert x in P;
    }
  }

  lemma SinglePiece(v: View)
    requires v.elements == [] && !v.empty
    ensures forall x: int :: Has(v, x) <==> In(Piece(v.left, v.right), x)
  {
    forall x: int ensures Has(v, x) <==> In(Piece(v.left, v.right), x) {
      if In(Piece(v.left, v.right), x) {
        assert In(Pieces(v)[0], x);
      }
    }
  }

  lemma UnboundedHasAll()
    ensures Represents(View(Min, Max, [], false), ALL)
  {
    SinglePiece(View(Min, Max, [], false));
  }

  /** The range between two edges by itself, put in order. */
  method Alone(left: Edge, right: Edge) returns (o: Outcome)
    requires !left.Max? && !right.Min?
    ensures o.Returned? && fresh(o.range) && !o.range.incompatible
    ensures var p := if EdgeCompare(left, right) <= 0 then Piece(left, right) else Piece(right, left);
            Represents(o.range.AsView(), iset x: int | In(p, x))
  {
    var range := new Range();
    range.left, range.right := left, right;
    SinglePiece(range.AsView());
    SinglePiece(View(right, left, [], false));
    range.Canonicalize();
    return Returned(range);
  }

  method Leaf(a: Literal, b: Literal, minmax: Range?, ghost P: iset<int>) returns (o: Outcome)
    requires Parent(minmax, P) && PlainEnds(a, b)
    ensures o.Returned? ==> fresh(o.range)
    ensures Yields(Judged(o), Evaluation.Leaf(a, b, P, minmax == null))
  {
    var left := Fill(a, minmax, true);
    var fill := left;
    if left.Filled? {
      fill := Fill(b, minmax, false);
    }
    match fill {
      case FillFail => return Eperm;
      case FillIncompatible =>
        var range := new Range();
        range.incompatible := true;
        return Returned(range);
      case Filled(right) =>
        ghost var parent := ParentView(minmax);
        if P != iset{} {
          EdgesMean(a, b, parent, P);
        }
        if minmax == null {
          FreeLeaf(a, b, P);
          o := Alone(left.edge, right);
        } else {
          LeafMeans(a, b, parent, P);
          o := Constrain(left.edge, right, minmax, P);
        }
    }
  }

  lemma FreeLeaf(a: Literal, b: Literal, P: iset<int>)
    requires Represents(View(Min, Max, [], false), P) && PlainEnds(a, b)
    ensures !LeftEdge(a, View(Min, Max, [], false)).Max? && !RightEdge(b, View(Min, Max, [], false)).Min?
    ensures var left, right := LeftEdge(a, View(Min, Max, [], false)), RightEdge(b, View(Min, Max, [], false));
            var p := if EdgeCompare(left, right) <= 0 then Piece(left, right) else Piece(right, left);
            Between(a, b, P, true) == iset x: int | In(p, x)
  {
    FreeParent(P);
    assert 0 in P;
    EdgesMean(a, b, View(Min, Max, [], false), P);
    SinglePiece(View(Min, Max, [], false));
  }

  lemma FreeParent(P: iset<int>)
    requires Represents(View(Min, Max, [], false), P)
    ensures P == ALL
  {
    UnboundedHasAll();
    forall x: int ensures x in P {
      assert Has(View(Min, Max, [], false), x);
    }
  }

  lemma SinglePieceWithin(ps: seq<Piece>, p: Piece)
    ensures EdgesWithin(ps, [p]) <==> EdgeWithin(ps, p.left) && EdgeWithin(ps, p.right)
  {
    assert [p][0] == p;
  }

  lemma LeafMeans(a: Literal, b: Literal, parent: View, P: iset<int>)
    requires Represents(parent, P) && PlainEnds(a, b)
    requires !Unreadable(a) && !Unreadable(b) && !a.BitVector? && !b.BitVector?
    ensures P == iset{} ==> Between(a, b, P, false) == iset{}
    ensures P != iset{} ==>
              var left, right := LeftEdge(a, parent), RightEdge(b, parent);
              var inside := EdgesWithin(Pieces(parent), [Piece(left, right)]);
              && (inside <==> EdgeIn(a, true, P) && EdgeIn(b, false, P))
              && (inside ==> (EdgeCompare(left, right) <= 0 <==> Between(a, b, P, false) != iset{}))
              && Between(a, b, P, false) == iset x: int | x in P && In(Piece(left, right), x)
  {
    if P != iset{} {
      EdgeInMeans(a, true, parent, P);
      EdgeInMeans(b, false, parent, P);
      SinglePieceWithin(Pieces(parent), Piece(LeftEdge(a, parent), RightEdge(b, parent)));
      EdgesMean(a, b, parent, P);
      if EdgeIn(a, true, P) && EdgeIn(b, false, P) {
        BetweenInhabited(a, b, parent, P);
      }
    }
  }

  // ----- Trees -----

  /** Evaluate a constraint within the parent range minmax, whose members are P. */
  method Compute(ct: Constraint, minmax: Range?, ghost P: iset<int>) returns (o: Outcome)
    requires Parent(minmax, P) && PlainBounds(ct)
    ensures o.Returned? ==> fresh(o.range)
    ensures Yields(Judged(o), Evaluated(ct, P, minmax == null))
    decreases ct, 1
  {
    match ct {
      case Single(v) => o := Leaf(v, v, minmax, P);
      case Interval(a, b, _, _) => o := Leaf(a, b, minmax, P);
      case Extension => o := Erange;
      case Serial(_) => o := Conjoin(ct, minmax, P);
      case Intersection(_) => o := Conjoin(ct, minmax, P);
      case Union(_) => o := Unite(ct, minmax, P);
      case Except(kept, _) => o := Compute(kept, minmax, P);
      case Foreign(_) =>
        var range := Inherit(minmax);
        range.incompatible := true;
        o := Returned(range);
    }
  }

  method Inherit(minmax: Range?) returns (range: Range)
    ensures fresh(range) && range.AsView() == ParentView(minmax)
    ensures !range.incompatible || (minmax != null && minmax.incompatible)
  {
    if minmax != null {
      range := new Range.Clone(minmax);
    } else {
      range := new Range();
    }
  }

  // ----- Serial constraints and intersections -----

  /** A range inside another has its edges there. */
  lemma InsideEdgesWithin(v: View, w: View)
    requires Canonical(v) && Canonical(w) && !v.empty && !w.empty
    requires forall x: int :: Has(w, x) ==> Has(v, x)
    ensures EdgesWithin(Pieces(v), Pieces(w))
  {
    var ps, rs := Pieces(v), Pieces(w);
    forall j | 0 <= j < |rs| ensures EdgeWithin(ps, rs[j].left) && EdgeWithin(ps, rs[j].right) {
      EdgeInside(v, w, j);
    }
  }

  lemma EdgeInside(v: View, w: View, j: nat)
    requires Canonical(v) && Canonical(w) && !v.empty && !w.empty && j < |Pieces(w)|
    requires forall x: int :: Has(w, x) ==> Has(v, x)
    ensures EdgeWithin(Pieces(v), Pieces(w)[j].left) && EdgeWithin(Pieces(v), Pieces(w)[j].right)
  {
    var r := Pieces(w)[j];
    OuterEdgesWithin(v);
    ParentOuterEdges(v);
    forall x: int | In(r, x) ensures InSome(Pieces(v), x) && In(Piece(v.left, v.right), x) {
      assert Has(w, x);
    }
    LeftEdgeInside(v, r);
    RightEdgeInside(v, r);
  }

  lemma LeftEdgeInside(v: View, r: Piece)
    requires Canonical(v) && Proper(r) && EdgeWithin(Pieces(v), v.left)
    requires forall x: int :: In(r, x) ==> InSome(Pieces(v), x) && In(Piece(v.left, v.right), x)
    ensures EdgeWithin(Pieces(v), r.left)
  {
    if r.left.Value? {
      assert In(r, r.left.value);
      NumberWithin(Pieces(v), r.left.value);
    } else if v.left.Value? {
      var x := if r.right.Value? && r.right.value < v.left.value then r.right.value as int else v.left.value - 1;
      assert In(r, x);
    }
  }

  lemma RightEdgeInside(v: View, r: Piece)
    requires Canonical(v) && Proper(r) && EdgeWithin(Pieces(v), v.right)
    requires forall x: int :: In(r, x) ==> InSome(Pieces(v), x) && In(Piece(v.left, v.right), x)
    ensures EdgeWithin(Pieces(v), r.right)
  {
    if r.right.Value? {
      assert In(r, r.right.value);
      NumberWithin(Pieces(v), r.right.value);
    } else if v.right.Value? {
      var x := if r.left.Value? && r.left.value > v.right.value then r.left.value as int else v.right.value + 1;
      assert In(r, x);
    }
  }

  /** Take a part into the range; its error exit is never taken, so the strict check always succeeds. */
  method Narrow(range: Range, tmp: Range, strict: bool, ghost Q: iset<int>, ghost S: iset<int>)
    requires range != tmp && Represents(range.AsView(), Q) && Represents(tmp.AsView(), S) && !range.incompatible
    requires strict ==> S <= Q
    modifies range
    ensures Represents(range.AsView(), Q * S) && !range.incompatible
  {
    if strict && !range.emptyConstraint && !tmp.emptyConstraint {
      InsideEdgesWithin(range.AsView(), tmp.AsView());
    }
    var ok := range.Intersect(tmp, strict);
    assert ok;
    range.Canonicalize();
  }

  /** What a tree denotes is part of its parent set. */
  lemma {:induction false} EvaluatedWithin(ct: Constraint, P: iset<int>, free: bool)
    requires Evaluated(ct, P, free).Denotes? && (free ==> P == ALL)
    ensures Evaluated(ct, P, free).members <= P
  {
    match ct
    case Serial(cs) => ConjoinedWithin(cs, |cs|, true, P, free);
    case Intersection(cs) => ConjoinedWithin(cs, |cs|, false, P, free);
    case Union(cs) => MergedWithin(cs, Head(cs), |cs|, P, free);
    case Except(c, _) => EvaluatedWithin(c, P, free);
    case _ =>
  }

  lemma {:induction false} ConjoinedWithin(cs: seq<Constraint>, n: nat, serial: bool, P: iset<int>, free: bool)
    requires n <= |cs| && Conjoined(cs, n, serial, P, free).Denotes?
    ensures Conjoined(cs, n, serial, P, free).members <= P
    decreases cs, n
  {
    if n > 0 {
      ConjoinedWithin(cs, n - 1, serial, P, free);
    }
  }

  lemma {:induction false} MergedWithin(cs: seq<Constraint>, i: nat, n: nat, P: iset<int>, free: bool)
    requires i <= n <= |cs| && Merged(cs, i, n, P, free).Denotes? && (free ==> P == ALL)
    ensures Merged(cs, i, n, P, free).members <= P
    decreases cs, n
  {
    if n > i {
      MergedWithin(cs, i, n - 1, P, free);
      if Evaluated(cs[n - 1], P, free).Denotes? {
        EvaluatedWithin(cs[n - 1], P, free);
      }
    }
  }

  predicate IsAnd(ct: Constraint) {
    ct.Serial? || ct.Intersection?
  }

  ghost function ConjoinedTo(ct: Constraint, i: nat, P: iset<int>, free: bool): Meaning
    requires IsAnd(ct) && i <= |ct.parts|
  {
    Conjoined(ct.parts, i, ct.Serial?, P, free)
  }

  /** Evaluate the i-th part and take it in; an error is passed on. */
  method ConjoinPart(ct: Constraint, i: nat, range: Range, minmax: Range?, ghost P: iset<int>) returns (o: Outcome)
    requires IsAnd(ct) && i < |ct.parts| && PlainBounds(ct)
    requires range != minmax && Parent(minmax, P)
    requires !range.incompatible && Yields(Ranged(range.AsView()), ConjoinedTo(ct, i, P, minmax == null))
    modifies range
    ensures o.Eperm? || o.Aborted? ==> ConjoinedTo(ct, i + 1, P, minmax == null).Failure?
    ensures o.Erange? || o.Returned? ==>
              !range.incompatible && Yields(Ranged(range.AsView()), ConjoinedTo(ct, i + 1, P, minmax == null))
    decreases ct, 0, 0
  {
    ghost var free, Q := minmax == null, ConjoinedTo(ct, i, P, minmax == null).members;
    var outer := if ct.Serial? then range else minmax;
    ghost var R := if ct.Serial? then Q else P;
    o := Compute(ct.parts[i], outer, R);
    if o.Erange? || (o.Returned? && o.range.incompatible) {
      range.extensible := range.extensible || o.Erange?;
    } else if o.Returned? {
      ghost var S := Evaluated(ct.parts[i], R, free && !ct.Serial?).members;
      if ct.Serial? {
        EvaluatedWithin(ct.parts[i], R, false);
      }
      Narrow(range, o.range, ct.Serial?, Q, S);
    }
  }

  lemma {:induction false} FailureStays(cs: seq<Constraint>, i: nat, n: nat, serial: bool, P: iset<int>, free: bool)
    requires i <= n <= |cs| && Conjoined(cs, i, serial, P, free).Failure?
    ensures Conjoined(cs, n, serial, P, free).Failure?
    decreases n
  {
    if n > i {
      FailureStays(cs, i, n - 1, serial, P, free);
    }
  }

  /** AND the parts, one after another. */
  method Conjoin(ct: Constraint, minmax: Range?, ghost P: iset<int>) returns (o: Outcome)
    requires IsAnd(ct) && Parent(minmax, P) && PlainBounds(ct)
    ensures o.Returned? ==> fresh(o.range)
    ensures Yields(Judged(o), Evaluated(ct, P, minmax == null))
    decreases ct, 0, 1
  {
    var range := Inherit(minmax);
    for i := 0 to |ct.parts|
      invariant fresh(range) && !range.incompatible
      invariant Yields(Ranged(range.AsView()), ConjoinedTo(ct, i, P, minmax == null))
    {
      o := ConjoinPart(ct, i, range, minmax, P);
      if o.Eperm? || o.Aborted? {
        FailureStays(ct.parts, i + 1, |ct.parts|, ct.Serial?, P, minmax == null);
        return;
      }
    }
    return Returned(range);
  }

  // ----- Unions -----

  /** Grab the first operand that is more than an extension marker. */
  method FindHead(ct: Constraint, minmax: Range?, ghost P: iset<int>) returns (o: Outcome, i: nat)
    requires ct.Union? && Parent(minmax, P) && PlainBounds(ct)
    ensures i == Head(ct.parts) && (o.Returned? ==> fresh(o.range))
    ensures i == |ct.parts| ==> o.Erange?
    ensures i < |ct.parts| ==> Yields(Judged(o), Evaluated(ct.parts[i], P, minmax == null)) && !o.Erange?
    decreases ct, 0, 0
  {
    i := 0;
    while i < |ct.parts|
      invariant 0 <= i <= |ct.parts| && forall k :: 0 <= k < i ==> OnlyExtension(ct.parts[k])
    {
      o := Compute(ct.parts[i], minmax, P);
      MarkerIff(ct.parts[i], P, minmax == null);
      if !o.Erange? {
        HeadIs(ct.parts, i);
        return;
      }
      i := i + 1;
    }
    HeadIs(ct.parts, i);
    o := Erange;
  }

  lemma HeadIs(cs: seq<Constraint>, i: nat)
    requires i <= |cs| && (i < |cs| ==> !OnlyExtension(cs[i]))
    requires forall k :: 0 <= k < i ==> OnlyExtension(cs[k])
    ensures Head(cs) == i
  {
  }

  /**
   The range while operands that denote S are merged into the first one, which denotes H and so flags the
   range empty when it has no members.
   */
  ghost predicate Gathers(v: View, H: iset<int>, S: iset<int>) {
    && Sane(v) && (v.empty <==> H == iset{})
    && (!v.empty ==> forall x: int :: InSome(Pieces(v), x) ==> x in H + S)
    && (!v.empty ==> forall x: int :: x in S ==> v.elements != [] && InSome(v.elements, x))
  }

  ghost function MergedTo(ct: Constraint, k: nat, P: iset<int>, free: bool): Meaning
    requires ct.Union? && Head(ct.parts) <= k <= |ct.parts|
  {
    Merged(ct.parts, Head(ct.parts), k, P, free)
  }

  lemma GatherMore(v: View, tmp: View, H: iset<int>, S: iset<int>, T: iset<int>)
    requires Gathers(v, H, S) && Represents(tmp, T) && !tmp.empty
    ensures Gathers(v.(elements := v.elements + Pieces(tmp)), H, S + T)
  {
    ProperConcat(v.elements, Pieces(tmp));
    forall x: int
      ensures InSome(v.elements + Pieces(tmp), x) <==> InSome(v.elements, x) || x in T
      ensures InSome(v.elements, x) ==> InSome(Pieces(v), x)
    {
      InSomeConcat(v.elements, Pieces(tmp), x);
      assert InSome(Pieces(tmp), x) <==> Has(tmp, x);
    }
  }

  /** Evaluate the k-th operand and merge it in; an error or an incompatible operand ends the evaluation. */
  method UnitePart(ct: Constraint, k: nat, range: Range, minmax: Range?, ghost P: iset<int>, ghost H: iset<int>)
    returns (stop: bool, o: Outcome)
    requires ct.Union? && Head(ct.parts) <= k < |ct.parts| && PlainBounds(ct)
    requires range != minmax && Parent(minmax, P) && !range.incompatible
    requires var m := MergedTo(ct, k, P, minmax == null); m.Denotes? && Gathers(range.AsView(), H, m.members)
    modifies range
    ensures stop ==> (o.Returned? ==> o.range == range) && !MergedTo(ct, k + 1, P, minmax == null).Denotes?
    ensures stop ==> Yields(Judged(o), MergedTo(ct, k + 1, P, minmax == null))
    ensures !stop ==> var m := MergedTo(ct, k + 1, P, minmax == null);
                      !range.incompatible && m.Denotes? && Gathers(range.AsView(), H, m.members)
    decreases ct, 0, 0, 0
  {
    ghost var was, S := range.AsView(), MergedTo(ct, k, P, minmax == null).members;
    o := Compute(ct.parts[k], minmax, P);
    stop := false;
    if o.Eperm? || o.Aborted? {
      stop := true;
    } else if o.Erange? {
      range.extensible := true;
    } else if o.range.incompatible {
      range.Canonicalize();
      range.incompatible := true;
      o, stop := Returned(range), true;
    } else {
      MergeOperand(range, o.range, H, S, Evaluated(ct.parts[k], P, minmax == null).members);
    }
  }

  /** Take in an operand that has members. */
  method MergeOperand(range: Range, tmp: Range, ghost H: iset<int>, ghost S: iset<int>, ghost T: iset<int>)
    requires range != tmp && Gathers(range.AsView(), H, S) && Represents(tmp.AsView(), T)
    modifies range
    ensures Gathers(range.AsView(), H, S + T) && range.incompatible == old(range.incompatible)
  {
    FlagMeansEmpty(tmp.AsView(), T);
    if tmp.emptyConstraint {
      range.extensible := range.extensible || tmp.extensible;
      assert S + T == S;
    } else {
      GatherMore(range.AsView(), tmp.AsView(), H, S, T);
      range.MergeIn(tmp);
    }
  }

  lemma {:induction false} EndStays(cs: seq<Constraint>, i: nat, k: nat, n: nat, P: iset<int>, free: bool)
    requires i <= k <= n <= |cs| && !Merged(cs, i, k, P, free).Denotes?
    ensures Merged(cs, i, n, P, free) == Merged(cs, i, k, P, free)
    decreases n
  {
    if n > k {
      EndStays(cs, i, k, n - 1, P, free);
    }
  }

  /** Merge the operands from the first sensible one on into its range, which denotes H. */
  method UniteRest(ct: Constraint, i: nat, range: Range, minmax: Range?, ghost P: iset<int>, ghost H: iset<int>)
    returns (o: Outcome)
    requires ct.Union? && PlainBounds(ct) && i == Head(ct.parts) < |ct.parts|
    requires range != minmax && Parent(minmax, P) && !range.incompatible
    requires Evaluated(ct.parts[i], P, minmax == null) == Denotes(H)
    requires Represents(range.AsView(), H)
    modifies range
    ensures o.Returned? ==> o.range == range
    ensures Yields(Judged(o), United(ct.parts, P, minmax == null))
    decreases ct, 0, 1
  {
    ghost var n, free := |ct.parts|, minmax == null;
    FlagMeansEmpty(range.AsView(), H);
    var stop;
    stop, o := MergeAll(ct, i, range, minmax, P, H);
    if stop {
      return;
    }
    FirstIsMerged(ct.parts, i, n, P, free);
    Finish(range, H, MergedTo(ct, n, P, free).members);
    return Returned(range);
  }

  method MergeAll(ct: Constraint, i: nat, range: Range, minmax: Range?, ghost P: iset<int>, ghost H: iset<int>)
    returns (stop: bool, o: Outcome)
    requires ct.Union? && PlainBounds(ct) && i == Head(ct.parts) < |ct.parts|
    requires range != minmax && Parent(minmax, P) && !range.incompatible && Gathers(range.AsView(), H, iset{})
    modifies range
    ensures stop ==> (o.Returned? ==> o.range == range) && !MergedTo(ct, |ct.parts|, P, minmax == null).Denotes?
    ensures stop ==> Yields(Judged(o), MergedTo(ct, |ct.parts|, P, minmax == null))
    ensures !stop ==> var m := MergedTo(ct, |ct.parts|, P, minmax == null);
                      !range.incompatible && m.Denotes? && Gathers(range.AsView(), H, m.members)
    decreases ct, 0, 0, 1
  {
    hide Gathers, Evaluated;
    ghost var free := minmax == null;
    for k := i to |ct.parts|
      invariant !range.incompatible
      invariant MergedTo(ct, k, P, free).Denotes? && Gathers(range.AsView(), H, MergedTo(ct, k, P, free).members)
    {
      stop, o := UnitePart(ct, k, range, minmax, P, H);
      if stop {
        EndStays(ct.parts, i, k + 1, |ct.parts|, P, free);
        return;
      }
    }
    return false, Erange;
  }

  /** Canonicalize what was gathered. */
  method Finish(range: Range, ghost H: iset<int>, ghost S: iset<int>)
    requires Gathers(range.AsView(), H, S) && H <= S
    modifies range
    ensures Represents(range.AsView(), if H == iset{} then iset{} else S)
    ensures range.incompatible == old(range.incompatible)
  {
    range.Canonicalize();
  }

  lemma {:induction false} FirstIsMerged(cs: seq<Constraint>, i: nat, n: nat, P: iset<int>, free: bool)
    requires i < n <= |cs| && Merged(cs, i, n, P, free).Denotes? && Evaluated(cs[i], P, free).Denotes?
    ensures Evaluated(cs[i], P, free).members <= Merged(cs, i, n, P, free).members
    decreases n
  {
    if n > i + 1 {
      FirstIsMerged(cs, i, n - 1, P, free);
    } else {
      assert Merged(cs, i, i, P, free) == Denotes(iset{});
    }
  }

  /** OR the operands: the first sensible one, merged with itself and all that follow. */
  method Unite(ct: Constraint, minmax: Range?, ghost P: iset<int>) returns (o: Outcome)
    requires ct.Union? && Parent(minmax, P) && PlainBounds(ct)
    ensures o.Returned? ==> fresh(o.range)
    ensures Yields(Judged(o), United(ct.parts, P, minmax == null))
    decreases ct, 0, 2
  {
    hide Represents;
    var inherited := Inherit(minmax);
    ghost var free := minmax == null;
    var i;
    o, i := FindHead(ct, minmax, P);
    if i == |ct.parts| || o.Eperm? || o.Aborted? || o.range.incompatible {
      if i < |ct.parts| {
        assert Merged(ct.parts, i, i, P, free) == Denotes(iset{});
        EndStays(ct.parts, i, i + 1, |ct.parts|, P, free);
      }
      if o.Eperm? || o.Aborted? {
        return;
      }
      inherited.extensible := i > 0;
      inherited.incompatible := true;
      return Returned(inherited);
    }
    var range := o.range;
    ghost var H := Evaluated(ct.parts[i], P, free).members;
    if free {
      FreeParent(P);
    }
    EmptyParent(ct.parts[i], range.AsView(), ParentView(minmax), P, free);
    range.extensible := range.extensible || i > 0;
    range.emptyConstraint := range.emptyConstraint || inherited.emptyConstraint;
    o := UniteRest(ct, i, range, minmax, P, H);
  }

  /** An empty parent leaves an operand empty, so inheriting its flag changes nothing. */
  lemma EmptyParent(ct: Constraint, v: View, parent: View, P: iset<int>, free: bool)
    requires Represents(parent, P) && Evaluated(ct, P, free).Denotes? && Represents(v, Evaluated(ct, P, free).members)
    requires free ==> P == ALL
    ensures parent.empty ==> v.empty
  {
    EvaluatedWithin(ct, P, free);
    FlagMeansEmpty(parent, P);
    FlagMeansEmpty(v, Evaluated(ct, P, free).members);
  }

  /** Evaluated without a parent, that union loses 8, and everything else it admits. */
  method EvaluateHiddenOperand(ct: Constraint) returns (o: Outcome)
    requires ct == HiddenOperand()
    ensures 8 in Admitted(ct, ALL) && o.Returned? && !o.range.incompatible
    ensures forall x: int :: !Has(o.range.AsView(), x)
  {
    UnboundedHasAll();
    HiddenOperandIsLost();
    o := Compute(ct, null, ALL);
    assert Represents(o.range.AsView(), iset{});
  }
}
