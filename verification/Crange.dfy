/**
 Constraint ranges and the operations that rewrite them in place
 (libasn1fix/asn1fix_crange.c).
 */
module Crange {
  import opened Wrappers
  import opened Edges
  import opened Sorting
  import opened Split

  /** The value of a range: its outer edges, the parts it is split into, and the empty flag. */
  datatype View = View(left: Edge, right: Edge, elements: seq<Piece>, empty: bool)

  /** The parts, or the range itself when it has none. */
  function Pieces(v: View): (ps: seq<Piece>)
    ensures ps != []
  {
    if v.elements == [] then [Piece(v.left, v.right)] else v.elements
  }

  /** The integers a range stands for. */
  ghost predicate Has(v: View, x: int) {
    !v.empty && InSome(Pieces(v), x)
  }

  ghost predicate Sane(v: View) {
    Proper(Piece(v.left, v.right)) && AllProper(v.elements)
  }

  /** Ascending, pairwise disjoint, and with a gap between any two. */
  ghost predicate Separated(ps: seq<Piece>) {
    forall i, j :: 0 <= i < j < |ps| ==> Key(ps[i].right) + 1 < Key(ps[j].left)
  }

  /** The outer edges are those of the parts, and a single part is never kept as a part. */
  ghost predicate Canonical(v: View) {
    && Sane(v)
    && Separated(v.elements)
    && |v.elements| != 1
    && (v.elements != [] ==> v.left == v.elements[0].left && v.right == v.elements[|v.elements| - 1].right)
  }

  /** A range not flagged empty holds some `intmax`. */
  lemma UnflaggedInhabited(v: View) returns (x: intmax)
    requires Sane(v) && !v.empty
    ensures Has(v, x)
  {
    x := ProperInhabited(Pieces(v)[0]);
    assert In(Pieces(v)[0], x);
  }

  ghost predicate EdgeWithin(ps: seq<Piece>, edge: Edge) {
    exists i :: 0 <= i < |ps| && EdgeCompare(ps[i].left, edge) <= 0 <= EdgeCompare(ps[i].right, edge)
  }

  /** Both edges of each piece of rs fall into some piece of ps. */
  ghost predicate EdgesWithin(ps: seq<Piece>, rs: seq<Piece>) {
    forall j :: 0 <= j < |rs| ==> EdgeWithin(ps, rs[j].left) && EdgeWithin(ps, rs[j].right)
  }

  method EdgeIsWithin(ps: seq<Piece>, edge: Edge) returns (b: bool)
    ensures b <==> EdgeWithin(ps, edge)
  {
    for i := 0 to |ps|
      invariant forall k :: 0 <= k < i ==> !(EdgeCompare(ps[k].left, edge) <= 0 <= EdgeCompare(ps[k].right, edge))
    {
      if EdgeCompare(ps[i].left, edge) <= 0 && EdgeCompare(ps[i].right, edge) >= 0 {
        return true;
      }
    }
    return false;
  }

  method CheckEdgesWithin(ps: seq<Piece>, rs: seq<Piece>) returns (b: bool)
    ensures b <==> EdgesWithin(ps, rs)
  {
    for j := 0 to |rs|
      invariant EdgesWithin(ps, rs[..j])
    {
      var left := EdgeIsWithin(ps, rs[j].left);
      if !left { return false; }
      var right := EdgeIsWithin(ps, rs[j].right);
      if !right { return false; }
    }
    assert rs[..|rs|] == rs;
    return true;
  }

  /** p need not be cut along w. */
  ghost predicate Settled(p: Piece, ws: seq<Piece>)
    requires Proper(p) && AllProper(ws)
  {
    forall j :: 0 <= j < |ws| ==> !NeedsSplit(p, ws[j])
  }

  method FirstSplit(p: Piece, ws: seq<Piece>) returns (r: Option<seq<Piece>>, ghost at: nat)
    requires Proper(p) && AllProper(ws)
    ensures r.None? ==> Settled(p, ws)
    ensures r.Some? ==> at < |ws| && NeedsSplit(p, ws[at]) && r.value == Parts(p, ws[at])
  {
    at := 0;
    for j := 0 to |ws|
      invariant forall k :: 0 <= k < j ==> !NeedsSplit(p, ws[k])
    {
      r := RangeSplit(p, ws[j]);
      if r.Some? {
        at := j;
        return;
      }
    }
    r := None;
  }

  function Without(ps: seq<Piece>, i: nat): seq<Piece>
    requires i < |ps|
  {
    ps[..i] + ps[i + 1..]
  }

  lemma InSomeWithout(ps: seq<Piece>, i: nat, x: int)
    requires i < |ps|
    ensures InSome(ps, x) <==> InSome(Without(ps, i), x) || In(ps[i], x)
  {
    assert ps == ps[..i] + ([ps[i]] + ps[i + 1..]);
    InSomeConcat(ps[..i], [ps[i]] + ps[i + 1..], x);
    InSomeCons(ps[i], ps[i + 1..], x);
    InSomeConcat(ps[..i], ps[i + 1..], x);
  }

  lemma ProperConcat(a: seq<Piece>, b: seq<Piece>)
    requires AllProper(a) && AllProper(b)
    ensures AllProper(a + b)
  {
  }

  /** Replacing a piece by its parts keeps the integers. */
  lemma ReplaceKeepsIntegers(ps: seq<Piece>, i: nat, w: Piece)
    requires AllProper(ps) && i < |ps| && Proper(w) && NeedsSplit(ps[i], w)
    ensures AllProper(Without(ps, i) + Parts(ps[i], w))
    ensures forall x: intmax :: InSome(Without(ps, i) + Parts(ps[i], w), x) <==> InSome(ps, x)
    ensures forall x: int :: InSome(Without(ps, i) + Parts(ps[i], w), x) ==> InSome(ps, x)
  {
    PartsPartition(ps[i], w);
    ProperConcat(ps[..i], ps[i + 1..]);
    ProperConcat(Without(ps, i), Parts(ps[i], w));
    forall x: int
      ensures InSome(Without(ps, i) + Parts(ps[i], w), x) ==> InSome(ps, x)
      ensures INTMAX_MIN <= x <= INTMAX_MAX && InSome(ps, x) ==> InSome(Without(ps, i) + Parts(ps[i], w), x)
    {
      InSomeWithout(ps, i, x);
      InSomeConcat(Without(ps, i), Parts(ps[i], w), x);
    }
  }

  /** What replacing a piece by its parts loses beyond the `intmax` values is in none of separated pieces. */
  lemma ReplaceLosesForeign(ps: seq<Piece>, i: nat, j: nat, ws: seq<Piece>)
    requires AllProper(ps) && i < |ps| && AllProper(ws) && Separated(ws) && j < |ws| && NeedsSplit(ps[i], ws[j])
    ensures forall x: int :: InSome(ps, x) && InSome(ws, x) ==> InSome(Without(ps, i) + Parts(ps[i], ws[j]), x)
  {
    forall x: int | InSome(ps, x) && InSome(ws, x) ensures InSome(Without(ps, i) + Parts(ps[i], ws[j]), x) {
      InSomeWithout(ps, i, x);
      InSomeConcat(Without(ps, i), Parts(ps[i], ws[j]), x);
      PartsCover(ps[i], ws[j], x);
      var k :| 0 <= k < |ws| && In(ws[k], x);
      assert k < j ==> Key(ws[k].right) + 1 < Key(ws[j].left);
      assert j < k ==> Key(ws[j].right) + 1 < Key(ws[k].left);
    }
  }

  /** Replacing a piece by its parts lowers the number of cuts still to make. */
  lemma ReplaceLowersCuts(ps: seq<Piece>, i: nat, w: Piece, ws: seq<Piece>)
    requires AllProper(ps) && i < |ps| && w in ws && Proper(w) && NeedsSplit(ps[i], w)
    ensures var qs := Without(ps, i) + Parts(ps[i], w);
            i < |qs| && qs[..i] == ps[..i] && TotalCuts(qs[i..], ws) < TotalCuts(ps[i..], ws)
  {
    var parts := Parts(ps[i], w);
    assert (Without(ps, i) + parts)[i..] == ps[i + 1..] + parts;
    TotalCutsConcat(ps[i + 1..], parts, ws);
    assert ps[i..][1..] == ps[i + 1..];
    PartsHaveFewerCuts(ps[i], w, ws);
  }

  /** Cutting pieces along ws kept their `intmax` values, gave no others, and lost nothing of separated ws. */
  ghost predicate Recut(before: seq<Piece>, after: seq<Piece>, ws: seq<Piece>) {
    && (forall x: intmax :: InSome(after, x) <==> InSome(before, x))
    && (forall x: int :: InSome(after, x) ==> InSome(before, x))
    && (Separated(ws) ==> forall x: int :: InSome(before, x) && InSome(ws, x) ==> InSome(after, x))
  }

  lemma RecutTrans(a: seq<Piece>, b: seq<Piece>, c: seq<Piece>, ws: seq<Piece>)
    requires Recut(a, b, ws) && Recut(b, c, ws)
    ensures Recut(a, c, ws)
  {
  }

  lemma RecutOnce(ps: seq<Piece>, i: nat, ws: seq<Piece>, at: nat)
    requires AllProper(ps) && i < |ps| && AllProper(ws) && at < |ws| && NeedsSplit(ps[i], ws[at])
    ensures Recut(ps, Without(ps, i) + Parts(ps[i], ws[at]), ws)
  {
    ReplaceKeepsIntegers(ps, i, ws[at]);
    if Separated(ws) {
      ReplaceLosesForeign(ps, i, at, ws);
    }
  }

  /** One turn of the splitting loop. */
  lemma CutAlong(before: seq<Piece>, ps: seq<Piece>, i: nat, ws: seq<Piece>, at: nat)
    requires AllProper(ps) && i < |ps| && AllProper(ws) && at < |ws| && NeedsSplit(ps[i], ws[at])
    requires Recut(before, ps, ws) && forall k :: 0 <= k < i ==> Settled(ps[k], ws)
    ensures var qs := Without(ps, i) + Parts(ps[i], ws[at]);
            && AllProper(qs) && i < |qs| && Recut(before, qs, ws)
            && (forall k :: 0 <= k < i ==> Settled(qs[k], ws))
            && TotalCuts(qs[i..], ws) < TotalCuts(ps[i..], ws)
  {
    hide Recut, Parts, TotalCuts, Settled;
    var qs := Without(ps, i) + Parts(ps[i], ws[at]);
    RecutOnce(ps, i, ws, at);
    RecutTrans(before, ps, qs, ws);
    ReplaceKeepsIntegers(ps, i, ws[at]);
    ReplaceLowersCuts(ps, i, ws[at], ws);
    forall k | 0 <= k < i ensures Settled(qs[k], ws) {
      assert qs[k] == qs[..i][k] == ps[k];
    }
  }

  /** p lies within one of ws. */
  ghost predicate Inside(p: Piece, ws: seq<Piece>)
    requires Proper(p) && AllProper(ws)
  {
    exists j :: 0 <= j < |ws| && Within(p, ws[j])
  }

  /** No piece need be cut along ws, and those before i lie within one of them. */
  ghost predicate Sifted(ps: seq<Piece>, i: int, ws: seq<Piece>) {
    && AllProper(ps) && AllProper(ws)
    && (forall k :: 0 <= k < |ps| ==> Settled(ps[k], ws))
    && (forall k :: 0 <= k < i <= |ps| ==> Inside(ps[k], ws))
  }

  /** Nothing is added, and nothing is lost that ws have too. */
  ghost predicate LosesForeign(before: seq<Piece>, after: seq<Piece>, ws: seq<Piece>) {
    && (forall x: int :: InSome(after, x) ==> InSome(before, x))
    && (forall x: int :: InSome(before, x) && InSome(ws, x) ==> InSome(after, x))
  }

  /** c holds what a and b share; beyond `intmax`, that is certain when b is separated. */
  ghost predicate Shares(a: seq<Piece>, b: seq<Piece>, c: seq<Piece>) {
    && (forall x: intmax :: InSome(c, x) <==> InSome(a, x) && InSome(b, x))
    && (forall x: int :: InSome(c, x) ==> InSome(a, x) && InSome(b, x))
    && (Separated(b) ==> forall x: int :: InSome(c, x) <==> InSome(a, x) && InSome(b, x))
  }

  lemma CommonHas(v: View, w: View, u: View)
    requires !v.empty && !w.empty && Sane(u) && Shares(Pieces(v), Pieces(w), u.elements)
    requires u.empty == (u.elements == [])
    ensures forall x: intmax :: Has(u, x) <==> Has(v, x) && Has(w, x)
    ensures forall x: int :: Has(u, x) ==> Has(v, x) && Has(w, x)
    ensures Separated(Pieces(w)) ==> forall x: int :: Has(u, x) <==> Has(v, x) && Has(w, x)
    ensures u.empty <==> forall x: intmax :: !(Has(v, x) && Has(w, x))
  {
    assert forall x: int :: Has(u, x) <==> InSome(u.elements, x);
    if !u.empty {
      var x := UnflaggedInhabited(u);
      assert Has(v, x) && Has(w, x);
    }
  }

  method FirstMeeting(p: Piece, ws: seq<Piece>) returns (j: nat)
    requires Proper(p) && AllProper(ws)
    ensures j <= |ws| && (j < |ws| ==> Overlap(p, ws[j]))
    ensures forall k :: 0 <= k < j ==> !Overlap(p, ws[k])
  {
    j := 0;
    while j < |ws| && !Overlap(p, ws[j])
      invariant 0 <= j <= |ws|
      invariant forall k :: 0 <= k < j ==> !Overlap(p, ws[k])
    {
      j := j + 1;
    }
  }

  lemma SiftOut(before: seq<Piece>, ps: seq<Piece>, i: nat, ws: seq<Piece>)
    requires i < |ps| && Sifted(ps, i, ws) && LosesForeign(before, ps, ws)
    requires forall j :: 0 <= j < |ws| ==> !Overlap(ps[i], ws[j])
    ensures Sifted(Without(ps, i), i, ws) && LosesForeign(before, Without(ps, i), ws)
  {
    Dropped(ps, i, ws);
    hide InSome, Settled, Inside;
    var qs := Without(ps, i);
    assert forall k :: 0 <= k < |qs| ==> qs[k] == ps[if k < i then k else k + 1];
  }

  lemma SiftOn(ps: seq<Piece>, i: nat, ws: seq<Piece>, j: nat)
    requires i < |ps| && Sifted(ps, i, ws) && j < |ws| && Overlap(ps[i], ws[j])
    ensures Sifted(ps, i + 1, ws)
  {
    assert !NeedsSplit(ps[i], ws[j]);
    assert Within(ps[i], ws[j]);
  }

  lemma SiftedIsCommon(before: seq<Piece>, ps: seq<Piece>, ws: seq<Piece>)
    requires Sifted(ps, |ps|, ws) && LosesForeign(before, ps, ws)
    ensures forall x: int :: InSome(ps, x) <==> InSome(before, x) && InSome(ws, x)
  {
    forall x: int | InSome(ps, x) ensures InSome(ws, x) {
      var k :| 0 <= k < |ps| && In(ps[k], x);
      assert Inside(ps[k], ws);
      var j :| 0 <= j < |ws| && Within(ps[k], ws[j]);
      WithinMeansSubset(ps[k], ws[j], x);
    }
  }

  lemma PieceCompareOrders()
    ensures Preorder(PieceCompare)
  {
  }

  class Range {
    var left: Edge
    var right: Edge
    var elements: seq<Piece>
    var emptyConstraint: bool
    var extensible: bool
    var incompatible: bool

    ghost function AsView(): View
      reads this
    {
      View(left, right, elements, emptyConstraint)
    }

    function OwnPieces(): (ps: seq<Piece>)
      reads this
      ensures ps == Pieces(AsView())
    {
      if elements == [] then [Piece(left, right)] else elements
    }

    /** (MIN..MAX) */
    constructor ()
      ensures AsView() == View(Min, Max, [], false) && !extensible && !incompatible
    {
      left, right, elements := Min, Max, [];
      emptyConstraint, extensible, incompatible := false, false, false;
    }

    constructor Clone(range: Range)
      ensures AsView() == range.AsView()
      ensures extensible == range.extensible && incompatible == range.incompatible
    {
      left, right, elements := range.left, range.right, range.elements;
      emptyConstraint, extensible, incompatible := range.emptyConstraint, range.extensible, range.incompatible;
    }

    /** Cut the elements until every one is inside or outside each of ws. */
    method SplitElements(ws: seq<Piece>)
      requires AllProper(elements) && AllProper(ws) && elements != []
      modifies this`elements
      ensures AllProper(elements) && elements != []
      ensures forall k :: 0 <= k < |elements| ==> Settled(elements[k], ws)
      ensures Recut(old(elements), elements, ws)
    {
      var i := 0;
      while i < |elements|
        invariant 0 <= i <= |elements| && elements != [] && AllProper(elements)
        invariant forall k :: 0 <= k < i ==> Settled(elements[k], ws)
        invariant Recut(old(elements), elements, ws)
        decreases TotalCuts(elements[i..], ws), |elements| - i
      {
        var r, at := FirstSplit(elements[i], ws);
        if r.Some? {
          CutAlong(old(elements), elements, i, ws, at);
          elements := Without(elements, i) + r.value;
        } else {
          assert elements[i..] == [elements[i]] + elements[i + 1..];
          i := i + 1;
        }
      }
    }

    /** Drop the elements that share nothing with ws. */
    method DropForeign(ws: seq<Piece>)
      requires AllProper(elements) && AllProper(ws)
      requires forall k :: 0 <= k < |elements| ==> Settled(elements[k], ws)
      modifies this`elements
      ensures AllProper(elements)
      ensures forall x: int :: InSome(elements, x) <==> InSome(old(elements), x) && InSome(ws, x)
    {
      var i := 0;
      while i < |elements|
        invariant 0 <= i <= |elements| && Sifted(elements, i, ws) && LosesForeign(old(elements), elements, ws)
      {
        var j := FirstMeeting(elements[i], ws);
        if j == |ws| {
          SiftOut(old(elements), elements, i, ws);
          elements := Without(elements, i);
        } else {
          SiftOn(elements, i, ws, j);
          i := i + 1;
        }
      }
      SiftedIsCommon(old(elements), elements, ws);
    }

    /** One range AND another; the strict check demands the other's edges to lie in this range. */
    method Intersect(with: Range, strictEdgeCheck: bool) returns (ok: bool)
      requires with != this && Sane(AsView()) && !incompatible
      requires !emptyConstraint && !with.emptyConstraint ==> Sane(with.AsView())
      modifies this
      ensures Sane(AsView()) && !incompatible
      ensures extensible == (old(extensible) || with.extensible)
      ensures !ok <==> strictEdgeCheck && !old(emptyConstraint) && !with.emptyConstraint
                       && !EdgesWithin(old(OwnPieces()), with.OwnPieces())
      ensures ok ==> forall x: intmax :: Has(AsView(), x) <==> Has(old(AsView()), x) && Has(with.AsView(), x)
      ensures ok ==> forall x: int :: Has(AsView(), x) ==> Has(old(AsView()), x) && Has(with.AsView(), x)
      ensures ok && Separated(with.OwnPieces()) ==>
                forall x: int :: Has(AsView(), x) <==> Has(old(AsView()), x) && Has(with.AsView(), x)
      ensures ok ==> (emptyConstraint <==>
                old(emptyConstraint) || with.emptyConstraint
                || forall x: intmax :: !(Has(old(AsView()), x) && Has(with.AsView(), x)))
    {
      hide InSome, Separated, EdgesWithin, Shares;
      extensible := extensible || with.extensible;
      emptyConstraint := emptyConstraint || with.emptyConstraint;
      if emptyConstraint {
        return true;
      }
      if elements == [] {
        elements := [Piece(left, right)];
      }
      assert elements == old(OwnPieces());
      var ws := with.OwnPieces();
      if strictEdgeCheck {
        var inside := CheckEdgesWithin(elements, ws);
        if !inside {
          return false;
        }
      }
      KeepCommon(ws);
      if elements == [] {
        emptyConstraint := true;
      }
      CommonHas(old(AsView()), with.AsView(), AsView());
      return true;
    }

    /** Cut the elements along ws and keep what they share. */
    method KeepCommon(ws: seq<Piece>)
      requires AllProper(elements) && AllProper(ws) && elements != []
      modifies this`elements
      ensures AllProper(elements) && Shares(old(elements), ws, elements)
    {
      SplitElements(ws);
      DropForeign(ws);
    }

    /** Add the pieces of another range, to be sorted out by canonicalization. */
    method MergeIn(cr: Range)
      requires cr != this
      modifies this`elements, this`extensible
      ensures elements == old(elements) + cr.OwnPieces()
      ensures forall x: int :: InSome(elements, x) <==> InSome(old(elements), x) || InSome(Pieces(cr.AsView()), x)
      ensures extensible == (old(extensible) || cr.extensible)
    {
      extensible := extensible || cr.extensible;
      forall x: int {
        InSomeConcat(elements, cr.OwnPieces(), x);
      }
      elements := elements + cr.OwnPieces();
    }

    /** Sort the elements and merge those that overlap or touch. */
    method Union()
      requires AllProper(elements) && elements != []
      modifies this`elements
      ensures AllProper(elements) && elements != [] && Separated(elements)
      ensures forall x: int :: InSome(elements, x) <==> InSome(old(elements), x)
    {
      SortByLeftEdge(elements);
      elements := Qsort(elements, PieceCompare);
      var i := 1;
      while i < |elements|
        invariant 1 <= i <= |elements| && AllProper(elements)
        invariant Separated(elements[..i])
        invariant LeftsAscend(elements[i - 1..])
        invariant forall x: int :: InSome(elements, x) <==> InSome(old(elements), x)
        decreases |elements| - i
      {
        var ra, rb := elements[i - 1], elements[i];
        assert elements[i - 1..][0] == ra && elements[i - 1..][1] == rb;
        if Overlap(ra, rb) {
          if EdgeCompare(ra.left, rb.left) < 0 { rb := rb.(left := ra.left); }
          if EdgeCompare(ra.right, rb.right) > 0 { rb := rb.(right := ra.right); }
        } else if ra.right.Value? && rb.left.Value? && WrapSub(rb.left.value, ra.right.value) == 1 {
          rb := rb.(left := ra.left);
        } else {
          SeparateNext(elements, i);
          i := i + 1;
          continue;
        }
        MergeNext(elements, i, rb);
        MergeKeepsOrder(elements, i, rb);
        elements := Without(elements[i := rb], i - 1);
      }
      assert elements[..i] == elements;
    }

    /** Order the outer edges, merge the parts, and refine the outer edges after them. */
    method Canonicalize()
      requires !left.Max? && !right.Min? && AllProper(elements)
      modifies this`left, this`right, this`elements
      ensures Canonical(AsView()) && emptyConstraint == old(emptyConstraint)
      ensures old(elements != [] || EdgeCompare(left, right) <= 0) ==>
                forall x: int :: Has(AsView(), x) <==> Has(old(AsView()), x)
      ensures old(Canonical(AsView())) ==> AsView() == old(AsView())
      ensures old(elements == [] && EdgeCompare(left, right) <= 0) ==> AsView() == old(AsView())
      ensures old(elements == [] && EdgeCompare(left, right) > 0) ==>
                AsView() == View(old(right), old(left), [], old(emptyConstraint))
    {
      if elements == [] {
        if EdgeCompare(left, right) > 0 {
          left, right := right, left;
        }
        return;
      }
      Union();
      left := elements[0].left;
      right := elements[|elements| - 1].right;
      ghost var merged := elements;
      if |elements| == 1 {
        assert elements == [Piece(left, right)];
        elements := [];
      }
      if old(Canonical(AsView())) {
        SeparatedUnique(merged, old(elements));
      }
    }
  }

  /** Subtraction of `intmax_t` values, wrapping around. */
  function WrapSub(x: intmax, y: intmax): intmax {
    (x - y - INTMAX_MIN) % 0x1_0000_0000_0000_0000 + INTMAX_MIN
  }

  /** The adjacency test survives the wrap-around. */
  lemma WrapSubAdjacent(x: intmax, y: intmax)
    requires x > y
    ensures WrapSub(x, y) == 1 <==> x == y + 1
  {
  }

  lemma SortByLeftEdge(ps: seq<Piece>)
    requires AllProper(ps)
    ensures var r := Qsort(ps, PieceCompare);
            && AllProper(r)
            && LeftsAscend(r)
            && (forall x: int :: InSome(r, x) <==> InSome(ps, x))
  {
    var r := Qsort(ps, PieceCompare);
    PieceCompareOrders();
    QsortSorts(ps, PieceCompare);
    QsortPermutes(ps, PieceCompare);
    forall k | 0 <= k < |r| ensures Proper(r[k]) {
      assert r[k] in multiset(ps);
      assert r[k] in ps;
    }
    forall k, j | 0 <= k < j < |r| ensures Key(r[k].left) <= Key(r[j].left) {
      SortedAt(r, PieceCompare, k, j);
    }
    forall x: int ensures InSome(r, x) <==> InSome(ps, x) {
      InSomeMultiset(ps, r, x);
    }
  }

  ghost predicate LeftsAscend(ps: seq<Piece>) {
    forall k, j :: 0 <= k < j < |ps| ==> Key(ps[k].left) <= Key(ps[j].left)
  }

  lemma MergeKeepsOrder(ps: seq<Piece>, i: nat, rb: Piece)
    requires 1 <= i < |ps| && AllProper(ps) && Separated(ps[..i]) && LeftsAscend(ps[i - 1..])
    requires Proper(rb) && rb.left == ps[i - 1].left
    ensures var qs := Without(ps[i := rb], i - 1);
            |qs| == |ps| - 1 && AllProper(qs) && Separated(qs[..i]) && LeftsAscend(qs[i - 1..])
  {
    var qs := Without(ps[i := rb], i - 1);
    forall k | 0 <= k < |qs| ensures qs[k] == MergedAt(ps, i, rb, k) {
    }
    MergeSeparated(ps, i, rb, qs);
    MergeAscends(ps, i, rb, qs);
  }

  /** What is at k after rb took the place of the pieces at i - 1 and i. */
  ghost function MergedAt(ps: seq<Piece>, i: nat, rb: Piece, k: nat): Piece
    requires 1 <= i < |ps| && k < |ps| - 1
  {
    if k < i - 1 then ps[k] else if k == i - 1 then rb else ps[k + 1]
  }

  lemma MergeSeparated(ps: seq<Piece>, i: nat, rb: Piece, qs: seq<Piece>)
    requires 1 <= i < |ps| && Separated(ps[..i]) && rb.left == ps[i - 1].left
    requires |qs| == |ps| - 1 && forall k :: 0 <= k < |qs| ==> qs[k] == MergedAt(ps, i, rb, k)
    ensures Separated(qs[..i])
  {
    forall k, j | 0 <= k < j < i ensures Key(qs[..i][k].right) + 1 < Key(qs[..i][j].left) {
      assert ps[..i][k] == ps[k] && ps[..i][j] == ps[j];
      assert qs[k] == ps[k] && qs[j].left == ps[j].left;
    }
  }

  lemma MergeAscends(ps: seq<Piece>, i: nat, rb: Piece, qs: seq<Piece>)
    requires 1 <= i < |ps| && LeftsAscend(ps[i - 1..]) && rb.left == ps[i - 1].left
    requires |qs| == |ps| - 1 && forall k :: 0 <= k < |qs| ==> qs[k] == MergedAt(ps, i, rb, k)
    ensures LeftsAscend(qs[i - 1..])
  {
    var t, u := qs[i - 1..], ps[i - 1..];
    forall k, j | 0 <= k < j < |t| ensures Key(t[k].left) <= Key(t[j].left) {
      assert t[k] == qs[k + i - 1] && t[j] == qs[j + i - 1];
      assert t[k].left == u[if k == 0 then 0 else k + 1].left && t[j].left == u[j + 1].left;
    }
  }

  /** Neither overlapping nor touching its predecessor, the next element is apart from all before it. */
  lemma SeparateNext(ps: seq<Piece>, i: nat)
    requires 1 <= i < |ps| && AllProper(ps) && Separated(ps[..i])
    requires LeftsAscend(ps[i - 1..]) && !Overlap(ps[i - 1], ps[i])
    requires !(ps[i - 1].right.Value? && ps[i].left.Value? && WrapSub(ps[i].left.value, ps[i - 1].right.value) == 1)
    ensures Separated(ps[..i + 1]) && LeftsAscend(ps[i..])
  {
    var ra, rb := ps[i - 1], ps[i];
    assert ps[i - 1..][0] == ra && ps[i - 1..][1] == rb && ps[i - 1..][1..] == ps[i..];
    if ra.right.Value? && rb.left.Value? {
      WrapSubAdjacent(rb.left.value, ra.right.value);
    }
    assert ps[..i + 1] == ps[..i] + [rb];
    assert ps[..i][i - 1] == ra;
  }

  /** The merged piece stands for both of its sources. */
  lemma MergeNext(ps: seq<Piece>, i: nat, rb: Piece)
    requires 1 <= i < |ps| && AllProper(ps) && LeftsAscend(ps[i - 1..])
    requires rb.left == ps[i - 1].left
    requires if Overlap(ps[i - 1], ps[i])
             then rb.right == (if EdgeCompare(ps[i - 1].right, ps[i].right) > 0 then ps[i - 1].right else ps[i].right)
             else && rb.right == ps[i].right && ps[i - 1].right.Value? && ps[i].left.Value?
                  && WrapSub(ps[i].left.value, ps[i - 1].right.value) == 1
    ensures Proper(rb)
    ensures forall x: int :: InSome(Without(ps[i := rb], i - 1), x) <==> InSome(ps, x)
  {
    assert ps[i - 1..][0] == ps[i - 1] && ps[i - 1..][1] == ps[i];
    if !Overlap(ps[i - 1], ps[i]) {
      WrapSubAdjacent(ps[i].left.value, ps[i - 1].right.value);
    }
    forall x: int ensures InSome(Without(ps[i := rb], i - 1), x) <==> InSome(ps, x) {
      assert In(rb, x) <==> In(ps[i - 1], x) || In(ps[i], x);
      assert Without(ps[i := rb], i - 1) == ps[..i - 1] + ([rb] + ps[i + 1..]);
      InSomeConcat(ps[..i - 1], [rb] + ps[i + 1..], x);
      InSomeCons(rb, ps[i + 1..], x);
      assert ps == ps[..i - 1] + ([ps[i - 1]] + ([ps[i]] + ps[i + 1..]));
      InSomeConcat(ps[..i - 1], [ps[i - 1]] + ([ps[i]] + ps[i + 1..]), x);
      InSomeCons(ps[i - 1], [ps[i]] + ps[i + 1..], x);
      InSomeCons(ps[i], ps[i + 1..], x);
    }
  }

  lemma Dropped(ps: seq<Piece>, i: nat, ws: seq<Piece>)
    requires AllProper(ps) && AllProper(ws) && i < |ps|
    requires forall j :: 0 <= j < |ws| ==> !Overlap(ps[i], ws[j])
    ensures forall x: int :: InSome(Without(ps, i), x) ==> InSome(ps, x)
    ensures forall x: int :: InSome(ps, x) && InSome(ws, x) ==> InSome(Without(ps, i), x)
  {
    forall x: int
      ensures InSome(Without(ps, i), x) ==> InSome(ps, x)
      ensures InSome(ps, x) && InSome(ws, x) ==> InSome(Without(ps, i), x)
    {
      InSomeWithout(ps, i, x);
      if j :| 0 <= j < |ws| && In(ws[j], x) {
        assert !Overlap(ps[i], ws[j]);
      }
    }
  }

  ghost predicate SameIntegers(a: seq<Piece>, b: seq<Piece>) {
    forall x: int :: InSome(a, x) <==> InSome(b, x)
  }

  /** Of two separated lists over the same integers, neither starts below the other. */
  lemma FirstLeft(a: seq<Piece>, b: seq<Piece>)
    requires AllProper(a) && AllProper(b) && Separated(a) && Separated(b)
    requires SameIntegers(a, b) && a != [] && b != []
    ensures Key(a[0].left) >= Key(b[0].left)
  {
    var p, q := a[0], b[0];
    if Key(p.left) < Key(q.left) {
      var x: int := if p.left.Value? then p.left.value
                    else if p.right.Value? && p.right.value < q.left.value then p.right.value
                    else q.left.value - 1;
      assert In(a[0], x) && InSome(a, x);
    }
  }

  lemma FirstRight(a: seq<Piece>, b: seq<Piece>)
    requires AllProper(a) && AllProper(b) && Separated(a) && Separated(b)
    requires SameIntegers(a, b) && a != [] && b != [] && a[0].left == b[0].left
    ensures Key(a[0].right) >= Key(b[0].right)
  {
    if Key(a[0].right) < Key(b[0].right) {
      var x: int := a[0].right.value + 1;
      assert In(b[0], x) && InSome(b, x);
    }
  }

  lemma TailIntegers(a: seq<Piece>, x: int)
    requires AllProper(a) && Separated(a) && a != []
    ensures InSome(a[1..], x) <==> InSome(a, x) && !In(a[0], x)
  {
    assert a == [a[0]] + a[1..];
    InSomeCons(a[0], a[1..], x);
  }

  /** The separated form of a set of integers is unique. */
  lemma {:induction false} SeparatedUnique(a: seq<Piece>, b: seq<Piece>)
    requires AllProper(a) && AllProper(b) && Separated(a) && Separated(b)
    requires SameIntegers(a, b)
    ensures a == b
  {
    if a == [] {
      if b != [] {
        var x := ProperInhabited(b[0]);
        assert InSome(b, x);
      }
    } else if b == [] {
      var x := ProperInhabited(a[0]);
      assert InSome(a, x);
    } else {
      FirstLeft(a, b);
      FirstLeft(b, a);
      FirstRight(a, b);
      FirstRight(b, a);
      forall x: int ensures InSome(a[1..], x) <==> InSome(b[1..], x) {
        TailIntegers(a, x);
        TailIntegers(b, x);
      }
      SeparatedUnique(a[1..], b[1..]);
    }
  }

  /** Two canonical ranges that stand for the same integers are the same. */
  lemma CanonicalUnique(v: View, w: View)
    requires Canonical(v) && Canonical(w) && !v.empty && !w.empty
    requires forall x: int :: Has(v, x) <==> Has(w, x)
    ensures v == w
  {
    forall x: int ensures InSome(Pieces(v), x) <==> InSome(Pieces(w), x) {
      assert Has(v, x) <==> Has(w, x);
    }
    SeparatedUnique(Pieces(v), Pieces(w));
  }
}
