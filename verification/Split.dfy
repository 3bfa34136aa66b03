/** Cutting one piece along the edges of another (libasn1fix/asn1fix_crange.c, `_range_split`). */
module Split {
  import opened Wrappers
  import opened Edges
  import opened Sorting

  /** The part of ra below rb: at most one piece, none when rb starts at the smallest `intmax`. */
  function Below(ra: Piece, rb: Piece): seq<Piece>
    requires Proper(rb)
  {
    if EdgeCompare(ra.left, rb.left) >= 0 || rb.left == Value(INTMAX_MIN) then []
    else [Piece(ra.left, Value(rb.left.value - 1))]
  }

  function Above(ra: Piece, rb: Piece): seq<Piece>
    requires Proper(rb)
  {
    if EdgeCompare(ra.right, rb.right) <= 0 || rb.right == Value(INTMAX_MAX) then []
    else [Piece(Value(rb.right.value + 1), ra.right)]
  }

  function Common(ra: Piece, rb: Piece): Piece {
    Piece(if EdgeCompare(ra.left, rb.left) < 0 then rb.left else ra.left,
          if EdgeCompare(ra.right, rb.right) > 0 then rb.right else ra.right)
  }

  /** The pieces of ra in ascending order. */
  function Parts(ra: Piece, rb: Piece): seq<Piece>
    requires Proper(rb)
  {
    Below(ra, rb) + [Common(ra, rb)] + Above(ra, rb)
  }

  /** rb has an edge strictly inside ra. */
  predicate NeedsSplit(ra: Piece, rb: Piece)
    requires Proper(ra) && Proper(rb)
  {
    Overlap(ra, rb) && !Within(ra, rb)
  }

  /** Ascending and without a common integer. */
  ghost predicate Ascending(ps: seq<Piece>) {
    forall i, j :: 0 <= i < j < |ps| ==> Key(ps[i].right) < Key(ps[j].left)
  }

  /** x lies beyond the `intmax` values, on a side where rb ends with the last of them. */
  predicate Beyond(rb: Piece, x: int) {
    (x < INTMAX_MIN && rb.left == Value(INTMAX_MIN)) || (x > INTMAX_MAX && rb.right == Value(INTMAX_MAX))
  }

  /** The parts cover ra, but for what lies beyond the `intmax` values. */
  lemma PartsCover(ra: Piece, rb: Piece, x: int)
    requires Proper(ra) && Proper(rb) && NeedsSplit(ra, rb)
    ensures InSome(Parts(ra, rb), x) ==> In(ra, x)
    ensures In(ra, x) && !Beyond(rb, x) ==> InSome(Parts(ra, rb), x)
  {
    var low, mid, high := Below(ra, rb), Common(ra, rb), Above(ra, rb);
    InSomeConcat(low + [mid], high, x);
    InSomeConcat(low, [mid], x);
    assert InSome([mid], x) <==> In(mid, x) by { assert [mid][0] == mid; }
    assert InSome(low, x) <==> low != [] && In(low[0], x);
    assert InSome(high, x) <==> high != [] && In(high[0], x);
  }

  lemma PartsInsideOrApart(ra: Piece, rb: Piece)
    requires Proper(ra) && Proper(rb) && NeedsSplit(ra, rb)
    ensures AllProper(Parts(ra, rb)) && Ascending(Parts(ra, rb))
    ensures forall i :: 0 <= i < |Parts(ra, rb)| ==>
              var p := Parts(ra, rb)[i]; Within(p, rb) || !Overlap(p, rb)
  {
  }

  /** The parts lie apart from each other, and each is inside or outside rb. */
  lemma PartsPartition(ra: Piece, rb: Piece)
    requires Proper(ra) && Proper(rb) && NeedsSplit(ra, rb)
    ensures AllProper(Parts(ra, rb)) && Ascending(Parts(ra, rb))
    ensures forall x: intmax :: InSome(Parts(ra, rb), x) <==> In(ra, x)
    ensures forall x: int :: InSome(Parts(ra, rb), x) ==> In(ra, x)
    ensures forall i :: 0 <= i < |Parts(ra, rb)| ==>
              var p := Parts(ra, rb)[i]; Within(p, rb) || !Overlap(p, rb)
  {
    PartsInsideOrApart(ra, rb);
    hide Parts, InSome;
    forall x: int
      ensures InSome(Parts(ra, rb), x) ==> In(ra, x)
      ensures INTMAX_MIN <= x <= INTMAX_MAX && In(ra, x) ==> InSome(Parts(ra, rb), x)
    {
      PartsCover(ra, rb, x);
    }
  }

  lemma QsortCons(x: Piece, s: seq<Piece>)
    ensures Qsort([x] + s, PartialCompare) == Insert(x, Qsort(s, PartialCompare), PartialCompare)
  {
    assert ([x] + s)[1..] == s;
  }

  lemma QsortTail(high: seq<Piece>, mid: Piece)
    requires |high| <= 1
    requires high != [] ==> PartialCompare(high[0], mid) > 0
    ensures Qsort(high + [mid], PartialCompare) == [mid] + high
  {
    QsortCons(mid, []);
    assert [mid] + [] == [mid];
    if high == [] {
      assert high + [mid] == [mid];
    } else {
      var x := high[0];
      assert high == [x];
      QsortCons(x, [mid]);
      assert [mid][1..] == [];
      assert Insert(x, [], PartialCompare) == [x];
    }
  }

  lemma QsortFront(x: Piece, s: seq<Piece>, r: seq<Piece>)
    requires Qsort(s, PartialCompare) == r && r != [] && PartialCompare(x, r[0]) <= 0
    ensures Qsort([x] + s, PartialCompare) == [x] + r
  {
    QsortCons(x, s);
  }

  lemma SortThree(low: seq<Piece>, high: seq<Piece>, mid: Piece)
    requires |low| <= 1 && |high| <= 1
    requires low != [] ==> PartialCompare(low[0], mid) <= 0
    requires high != [] ==> PartialCompare(high[0], mid) > 0
    ensures Qsort(low + high + [mid], PartialCompare) == low + [mid] + high
  {
    QsortTail(high, mid);
    assert low + high + [mid] == low + (high + [mid]);
    assert low + [mid] + high == low + ([mid] + high);
    var s, r := high + [mid], [mid] + high;
    if low == [] {
      assert low + s == s && low + r == r;
    } else {
      assert low == [low[0]];
      QsortFront(low[0], s, r);
    }
  }

  /** Sorting by left edge puts the parts, which are inserted low, high, middle, in ascending order. */
  lemma SortParts(ra: Piece, rb: Piece)
    requires Proper(ra) && Proper(rb) && NeedsSplit(ra, rb)
    ensures Qsort(Below(ra, rb) + Above(ra, rb) + [Common(ra, rb)], PartialCompare) == Parts(ra, rb)
  {
    var low, high, mid := Below(ra, rb), Above(ra, rb), Common(ra, rb);
    assert low != [] ==> PartialCompare(low[0], mid) <= 0;
    assert high != [] ==> PartialCompare(high[0], mid) > 0;
    SortThree(low, high, mid);
  }

  /** Cut ra where rb starts and where it ends, if either is inside it; (0..9) and (3..5) give 0..2, 3..5, 6..9. */
  method RangeSplit(ra: Piece, rb: Piece) returns (r: Option<seq<Piece>>)
    requires Proper(ra) && Proper(rb)
    ensures r.Some? <==> NeedsSplit(ra, rb)
    ensures r.Some? ==> r.value == Parts(ra, rb)
  {
    if !Overlap(ra, rb) {
      return None;
    }
    var ll := EdgeCompare(ra.left, rb.left);
    var rr := EdgeCompare(ra.right, rb.right);
    if ll >= 0 && rr <= 0 {
      return None;
    }
    var range: seq<Piece> := [];
    if ll < 0 && rb.left != Value(INTMAX_MIN) {
      range := range + [Piece(ra.left, Value(rb.left.value - 1))];
    }
    if rr > 0 && rb.right != Value(INTMAX_MAX) {
      range := range + [Piece(Value(rb.right.value + 1), ra.right)];
    }
    var left, right := ra.left, ra.right;
    if ll < 0 { left := rb.left; }
    if rr > 0 { right := rb.right; }
    range := range + [Piece(left, right)];
    assert range == Below(ra, rb) + Above(ra, rb) + [Common(ra, rb)];
    SortParts(ra, rb);
    range := Qsort(range, PartialCompare);
    r := Some(range);
  }

  /** How many edges of w lie strictly inside p. */
  ghost function CutsBy(p: Piece, w: Piece): nat {
    (if Key(p.left) < Key(w.left) <= Key(p.right) then 1 else 0) +
    (if Key(p.left) <= Key(w.right) < Key(p.right) then 1 else 0)
  }

  ghost function Cuts(p: Piece, ws: seq<Piece>): nat {
    if ws == [] then 0 else CutsBy(p, ws[0]) + Cuts(p, ws[1..])
  }

  ghost function TotalCuts(ps: seq<Piece>, ws: seq<Piece>): nat {
    if ps == [] then 0 else Cuts(ps[0], ws) + TotalCuts(ps[1..], ws)
  }

  lemma {:induction false} TotalCutsConcat(a: seq<Piece>, b: seq<Piece>, ws: seq<Piece>)
    ensures TotalCuts(a + b, ws) == TotalCuts(a, ws) + TotalCuts(b, ws)
  {
    if a == [] {
      assert a + b == b;
    } else {
      assert (a + b)[1..] == a[1..] + b;
      TotalCutsConcat(a[1..], b, ws);
    }
  }

  /** The cuts of at most one piece, if any. */
  ghost function CutsOfAny(ps: seq<Piece>, w: Piece): nat {
    if ps == [] then 0 else CutsBy(ps[0], w)
  }

  lemma PartsCutBy(ra: Piece, rb: Piece, w: Piece)
    requires Proper(ra) && Proper(rb) && NeedsSplit(ra, rb)
    ensures var n := CutsOfAny(Below(ra, rb), w) + CutsBy(Common(ra, rb), w) + CutsOfAny(Above(ra, rb), w);
            n <= CutsBy(ra, w) && (w == rb ==> n < CutsBy(ra, w))
  {
  }

  lemma TotalCutsThree(ra: Piece, rb: Piece, ws: seq<Piece>)
    requires Proper(rb)
    ensures TotalCuts(Parts(ra, rb), ws)
         == TotalCuts(Below(ra, rb), ws) + Cuts(Common(ra, rb), ws) + TotalCuts(Above(ra, rb), ws)
  {
    TotalCutsConcat(Below(ra, rb) + [Common(ra, rb)], Above(ra, rb), ws);
    TotalCutsConcat(Below(ra, rb), [Common(ra, rb)], ws);
    assert TotalCuts([Common(ra, rb)], ws) == Cuts(Common(ra, rb), ws);
  }

  lemma TotalCutsStep(ps: seq<Piece>, ws: seq<Piece>)
    requires |ps| <= 1 && ws != []
    ensures TotalCuts(ps, ws) == CutsOfAny(ps, ws[0]) + TotalCuts(ps, ws[1..])
  {
  }

  /** Cutting along rb loses the cut points of rb and multiplies no others. */
  lemma {:induction false} PartsHaveFewerCuts(ra: Piece, rb: Piece, ws: seq<Piece>)
    requires Proper(ra) && Proper(rb) && NeedsSplit(ra, rb)
    ensures TotalCuts(Parts(ra, rb), ws) <= Cuts(ra, ws)
    ensures rb in ws ==> TotalCuts(Parts(ra, rb), ws) < Cuts(ra, ws)
  {
    var b, a, c := Below(ra, rb), Above(ra, rb), Common(ra, rb);
    var n := TotalCuts(b, ws) + Cuts(c, ws) + TotalCuts(a, ws);
    assert n <= Cuts(ra, ws) && (rb in ws ==> n < Cuts(ra, ws)) by {
      if ws != [] {
        PartsHaveFewerCuts(ra, rb, ws[1..]);
        TotalCutsThree(ra, rb, ws[1..]);
        PartsCutBy(ra, rb, ws[0]);
        TotalCutsStep(b, ws);
        TotalCutsStep(a, ws);
        assert rb in ws ==> rb == ws[0] || rb in ws[1..];
      }
    }
    TotalCutsThree(ra, rb, ws);
  }
}
