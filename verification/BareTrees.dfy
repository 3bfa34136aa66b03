/**
 What a tree evaluates to when it is not exact: exclusions, open ends and the parts of an intersection that are no
 ranges have no effect (libasn1fix/asn1fix_crange.c:1069-1076, 1119-1200, 1318-1329).
 */
module BareTrees {
  import opened ConstraintTree
  import opened Evaluation

  /** A constraint that is no range, with exclusions or without. */
  predicate NoRange(ct: Constraint) {
    ct.Foreign? || (ct.Except? && NoRange(ct.kept))
  }

  /** The tree without its exclusions, with its ends closed, and with markers for parts that are no ranges. */
  function Bare(ct: Constraint): Constraint {
    match ct
    case Interval(a, b, _, _) => Interval(a, b, false, false)
    case Serial(cs) => Serial(BareParts(cs))
    case Intersection(cs) => Intersection(BareParts(cs))
    case Union(cs) => Union(BareOperands(cs))
    case Except(c, _) => Bare(c)
    case _ => ct
  }

  function BareParts(cs: seq<Constraint>): (bs: seq<Constraint>)
    ensures |bs| == |cs|
  {
    seq(|cs|, i requires 0 <= i < |cs| => if NoRange(cs[i]) then Extension else Bare(cs[i]))
  }

  function BareOperands(cs: seq<Constraint>): (bs: seq<Constraint>)
    ensures |bs| == |cs|
  {
    seq(|cs|, i requires 0 <= i < |cs| => Bare(cs[i]))
  }

  lemma {:induction false} BareMarks(ct: Constraint)
    ensures OnlyExtension(Bare(ct)) <==> OnlyExtension(ct)
  {
    if ct.Except? {
      BareMarks(ct.kept);
    }
  }

  lemma {:induction false} BareHead(cs: seq<Constraint>)
    ensures Head(BareOperands(cs)) == Head(cs)
  {
    var h, b := Head(cs), Head(BareOperands(cs));
    if h < |cs| {
      BareMarks(cs[h]);
      assert BareOperands(cs)[h] == Bare(cs[h]);
    }
    if b < |cs| {
      BareMarks(cs[b]);
      assert BareOperands(cs)[b] == Bare(cs[b]);
    }
  }

  /** Constraints that are no ranges are reported as incompatible. */
  lemma {:induction false} NoRangeIncompatible(ct: Constraint, P: iset<int>, free: bool)
    requires NoRange(ct)
    ensures Evaluated(ct, P, free).Incompatible?
  {
    if ct.Except? {
      NoRangeIncompatible(ct.kept, P, free);
    }
  }

  /** Nothing but an incompatible constraint, or a union with one or with markers only. */
  predicate Rangeless(ct: Constraint) {
    match ct
    case Foreign(_) => true
    case Single(v) => v.BitVector?
    case Interval(a, b, _, _) => a.BitVector? || b.BitVector?
    case Union(cs) => Head(cs) == |cs| || exists i :: 0 <= i < |cs| && Rangeless(cs[i])
    case Except(c, _) => Rangeless(c)
    case _ => false
  }

  /** Of the trees without errors, just these are reported as incompatible. */
  lemma {:induction false} IncompatibleIff(ct: Constraint, P: iset<int>, free: bool)
    requires !Evaluated(ct, P, free).Failure?
    ensures Evaluated(ct, P, free).Incompatible? <==> Rangeless(ct)
  {
    match ct
    case Union(cs) =>
      if Head(cs) < |cs| {
        MergedIncompatibleIff(cs, Head(cs), |cs|, P, free);
        forall k | 0 <= k < Head(cs) ensures !Rangeless(cs[k]) {
          MarkerIff(cs[k], P, free);
          IncompatibleIff(cs[k], P, free);
        }
      }
    case Except(c, _) => IncompatibleIff(c, P, free);
    case _ =>
  }

  lemma {:induction false} MergedIncompatibleIff(cs: seq<Constraint>, i: nat, n: nat, P: iset<int>, free: bool)
    requires i <= n <= |cs| && !Merged(cs, i, n, P, free).Failure?
    ensures Merged(cs, i, n, P, free).Incompatible? <==> exists k :: i <= k < n && Rangeless(cs[k])
    decreases cs, n
  {
    if n > i {
      MergedIncompatibleIff(cs, i, n - 1, P, free);
      if Merged(cs, i, n - 1, P, free).Denotes? && !Evaluated(cs[n - 1], P, free).Failure? {
        IncompatibleIff(cs[n - 1], P, free);
      }
    }
  }

  /** Every tree evaluates to what its bare tree evaluates to. */
  lemma {:induction false} EvaluatedAsBare(ct: Constraint, P: iset<int>, free: bool)
    ensures Evaluated(ct, P, free) == Evaluated(Bare(ct), P, free)
  {
    match ct
    case Serial(cs) => ConjoinedAsBare(cs, |cs|, true, P, free);
    case Intersection(cs) => ConjoinedAsBare(cs, |cs|, false, P, free);
    case Union(cs) =>
      BareHead(cs);
      MergedAsBare(cs, Head(cs), |cs|, P, free);
      if Head(cs) < |cs| {
        EvaluatedAsBare(cs[Head(cs)], P, free);
      }
    case Except(c, _) => EvaluatedAsBare(c, P, free);
    case _ =>
  }

  lemma {:induction false} ConjoinedAsBare(cs: seq<Constraint>, n: nat, serial: bool, P: iset<int>, free: bool)
    requires n <= |cs|
    ensures Conjoined(cs, n, serial, P, free) == Conjoined(BareParts(cs), n, serial, P, free)
    decreases cs, n
  {
    if n > 0 {
      ConjoinedAsBare(cs, n - 1, serial, P, free);
      var m := Conjoined(cs, n - 1, serial, P, free);
      if m.Denotes? {
        PartAsBare(cs, n - 1, if serial then m.members else P, free && !serial);
      }
    }
  }

  /** A part evaluates as in the bare tree, where a marker stands for an incompatible one. */
  lemma {:induction false} PartAsBare(cs: seq<Constraint>, i: nat, P: iset<int>, free: bool)
    requires i < |cs|
    ensures var e, b := Evaluated(cs[i], P, free), Evaluated(BareParts(cs)[i], P, free);
            e == b || (e.Incompatible? && b.Marker?)
    decreases cs, 0, 0
  {
    if NoRange(cs[i]) {
      NoRangeIncompatible(cs[i], P, free);
    } else {
      EvaluatedAsBare(cs[i], P, free);
    }
  }

  lemma {:induction false} MergedAsBare(cs: seq<Constraint>, i: nat, n: nat, P: iset<int>, free: bool)
    requires i <= n <= |cs|
    ensures Merged(cs, i, n, P, free) == Merged(BareOperands(cs), i, n, P, free)
    decreases cs, n
  {
    if n > i {
      MergedAsBare(cs, i, n - 1, P, free);
      EvaluatedAsBare(cs[n - 1], P, free);
    }
  }

  /** An exact tree is bare already. */
  lemma {:induction false} ExactIsBare(ct: Constraint)
    requires Exact(ct)
    ensures Bare(ct) == ct
  {
    match ct
    case Serial(cs) => AllExactAreBare(cs);
    case Intersection(cs) => AllExactAreBare(cs);
    case Union(cs) => AllExactAreBare(cs);
    case _ =>
  }

  lemma {:induction false} AllExactAreBare(cs: seq<Constraint>)
    requires forall i :: 0 <= i < |cs| ==> Exact(cs[i])
    ensures BareParts(cs) == cs && BareOperands(cs) == cs
  {
    forall i | 0 <= i < |cs| ensures !NoRange(cs[i]) && Bare(cs[i]) == cs[i] {
      ExactIsBare(cs[i]);
    }
  }

  // ----- Unions without hidden operands -----

  /** Wherever a union admits anything, its first operand that is more than a marker does. */
  ghost predicate HeadsAdmit(ct: Constraint, P: iset<int>) {
    match ct
    case Serial(cs) => forall i :: 0 <= i < |cs| ==> HeadsAdmit(cs[i], AdmittedInTurn(cs, i, P))
    case Intersection(cs) => forall i :: 0 <= i < |cs| ==> HeadsAdmit(cs[i], P)
    case Union(cs) => HeadAdmits(cs, P) && forall i :: 0 <= i < |cs| ==> HeadsAdmit(cs[i], P)
    case _ => true
  }

  ghost predicate HeadAdmits(cs: seq<Constraint>, P: iset<int>) {
    Head(cs) < |cs| && (Admitted(Union(cs), P) != iset{} ==> Admitted(cs[Head(cs)], P) != iset{})
  }

  lemma {:induction false} HeadsKeptAsBare(ct: Constraint, P: iset<int>, free: bool)
    ensures HeadsKept(ct, P, free) <==> HeadsKept(Bare(ct), P, free)
  {
    hide Evaluated, HeadKept, NoRange;
    match ct
    case Serial(cs) =>
      forall i | 0 <= i < |cs| ensures KeptAt(cs, i, P, free) <==> KeptAt(BareParts(cs), i, P, free) {
        ConjoinedAsBare(cs, i, true, P, free);
        var m := Conjoined(cs, i, true, P, free);
        if m.Denotes? {
          PartKeptAsBare(cs, i, m.members, false);
        }
      }
      SerialKept(cs, P, free);
      SerialKept(BareParts(cs), P, free);
    case Intersection(cs) =>
      forall i | 0 <= i < |cs| ensures HeadsKept(cs[i], P, free) <==> HeadsKept(BareParts(cs)[i], P, free) {
        PartKeptAsBare(cs, i, P, free);
      }
    case Union(cs) =>
      forall i | 0 <= i < |cs| ensures HeadsKept(cs[i], P, free) <==> HeadsKept(BareOperands(cs)[i], P, free) {
        HeadsKeptAsBare(cs[i], P, free);
      }
      HeadKeptAsBare(cs, P, free);
    case Except(c, _) => HeadsKeptAsBare(c, P, free);
    case _ =>
  }

  lemma HeadKeptAsBare(cs: seq<Constraint>, P: iset<int>, free: bool)
    ensures HeadKept(cs, P, free) <==> HeadKept(BareOperands(cs), P, free)
  {
    BareHead(cs);
    forall i | 0 <= i < |cs| ensures Evaluated(cs[i], P, free) == Evaluated(BareOperands(cs)[i], P, free) {
      EvaluatedAsBare(cs[i], P, free);
    }
    hide Evaluated, Bare;
  }

  lemma {:induction false} PartKeptAsBare(cs: seq<Constraint>, i: nat, P: iset<int>, free: bool)
    requires i < |cs|
    ensures HeadsKept(cs[i], P, free) <==> HeadsKept(BareParts(cs)[i], P, free)
    decreases cs, 0, 0
  {
    if NoRange(cs[i]) {
      NoRangeKept(cs[i], P, free);
    } else {
      HeadsKeptAsBare(cs[i], P, free);
    }
  }

  lemma {:induction false} NoRangeKept(ct: Constraint, P: iset<int>, free: bool)
    requires NoRange(ct)
    ensures HeadsKept(ct, P, free)
  {
    if ct.Except? {
      NoRangeKept(ct.kept, P, free);
    }
  }

  /** On an exact tree that fits, no operand is hidden if and only if the head of every union admits what it must. */
  lemma {:induction false} HeadsKeptIff(ct: Constraint, P: iset<int>, free: bool)
    requires Exact(ct) && Fits(ct, P) && (free ==> P == ALL)
    ensures HeadsKept(ct, P, free) <==> HeadsAdmit(ct, P)
  {
    hide Admitted, AdmittedInTurn, Evaluated, HeadKept, HeadAdmits;
    match ct
    case Serial(cs) =>
      KeptInTurnIff(cs, |cs|, P, free);
      SerialKept(cs, P, free);
    case Intersection(cs) =>
      forall i | 0 <= i < |cs| ensures HeadsKept(cs[i], P, free) <==> HeadsAdmit(cs[i], P) {
        HeadsKeptIff(cs[i], P, free);
      }
    case Union(cs) =>
      forall i | 0 <= i < |cs| ensures HeadsKept(cs[i], P, free) <==> HeadsAdmit(cs[i], P) {
        HeadsKeptIff(cs[i], P, free);
      }
      if forall i :: 0 <= i < |cs| ==> HeadsKept(cs[i], P, free) {
        HeadKeptIff(cs, P, free);
      }
    case _ =>
  }

  lemma SerialKept(cs: seq<Constraint>, P: iset<int>, free: bool)
    ensures HeadsKept(Serial(cs), P, free) <==> AllKept(cs, |cs|, P, free)
    ensures HeadsAdmit(Serial(cs), P) <==> AllAdmit(cs, |cs|, P)
  {
    assert forall i :: 0 <= i < |cs| ==>
      (KeptAt(cs, i, P, free) <==>
        var m := Conjoined(cs, i, true, P, free); m.Denotes? ==> HeadsKept(cs[i], m.members, false));
  }

  /** An exact tree that fits and hides no operand denotes what it admits. */
  lemma FittingDenotes(ct: Constraint, P: iset<int>, free: bool)
    requires Exact(ct) && Fits(ct, P) && HeadsKept(ct, P, free) && (free ==> P == ALL)
    ensures Evaluated(ct, P, free) == if OnlyExtension(ct) then Marker else Denotes(Admitted(ct, P))
  {
    FailsIff(ct, P, free);
    NeverIncompatible(ct, P, free);
    MarkerIff(ct, P, free);
    if !OnlyExtension(ct) {
      Exactly(ct, P, free);
    }
  }

  lemma HeadKeptIff(cs: seq<Constraint>, P: iset<int>, free: bool)
    requires Exact(Union(cs)) && Fits(Union(cs), P) && (free ==> P == ALL)
    requires forall i :: 0 <= i < |cs| ==> HeadsKept(cs[i], P, free)
    ensures HeadKept(cs, P, free) <==> HeadAdmits(cs, P)
  {
    forall i | 0 <= i < |cs|
      ensures Evaluated(cs[i], P, free) == if OnlyExtension(cs[i]) then Marker else Denotes(Admitted(cs[i], P))
    {
      FittingDenotes(cs[i], P, free);
    }
    hide Exact, Fits, HeadsKept, Evaluated, Admitted;
    UnionAdmitsIff(cs, P);
  }

  /** A union admits something if and only if one of its operands from the head on does. */
  lemma UnionAdmitsIff(cs: seq<Constraint>, P: iset<int>)
    ensures Admitted(Union(cs), P) != iset{} <==>
              exists k :: Head(cs) <= k < |cs| && !OnlyExtension(cs[k]) && Admitted(cs[k], P) != iset{}
  {
    if Admitted(Union(cs), P) != iset{} {
      var x := SomeMember(Admitted(Union(cs), P));
      var k :| 0 <= k < |cs| && !OnlyExtension(cs[k]) && x in Admitted(cs[k], P);
      assert Head(cs) <= k;
    }
    if k :| Head(cs) <= k < |cs| && !OnlyExtension(cs[k]) && Admitted(cs[k], P) != iset{} {
      AdmittedWithin(cs[k], P);
      var x := SomeMember(Admitted(cs[k], P));
      assert x in Admitted(Union(cs), P);
    }
  }

  /** The first n serial constraints hide no operand. */
  ghost predicate AllKept(cs: seq<Constraint>, n: nat, P: iset<int>, free: bool) {
    forall i :: 0 <= i < n <= |cs| ==> KeptAt(cs, i, P, free)
  }

  ghost predicate KeptAt(cs: seq<Constraint>, i: nat, P: iset<int>, free: bool)
    requires i < |cs|
  {
    var m := Conjoined(cs, i, true, P, free);
    m.Denotes? ==> HeadsKept(cs[i], m.members, false)
  }

  ghost predicate AllAdmit(cs: seq<Constraint>, n: nat, P: iset<int>) {
    forall i :: 0 <= i < n <= |cs| ==> HeadsAdmit(cs[i], AdmittedInTurn(cs, i, P))
  }

  lemma NoneToKeep(cs: seq<Constraint>, P: iset<int>, free: bool)
    ensures AllKept(cs, 0, P, free) && AllAdmit(cs, 0, P)
  {
  }

  lemma AllOneMore(cs: seq<Constraint>, n: nat, P: iset<int>, free: bool)
    requires 0 < n <= |cs|
    ensures AllKept(cs, n, P, free) <==> AllKept(cs, n - 1, P, free) && KeptAt(cs, n - 1, P, free)
    ensures AllAdmit(cs, n, P) <==> AllAdmit(cs, n - 1, P) && HeadsAdmit(cs[n - 1], AdmittedInTurn(cs, n - 1, P))
  {
    hide KeptAt, HeadsAdmit, AdmittedInTurn;
    assert AllAdmit(cs, n, P) ==> HeadsAdmit(cs[n - 1], AdmittedInTurn(cs, n - 1, P));
  }

  /** The same for the first n serial constraints; what they denote is what they admit. */
  lemma {:induction false} KeptInTurnIff(cs: seq<Constraint>, n: nat, P: iset<int>, free: bool)
    requires n <= |cs| && Exact(Serial(cs)) && AllFitInTurn(cs, n, P) && (free ==> P == ALL)
    ensures AllKept(cs, n, P, free) <==> AllAdmit(cs, n, P)
    ensures AllKept(cs, n, P, free) ==> Conjoined(cs, n, true, P, free) == Denotes(AdmittedInTurn(cs, n, P))
    decreases cs, n
  {
    hide HeadsKept, HeadsAdmit, Fits, Evaluated, Admitted, Exact, AllKept, AllAdmit;
    if n == 0 {
      NoneToKeep(cs, P, free);
    } else {
      KeptInTurnIff(cs, n - 1, P, free);
      AllOneMore(cs, n, P, free);
      var Q := AdmittedInTurn(cs, n - 1, P);
      SerialPartExact(cs, n - 1);
      HeadsKeptIff(cs[n - 1], Q, false);
      if AllKept(cs, n - 1, P, free) && HeadsKept(cs[n - 1], Q, false) {
        SerialNext(cs, n, P, free);
      }
    }
  }

  lemma SerialPartExact(cs: seq<Constraint>, i: nat)
    requires i < |cs| && Exact(Serial(cs))
    ensures Exact(cs[i])
  {
  }

  lemma SerialNext(cs: seq<Constraint>, n: nat, P: iset<int>, free: bool)
    requires 0 < n <= |cs| && Exact(cs[n - 1])
    requires var Q := AdmittedInTurn(cs, n - 1, P);
             && Conjoined(cs, n - 1, true, P, free) == Denotes(Q)
             && Fits(cs[n - 1], Q) && HeadsKept(cs[n - 1], Q, false)
    ensures Conjoined(cs, n, true, P, free) == Denotes(AdmittedInTurn(cs, n, P))
  {
    hide HeadsKept, Fits, Evaluated, Admitted, Exact;
    var Q := AdmittedInTurn(cs, n - 1, P);
    FittingDenotes(cs[n - 1], Q, false);
    AdmittedWithin(cs[n - 1], Q);
    assert !OnlyExtension(cs[n - 1]) ==> Q * Admitted(cs[n - 1], Q) == Admitted(cs[n - 1], Q);
  }

  /**
   What a tree evaluates to, if its bare tree is exact: the set that the bare tree admits, and an error if and only
   if that does not fit.
   */
  lemma BareDecides(ct: Constraint, P: iset<int>, free: bool)
    requires Exact(Bare(ct)) && HeadsKept(ct, P, free) && (free ==> P == ALL)
    ensures Evaluated(ct, P, free).Failure? <==> !Fits(Bare(ct), P)
    ensures Fits(Bare(ct), P) && !OnlyExtension(ct) ==> Evaluated(ct, P, free) == Denotes(Admitted(Bare(ct), P))
  {
    EvaluatedAsBare(ct, P, free);
    HeadsKeptAsBare(ct, P, free);
    BareMarks(ct);
    FailsIff(Bare(ct), P, free);
    if Fits(Bare(ct), P) {
      FittingDenotes(Bare(ct), P, free);
    }
  }

  /** Whether operands are hidden is known from what the bare tree admits. */
  lemma BareKeptIff(ct: Constraint, P: iset<int>, free: bool)
    requires Exact(Bare(ct)) && Fits(Bare(ct), P) && (free ==> P == ALL)
    ensures HeadsKept(ct, P, free) <==> HeadsAdmit(Bare(ct), P)
  {
    HeadsKeptAsBare(ct, P, free);
    HeadsKeptIff(Bare(ct), P, free);
  }
}
