/**
 What the compiler makes of a constraint tree, as sets (the design of libasn1fix/asn1fix_crange.c:967-1400),
 and how that compares with what the tree admits.
 */
module Evaluation {
  import opened ConstraintTree

  /** The set of a tree; or just an extension marker, a constraint that is no range, or an error. */
  datatype Meaning = Marker | Incompatible | Failure | Denotes(members: iset<int>)

  ghost const ALL: iset<int> := iset x: int | true

  // ----- Values and intervals -----

  /** x is not below the lower edge that v gives, within the parent set; openness has no effect. */
  predicate From(x: int, v: Literal) {
    Number(v) ==> NumberOf(v) <= x
  }

  predicate UpTo(x: int, v: Literal) {
    Number(v) ==> x <= NumberOf(v)
  }

  ghost predicate LowerBound(P: iset<int>, b: int) {
    forall y :: y in P ==> b <= y
  }

  ghost predicate UpperBound(P: iset<int>, b: int) {
    forall y :: y in P ==> y <= b
  }

  ghost predicate BoundedBelow(P: iset<int>) {
    exists b :: LowerBound(P, b)
  }

  ghost predicate BoundedAbove(P: iset<int>) {
    exists b :: UpperBound(P, b)
  }

  /** The edge that v gives lies in P; a character string stands for no bound. */
  ghost predicate EdgeIn(v: Literal, isLeft: bool, P: iset<int>) {
    if Number(v) then NumberOf(v) in P
    else if v.CharString? then (if isLeft then !BoundedBelow(P) else !BoundedAbove(P))
    else true
  }

  predicate Unreadable(v: Literal) {
    v.Referenced? || v.Unrecognized?
  }

  /** The members of P from one literal to another; without a parent, bounds out of order are swapped. */
  ghost function Between(a: Literal, b: Literal, P: iset<int>, free: bool): iset<int> {
    if free && Number(a) && Number(b) && NumberOf(b) < NumberOf(a)
    then iset x: int | x in P && From(x, b) && UpTo(x, a)
    else iset x: int | x in P && From(x, a) && UpTo(x, b)
  }

  ghost function Leaf(a: Literal, b: Literal, P: iset<int>, free: bool): Meaning {
    if Unreadable(a) then Failure
    else if a.BitVector? then Incompatible
    else if Unreadable(b) then Failure
    else if b.BitVector? then Incompatible
    else if free || P == iset{} then Denotes(Between(a, b, P, free))
    else if EdgeIn(a, true, P) && EdgeIn(b, false, P) && Between(a, b, P, false) != iset{}
    then Denotes(Between(a, b, P, false))
    else Failure
  }

  // ----- Trees -----

  /** The meaning of a tree in the parent set P, which is all integers when there is no parent (free). */
  ghost function Evaluated(ct: Constraint, P: iset<int>, free: bool): Meaning {
    match ct
    case Single(v) => Leaf(v, v, P, free)
    case Interval(a, b, _, _) => Leaf(a, b, P, free)
    case Extension => Marker
    case Serial(cs) => Conjoined(cs, |cs|, true, P, free)
    case Intersection(cs) => Conjoined(cs, |cs|, false, P, free)
    case Union(cs) => United(cs, P, free)
    case Except(c, _) => Evaluated(c, P, free)
    case Foreign(_) => Incompatible
  }

  /** What the first n parts leave of P; serial parts are parents to the next ones. */
  ghost function Conjoined(cs: seq<Constraint>, n: nat, serial: bool, P: iset<int>, free: bool): (m: Meaning)
    requires n <= |cs|
    ensures m.Failure? || m.Denotes?
    decreases cs, n
  {
    if n == 0 then Denotes(P)
    else
      match Conjoined(cs, n - 1, serial, P, free)
      case Failure => Failure
      case Denotes(Q) =>
        match Evaluated(cs[n - 1], if serial then Q else P, free && !serial)
        case Failure => Failure
        case Denotes(S) => Denotes(Q * S)
        case _ => Denotes(Q)
  }

  /** The operands from the i-th up to the n-th together. */
  ghost function Merged(cs: seq<Constraint>, i: nat, n: nat, P: iset<int>, free: bool): (m: Meaning)
    requires i <= n <= |cs|
    ensures !m.Marker?
    decreases cs, n
  {
    if n == i then Denotes(iset{})
    else
      var m := Merged(cs, i, n - 1, P, free);
      if !m.Denotes? then m
      else
        match Evaluated(cs[n - 1], P, free)
        case Marker => m
        case Denotes(S) => Denotes(m.members + S)
        case e => e
  }

  /** All operands together, unless the first one that is more than a marker has no members. */
  ghost function United(cs: seq<Constraint>, P: iset<int>, free: bool): (m: Meaning)
    ensures !m.Marker?
    decreases cs, |cs| + 1
  {
    var i := Head(cs);
    if i == |cs| then Incompatible
    else
      var all := Merged(cs, i, |cs|, P, free);
      if all.Denotes? && Evaluated(cs[i], P, free) == Denotes(iset{}) then Denotes(iset{}) else all
  }

  lemma {:induction false} MarkerIff(ct: Constraint, P: iset<int>, free: bool)
    ensures Evaluated(ct, P, free).Marker? <==> OnlyExtension(ct)
  {
    if ct.Except? {
      MarkerIff(ct.kept, P, free);
    }
  }

  ghost function Only(x: int, P: iset<int>): Meaning {
    if x in P then Denotes(iset{x}) else Failure
  }

  /** What a single value stands for within a parent set that has members. */
  lemma SingleMeans(v: Literal, P: iset<int>)
    requires P != iset{} && !v.MinValue? && !v.MaxValue?
    ensures var m := Evaluated(Single(v), P, false);
            && (v.Integer? ==> m == Only(v.i, P)) && (v.Tuple? ==> m == Only(v.t, P))
            && (v == Boolean(false) ==> m == Only(0, P)) && (v == Boolean(true) ==> m == Only(1, P))
            && (v.CharString? ==> m == if BoundedBelow(P) || BoundedAbove(P) then Failure else Denotes(P))
            && (v.BitVector? <==> m.Incompatible?) && (v.Referenced? || v.Unrecognized? ==> m.Failure?)
  {
    var S := Between(v, v, P, false);
    if v.Boolean? || v.Tuple? || v.Integer? {
      assert NumberOf(v) in P ==> NumberOf(v) in S;
      assert forall x: int :: x in S ==> x == NumberOf(v);
    } else {
      assert S == P;
    }
  }

  // ----- Evaluation and admission -----

  /** Wherever a union is evaluated, its first operand has members if any operand has. */
  ghost predicate HeadsKept(ct: Constraint, P: iset<int>, free: bool) {
    match ct
    case Serial(cs) => forall i :: 0 <= i < |cs| ==>
      var m := Conjoined(cs, i, true, P, free); m.Denotes? ==> HeadsKept(cs[i], m.members, false)
    case Intersection(cs) => forall i :: 0 <= i < |cs| ==> HeadsKept(cs[i], P, free)
    case Union(cs) => HeadKept(cs, P, free) && forall i :: 0 <= i < |cs| ==> HeadsKept(cs[i], P, free)
    case Except(c, _) => HeadsKept(c, P, free)
    case _ => true
  }

  ghost predicate HeadKept(cs: seq<Constraint>, P: iset<int>, free: bool) {
    forall k :: Head(cs) <= k < |cs| ==>
      Evaluated(cs[k], P, free).Denotes? && Evaluated(cs[k], P, free).members != iset{} ==>
      Evaluated(cs[Head(cs)], P, free) != Denotes(iset{})
  }

  /** The union of what the operands denote. */
  ghost function Together(cs: seq<Constraint>, P: iset<int>, free: bool): iset<int> {
    iset x: int | OperandHas(cs, 0, |cs|, x, P, free)
  }

  ghost predicate OperandHas(cs: seq<Constraint>, i: nat, n: nat, x: int, P: iset<int>, free: bool) {
    exists k :: i <= k < n <= |cs| && DenotesMember(cs[k], x, P, free)
  }

  ghost predicate DenotesMember(ct: Constraint, x: int, P: iset<int>, free: bool) {
    Evaluated(ct, P, free).Denotes? && x in Evaluated(ct, P, free).members
  }

  lemma OperandHasStep(cs: seq<Constraint>, i: nat, n: nat, P: iset<int>, free: bool)
    requires i < n <= |cs|
    ensures forall x: int ::
              OperandHas(cs, i, n, x, P, free) <==>
              OperandHas(cs, i, n - 1, x, P, free) || DenotesMember(cs[n - 1], x, P, free)
  {
  }

  /** None of these operands ends the union. */
  ghost predicate NoneEnds(cs: seq<Constraint>, i: nat, n: nat, P: iset<int>, free: bool) {
    forall k :: i <= k < n <= |cs| ==> Evaluated(cs[k], P, free).Denotes? || Evaluated(cs[k], P, free).Marker?
  }

  lemma MergedLast(cs: seq<Constraint>, i: nat, n: nat, P: iset<int>, free: bool)
    requires i < n <= |cs| && Merged(cs, i, n, P, free).Denotes?
    ensures Merged(cs, i, n - 1, P, free).Denotes?
    ensures Evaluated(cs[n - 1], P, free).Denotes? || Evaluated(cs[n - 1], P, free).Marker?
    ensures forall x: int :: x in Merged(cs, i, n, P, free).members <==>
              x in Merged(cs, i, n - 1, P, free).members || DenotesMember(cs[n - 1], x, P, free)
  {
    hide Evaluated;
  }

  lemma {:induction false} MergedIsTogether(cs: seq<Constraint>, i: nat, n: nat, P: iset<int>, free: bool)
    requires i <= n <= |cs| && Merged(cs, i, n, P, free).Denotes?
    ensures forall x: int :: x in Merged(cs, i, n, P, free).members <==> OperandHas(cs, i, n, x, P, free)
    ensures NoneEnds(cs, i, n, P, free)
    decreases n
  {
    if n == i {
      return;
    }
    hide Merged, Evaluated, DenotesMember, OperandHas;
    MergedLast(cs, i, n, P, free);
    MergedIsTogether(cs, i, n - 1, P, free);
    OperandHasStep(cs, i, n, P, free);
  }

  lemma SomeMember(S: iset<int>) returns (x: int)
    requires S != iset{}
    ensures x in S
  {
    assert (forall y :: y !in S) ==> S == iset{};
    x :| x in S;
  }

  /**
   For every union that evaluates to a set: it is the union of what the operands denote if and only if its
   first operand has members whenever any operand has; otherwise nothing is left of it.
   */
  lemma UnionIff(cs: seq<Constraint>, P: iset<int>, free: bool)
    requires United(cs, P, free).Denotes?
    ensures United(cs, P, free).members == Together(cs, P, free) <==> HeadKept(cs, P, free)
    ensures !HeadKept(cs, P, free) ==> United(cs, P, free).members == iset{}
  {
    var i, all := Head(cs), Merged(cs, Head(cs), |cs|, P, free);
    MergedIsTogether(cs, i, |cs|, P, free);
    forall k | 0 <= k < i ensures !Evaluated(cs[k], P, free).Denotes? {
      MarkerIff(cs[k], P, free);
    }
    forall x: int ensures x in all.members <==> x in Together(cs, P, free) {
      if x in Together(cs, P, free) {
        var k :| 0 <= k < |cs| && DenotesMember(cs[k], x, P, free);
        assert i <= k && OperandHas(cs, i, |cs|, x, P, free);
      }
    }
    MarkerIff(cs[i], P, free);
    if !HeadKept(cs, P, free) {
      var k :| i <= k < |cs| && Evaluated(cs[k], P, free).Denotes? && Evaluated(cs[k], P, free).members != iset{};
      var x := SomeMember(Evaluated(cs[k], P, free).members);
      assert DenotesMember(cs[k], x, P, free);
      assert x in Together(cs, P, free);
    }
  }

  /** What a tree admits is in its set, even when evaluation has left more of its parent set. */
  lemma {:induction false} Contains(ct: Constraint, A: iset<int>, P: iset<int>, free: bool)
    requires HeadsKept(ct, P, free) && A <= P && (free ==> P == ALL)
    requires Evaluated(ct, P, free).Denotes?
    ensures Admitted(ct, A) <= Evaluated(ct, P, free).members
  {
    match ct
    case Serial(cs) => ContainsInTurn(ct, |cs|, A, P, free);
    case Intersection(cs) => ContainsAll(ct, |cs|, A, P, free);
    case Union(cs) =>
      UnionIff(cs, P, free);
      MergedIsTogether(cs, Head(cs), |cs|, P, free);
      forall x | x in Admitted(ct, A) ensures x in Evaluated(ct, P, free).members {
        var k :| 0 <= k < |cs| && !OnlyExtension(cs[k]) && x in Admitted(cs[k], A);
        MarkerIff(cs[k], P, free);
        Contains(cs[k], A, P, free);
        assert DenotesMember(cs[k], x, P, free);
      }
    case Except(c, _) => Contains(c, A, P, free);
    case _ =>
  }

  lemma {:induction false} ContainsInTurn(ct: Constraint, n: nat, A: iset<int>, P: iset<int>, free: bool)
    requires ct.Serial? && n <= |ct.parts| && HeadsKept(ct, P, free)
    requires A <= P && (free ==> P == ALL)
    requires Conjoined(ct.parts, n, true, P, free).Denotes?
    ensures AdmittedInTurn(ct.parts, n, A) <= Conjoined(ct.parts, n, true, P, free).members
    decreases ct.parts, n
  {
    if n > 0 {
      ContainsInTurn(ct, n - 1, A, P, free);
      var c, B := ct.parts[n - 1], AdmittedInTurn(ct.parts, n - 1, A);
      var Q := Conjoined(ct.parts, n - 1, true, P, free).members;
      SerialPartKept(ct, n - 1, P, free);
      if Evaluated(c, Q, false).Denotes? {
        Contains(c, B, Q, false);
      }
      ContainsNext(ct.parts, n, A, P, free, B, Q);
    }
  }

  lemma SerialPartKept(ct: Constraint, i: nat, P: iset<int>, free: bool)
    requires ct.Serial? && i < |ct.parts| && HeadsKept(ct, P, free)
    requires Conjoined(ct.parts, i, true, P, free).Denotes?
    ensures var Q := Conjoined(ct.parts, i, true, P, free).members;
            HeadsKept(ct.parts[i], Q, false)
  {
  }

  lemma ContainsNext(cs: seq<Constraint>, n: nat, A: iset<int>, P: iset<int>, free: bool, B: iset<int>, Q: iset<int>)
    requires 0 < n <= |cs| && AdmittedInTurn(cs, n - 1, A) == B && Conjoined(cs, n - 1, true, P, free) == Denotes(Q)
    requires var m := Evaluated(cs[n - 1], Q, false); B <= Q && (m.Denotes? ==> Admitted(cs[n - 1], B) <= m.members)
    requires Conjoined(cs, n, true, P, free).Denotes?
    ensures AdmittedInTurn(cs, n, A) <= Conjoined(cs, n, true, P, free).members
  {
    AdmittedWithin(cs[n - 1], B);
    MarkerIff(cs[n - 1], Q, false);
  }

  lemma {:induction false} ContainsAll(ct: Constraint, n: nat, A: iset<int>, P: iset<int>, free: bool)
    requires ct.Intersection? && n <= |ct.parts| && HeadsKept(ct, P, free)
    requires A <= P && (free ==> P == ALL)
    requires Conjoined(ct.parts, n, false, P, free).Denotes?
    ensures Admitted(ct, A) <= Conjoined(ct.parts, n, false, P, free).members
    decreases ct.parts, n
  {
    if n > 0 {
      ContainsAll(ct, n - 1, A, P, free);
      var c := ct.parts[n - 1];
      MarkerIff(c, P, free);
      if Evaluated(c, P, free).Denotes? {
        Contains(c, A, P, free);
      }
    }
  }

  // ----- Exact trees -----

  /** On an exact tree evaluation and admission agree. */
  lemma {:induction false} Exactly(ct: Constraint, P: iset<int>, free: bool)
    requires Exact(ct) && HeadsKept(ct, P, free) && (free ==> P == ALL)
    requires Evaluated(ct, P, free).Denotes?
    ensures Evaluated(ct, P, free).members == Admitted(ct, P)
  {
    match ct
    case Serial(cs) => ExactlyInTurn(cs, |cs|, P, free);
    case Intersection(cs) =>
      ExactlyAll(cs, |cs|, P, free);
    case Union(cs) =>
      UnionIff(cs, P, free);
      MergedIsTogether(cs, Head(cs), |cs|, P, free);
      forall k | Head(cs) <= k < |cs|
        ensures Evaluated(cs[k], P, free).Denotes? <==> !OnlyExtension(cs[k])
        ensures Evaluated(cs[k], P, free).Denotes? ==> Evaluated(cs[k], P, free).members == Admitted(cs[k], P)
        ensures Admitted(cs[k], P) <= P
      {
        MarkerIff(cs[k], P, free);
        AdmittedWithin(cs[k], P);
        if Evaluated(cs[k], P, free).Denotes? {
          Exactly(cs[k], P, free);
        }
      }
      assert forall x: int :: x in Together(cs, P, free) <==> OperandHas(cs, Head(cs), |cs|, x, P, free);
    case _ =>
  }

  lemma {:induction false} ExactlyInTurn(cs: seq<Constraint>, n: nat, P: iset<int>, free: bool)
    requires n <= |cs| && Exact(Serial(cs)) && HeadsKept(Serial(cs), P, free) && (free ==> P == ALL)
    requires Conjoined(cs, n, true, P, free).Denotes?
    ensures Conjoined(cs, n, true, P, free).members == AdmittedInTurn(cs, n, P)
    decreases cs, n
  {
    if n > 0 {
      ExactlyInTurn(cs, n - 1, P, free);
      var Q := Conjoined(cs, n - 1, true, P, free).members;
      MarkerIff(cs[n - 1], Q, false);
      assert Exact(cs[n - 1]) && HeadsKept(cs[n - 1], Q, false);
      NeverIncompatible(cs[n - 1], Q, false);
      if Evaluated(cs[n - 1], Q, false).Denotes? {
        Exactly(cs[n - 1], Q, false);
        AdmittedWithin(cs[n - 1], Q);
      }
    }
  }

  /** What the first n parts of an intersection admit. */
  ghost function AdmittedByFirst(cs: seq<Constraint>, n: nat, P: iset<int>): iset<int>
    requires n <= |cs|
  {
    iset x | x in P && forall i :: 0 <= i < n && !OnlyExtension(cs[i]) ==> x in Admitted(cs[i], P)
  }

  lemma AdmittedByOneMore(cs: seq<Constraint>, n: nat, P: iset<int>)
    requires n < |cs|
    ensures AdmittedByFirst(cs, n + 1, P) ==
              if OnlyExtension(cs[n]) then AdmittedByFirst(cs, n, P) else AdmittedByFirst(cs, n, P) * Admitted(cs[n], P)
  {
  }

  lemma {:induction false} ExactlyAll(cs: seq<Constraint>, n: nat, P: iset<int>, free: bool)
    requires n <= |cs| && Exact(Intersection(cs)) && HeadsKept(Intersection(cs), P, free) && (free ==> P == ALL)
    requires Conjoined(cs, n, false, P, free).Denotes?
    ensures Conjoined(cs, n, false, P, free).members == AdmittedByFirst(cs, n, P)
    decreases cs, n
  {
    if n > 0 {
      ExactlyAll(cs, n - 1, P, free);
      AdmittedByOneMore(cs, n - 1, P);
      assert Exact(cs[n - 1]) && HeadsKept(cs[n - 1], P, free);
      MarkerIff(cs[n - 1], P, free);
      NeverIncompatible(cs[n - 1], P, free);
      if Evaluated(cs[n - 1], P, free).Denotes? {
        Exactly(cs[n - 1], P, free);
      }
    }
  }

  lemma {:induction false} NeverIncompatible(ct: Constraint, P: iset<int>, free: bool)
    requires Exact(ct)
    ensures !Evaluated(ct, P, free).Incompatible?
  {
    if ct.Union? {
      OperandsNeverIncompatible(ct.parts, Head(ct.parts), |ct.parts|, P, free);
    }
  }

  lemma {:induction false} OperandsNeverIncompatible(cs: seq<Constraint>, i: nat, n: nat, P: iset<int>, free: bool)
    requires i <= n <= |cs| && forall k :: 0 <= k < |cs| ==> Exact(cs[k])
    ensures !Merged(cs, i, n, P, free).Incompatible?
    decreases cs, n
  {
    if n > i {
      OperandsNeverIncompatible(cs, i, n - 1, P, free);
      NeverIncompatible(cs[n - 1], P, free);
    }
  }

  // ----- Errors -----

  /**
   Every number bounding an interval lies in the interval's parent set, and every interval has members
   there, unless the parent set has none.
   */
  ghost predicate Fits(ct: Constraint, P: iset<int>) {
    match ct
    case Single(v) => P == iset{} || (BoundIn(v, P) && Admitted(ct, P) != iset{})
    case Interval(a, b, _, _) => P == iset{} || (BoundIn(a, P) && BoundIn(b, P) && Admitted(ct, P) != iset{})
    case Serial(cs) => AllFitInTurn(cs, |cs|, P)
    case Intersection(cs) => forall i :: 0 <= i < |cs| ==> Fits(cs[i], P)
    case Union(cs) => forall i :: 0 <= i < |cs| ==> Fits(cs[i], P)
    case Except(c, _) => Fits(c, P)
    case _ => true
  }

  /** The first n serial constraints fit, each in what the ones before leave. */
  ghost predicate AllFitInTurn(cs: seq<Constraint>, n: nat, P: iset<int>)
    requires n <= |cs|
    decreases cs, n
  {
    n == 0 || (AllFitInTurn(cs, n - 1, P) && Fits(cs[n - 1], AdmittedInTurn(cs, n - 1, P)))
  }

  ghost predicate BoundIn(v: Literal, P: iset<int>) {
    Number(v) ==> NumberOf(v) in P
  }

  /** An exact tree is an error just when it does not fit. */
  lemma {:induction false} FailsIff(ct: Constraint, P: iset<int>, free: bool)
    requires Exact(ct) && HeadsKept(ct, P, free) && (free ==> P == ALL)
    ensures Evaluated(ct, P, free).Failure? <==> !Fits(ct, P)
  {
    match ct
    case Single(v) => LeafFits(ct, v, v, P, free);
    case Interval(a, b, _, _) => LeafFits(ct, a, b, P, free);
    case Serial(cs) => FailsInTurn(cs, |cs|, P, free);
    case Intersection(cs) => FailsInAny(ct, |cs|, P, free);
    case Union(cs) =>
      forall k | 0 <= k < |cs| ensures Evaluated(cs[k], P, free).Failure? <==> !Fits(cs[k], P) {
        FailsIff(cs[k], P, free);
      }
      MergedFails(cs, Head(cs), |cs|, P, free);
      OperandsFitAll(cs, Head(cs), |cs|, P);
      OperandsNeverIncompatible(cs, Head(cs), |cs|, P, free);
      forall k | 0 <= k < Head(cs) ensures Fits(cs[k], P) {
        MarkerIff(cs[k], P, free);
      }
    case _ =>
  }

  lemma LeafFits(ct: Constraint, a: Literal, b: Literal, P: iset<int>, free: bool)
    requires (ct.Single? && a == b == ct.literal) || (ct.Interval? && a == ct.start && b == ct.stop)
    requires Exact(ct) && (free ==> P == ALL)
    ensures Leaf(a, b, P, free).Failure? <==>
              !(P == iset{} || (BoundIn(a, P) && BoundIn(b, P) && Admitted(ct, P) != iset{}))
  {
    assert !free ==> Admitted(ct, P) == Between(a, b, P, free);
    if free {
      var x := if Number(a) then NumberOf(a) as int else if Number(b) then NumberOf(b) as int else 0;
      assert x in Admitted(ct, P);
    }
  }

  lemma {:induction false} FailsInTurn(cs: seq<Constraint>, n: nat, P: iset<int>, free: bool)
    requires n <= |cs| && Exact(Serial(cs)) && HeadsKept(Serial(cs), P, free) && (free ==> P == ALL)
    ensures Conjoined(cs, n, true, P, free).Failure? <==> !AllFitInTurn(cs, n, P)
    decreases cs, n
  {
    hide Fits, AdmittedInTurn, Evaluated;
    if n > 0 {
      FailsInTurn(cs, n - 1, P, free);
      if Conjoined(cs, n - 1, true, P, free).Denotes? {
        ExactlyInTurn(cs, n - 1, P, free);
        var Q := Conjoined(cs, n - 1, true, P, free).members;
        assert Exact(cs[n - 1]) && HeadsKept(cs[n - 1], Q, false);
        FailsIff(cs[n - 1], Q, false);
      }
    }
  }

  lemma {:induction false} FailsInAny(ct: Constraint, n: nat, P: iset<int>, free: bool)
    requires ct.Intersection? && n <= |ct.parts| && Exact(ct) && HeadsKept(ct, P, free)
    requires free ==> P == ALL
    ensures Conjoined(ct.parts, n, false, P, free).Failure? <==> exists i :: 0 <= i < n && !Fits(ct.parts[i], P)
    decreases ct.parts, n
  {
    if n > 0 {
      FailsInAny(ct, n - 1, P, free);
      FailsIff(ct.parts[n - 1], P, free);
    }
  }

  /** The operands from the i-th up to the n-th fit. */
  ghost predicate OperandsFit(cs: seq<Constraint>, i: nat, n: nat, P: iset<int>)
    requires i <= n <= |cs|
  {
    n == i || (OperandsFit(cs, i, n - 1, P) && Fits(cs[n - 1], P))
  }

  lemma {:induction false} OperandsFitAll(cs: seq<Constraint>, i: nat, n: nat, P: iset<int>)
    requires i <= n <= |cs|
    ensures OperandsFit(cs, i, n, P) <==> forall k :: i <= k < n ==> Fits(cs[k], P)
    decreases n
  {
    if n > i {
      OperandsFitAll(cs, i, n - 1, P);
    }
  }

  lemma MergedStep(cs: seq<Constraint>, i: nat, n: nat, P: iset<int>, free: bool)
    requires i < n <= |cs|
    ensures Merged(cs, i, n, P, free).Denotes? <==>
              var e := Evaluated(cs[n - 1], P, free);
              Merged(cs, i, n - 1, P, free).Denotes? && (e.Marker? || e.Denotes?)
  {
  }

  lemma {:induction false} MergedFails(cs: seq<Constraint>, i: nat, n: nat, P: iset<int>, free: bool)
    requires i <= n <= |cs| && forall k :: 0 <= k < |cs| ==> Exact(cs[k])
    requires forall k :: 0 <= k < |cs| ==> (Evaluated(cs[k], P, free).Failure? <==> !Fits(cs[k], P))
    ensures Merged(cs, i, n, P, free).Denotes? <==> OperandsFit(cs, i, n, P)
    decreases n
  {
    if n > i {
      MergedFails(cs, i, n - 1, P, free);
      NeverIncompatible(cs[n - 1], P, free);
      MergedStep(cs, i, n, P, free);
    }
  }

  // ----- Where evaluation and admission part -----

  /** 8..9 behind an intersection without members. */
  ghost function HiddenOperand(): Constraint {
    Union([NoMembers(), Interval(Integer(8), Integer(9), false, false)])
  }

  ghost function NoMembers(): Constraint {
    Intersection([Interval(Integer(1), Integer(2), false, false), Interval(Integer(5), Integer(6), false, false)])
  }

  lemma HiddenOperandAdmits()
    ensures PlainBounds(HiddenOperand()) && Exact(HiddenOperand()) && 8 in Admitted(HiddenOperand(), ALL)
  {
    var cs := HiddenOperand().parts;
    assert |cs| == 2 && |NoMembers().parts| == 2 && cs[0] == NoMembers();
    assert 8 in Admitted(cs[1], ALL);
  }

  /** That union admits 8, but nothing is left of it. */
  lemma HiddenOperandIsLost()
    ensures PlainBounds(HiddenOperand()) && Exact(HiddenOperand()) && 8 in Admitted(HiddenOperand(), ALL)
    ensures Evaluated(HiddenOperand(), ALL, true) == Denotes(iset{})
  {
    hide PlainBounds, Exact, Admitted;
    HiddenOperandAdmits();
    var cs := HiddenOperand().parts;
    NoMembersEvaluated();
    assert Evaluated(cs[1], ALL, true).Denotes?;
    EmptyHead(cs, ALL, true);
  }

  /** A union of two with an empty first operand. */
  lemma EmptyHead(cs: seq<Constraint>, P: iset<int>, free: bool)
    requires |cs| == 2 && !OnlyExtension(cs[0]) && Evaluated(cs[0], P, free) == Denotes(iset{})
    requires Evaluated(cs[1], P, free).Denotes?
    ensures Evaluated(Union(cs), P, free) == Denotes(iset{})
  {
    assert Merged(cs, 0, 0, P, free).Denotes? && Merged(cs, 0, 1, P, free).Denotes?;
    assert Merged(cs, 0, 2, P, free).Denotes?;
  }

  lemma NoMembersEvaluated()
    ensures Evaluated(NoMembers(), ALL, true) == Denotes(iset{})
  {
    var ps := NoMembers().parts;
    assert Conjoined(ps, 0, false, ALL, true) == Denotes(ALL);
    var a, b := Evaluated(ps[0], ALL, true).members, Evaluated(ps[1], ALL, true).members;
    assert Conjoined(ps, 1, false, ALL, true) == Denotes(ALL * a);
    assert Conjoined(ps, 2, false, ALL, true) == Denotes(ALL * a * b);
    assert ALL * a * b == iset{};
  }

  /** (5 EXCEPT 5) | 8: the first operand admits nothing, but evaluates to 5, and so 8 is kept. */
  lemma KeptBehindExcept()
    ensures var ct := Union([Except(Single(Integer(5)), [Single(Integer(5))]), Single(Integer(8))]);
            && HeadsKept(ct, ALL, true) && Admitted(ct.parts[0], ALL) == iset{}
            && Evaluated(ct, ALL, true).Denotes? && 8 in Evaluated(ct, ALL, true).members
  {
    var ct := Union([Except(Single(Integer(5)), [Single(Integer(5))]), Single(Integer(8))]);
    var cs := ct.parts;
    assert |cs| == 2 && cs[0].excluded == [Single(Integer(5))];
    forall x: int ensures x !in Admitted(cs[0], ALL) {
      assert x in Admitted(cs[0].kept, ALL) ==> x in Admitted(cs[0].excluded[0], ALL);
    }
    assert 5 in Evaluated(cs[0], ALL, true).members && 8 in Evaluated(cs[1], ALL, true).members;
    assert Merged(cs, 0, 0, ALL, true) == Denotes(iset{});
    assert Merged(cs, 0, 1, ALL, true).Denotes?;
    assert 8 in Merged(cs, 0, 2, ALL, true).members;
  }
}
