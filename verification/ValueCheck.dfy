/**
 From a constraint tree to the generated value check of an INTEGER, ENUMERATED or BOOLEAN
 (libasn1compiler/asn1c_constraint.c).
 */
module ValueCheck {
  import opened Wrappers
  import opened Edges
  import opened Crange
  import opened ConstraintTree
  import opened Evaluation
  import opened BareTrees
  import opened ComputeRange
  import opened RangeTest
  import IntegerOctets
  import opened OctetReading

  const INT32_MAX := 2147483647
  const UINT32_MAX := 4294967295

  /** The largest value of `unsigned long`, of 32 or 64 bits. */
  type UlongMax = m: int | m == 0xFFFF_FFFF || m == 0xFFFF_FFFF_FFFF_FFFF witness 0xFFFF_FFFF

  /** The C type that a value is stored in; it follows from the terminal type and its own constraint. */
  datatype Store = StoredSigned | StoredUnsigned

  /** What is checked: an integer that is stored in a C variable or as octets, or a BOOLEAN. */
  datatype Subject = NativeInteger(store: Store) | OctetInteger | BooleanValue

  /** The declared type of the checked variable. */
  datatype Variable = SignedLong | UnsignedLong | Flag

  /** The values the variable can take. */
  predicate Holds(variable: Variable, ulongMax: UlongMax, x: int) {
    match variable
    case SignedLong => -(ulongMax / 2) - 1 <= x <= ulongMax / 2
    case UnsignedLong => 0 <= x <= ulongMax
    case Flag => 0 <= x <= 1
  }

  /** The generated check, which may read no more of octets than the sign. */
  datatype Check = NoCheck | Check(test: Test, signOnly: bool)

  /** 0 for exactly the unsigned 32-bit range, 1 for other ranges that are unsigned, -1 for all others. */
  function NativeLongSign(left: Edge, right: Edge, parts: nat, wideTypes: bool): int {
    if !wideTypes && left.Value? && 0 <= left.value <= INT32_MAX && right.Max? then 1
    else if left.Value? && left.value >= 0 && right.Value? && INT32_MAX < right.value <= UINT32_MAX then
      if parts == 0 && left.value == 0 && right.value == UINT32_MAX then 0 else 1
    else -1
  }

  /** The set calls for an unsigned variable: not negative, and either unbounded or with a 32-bit end. */
  ghost predicate CallsForUnsigned(S: iset<int>, wideTypes: bool) {
    exists l :: l in S && LowerBound(S, l) && l >= 0 &&
      ((!wideTypes && l <= INT32_MAX && !BoundedAbove(S)) || EndsAbove31Bits(S))
  }

  ghost predicate EndsAbove31Bits(S: iset<int>) {
    exists u :: u in S && UpperBound(S, u) && INT32_MAX < u <= UINT32_MAX
  }

  predicate InUint32(x: int) {
    0 <= x <= UINT32_MAX
  }

  /** The unsigned 32-bit range, for which the check is taken to be superfluous. */
  ghost predicate IsUint32(S: iset<int>) {
    forall x: int :: x in S <==> InUint32(x)
  }

  /** The set for which a check is generated. */
  ghost predicate Checkable(S: iset<int>) {
    S != iset{} && (BoundedBelow(S) || BoundedAbove(S)) && !IsUint32(S)
  }

  /**
   So is a set with a least member that is not negative and a greatest one that `unsigned long` of 32 bits holds,
   but `long` does not; or, without wide types, with none and a least one that `long` of 32 bits holds.
   */
  lemma CallsForUnsignedIff(S: iset<int>, wideTypes: bool)
    ensures CallsForUnsigned(S, wideTypes) <==>
              exists l :: l in S && LowerBound(S, l) && l >= 0 &&
                ((!wideTypes && !BoundedAbove(S) && Holds(SignedLong, 0xFFFF_FFFF, l)) || EndsBeyondLong(S))
    ensures IsUint32(S) <==> forall x: int :: x in S <==> Holds(UnsignedLong, 0xFFFF_FFFF, x)
  {
    assert forall u: int :: INT32_MAX < u <= UINT32_MAX <==>
      Holds(UnsignedLong, 0xFFFF_FFFF, u) && !Holds(SignedLong, 0xFFFF_FFFF, u);
    assert forall x: int :: InUint32(x) <==> Holds(UnsignedLong, 0xFFFF_FFFF, x);
    assert EndsAbove31Bits(S) <==> EndsBeyondLong(S);
  }

  /** The greatest member needs an unsigned type of 32 bits. */
  ghost predicate EndsBeyondLong(S: iset<int>) {
    exists u :: u in S && UpperBound(S, u) &&
      Holds(UnsignedLong, 0xFFFF_FFFF, u) && !Holds(SignedLong, 0xFFFF_FFFF, u)
  }

  lemma SignMeans(v: View, S: iset<int>, wideTypes: bool)
    requires Represents(v, S) && S != iset{}
    ensures NativeLongSign(v.left, v.right, |v.elements|, wideTypes) >= 0 <==> CallsForUnsigned(S, wideTypes)
    ensures NativeLongSign(v.left, v.right, |v.elements|, wideTypes) == 0 <==> IsUint32(S)
  {
    EndsMean(v, S);
    UnboundedEnds(v, S);
    if v.left.Value? {
      assert LowerBound(S, v.left.value);
    }
    if v.right.Value? {
      assert UpperBound(S, v.right.value);
    }
    FlagMeansEmpty(v, S);
    if NativeLongSign(v.left, v.right, |v.elements|, wideTypes) == 0 {
      assert forall x: int :: Has(v, x) <==> In(Pieces(v)[0], x);
    }
    if IsUint32(S) {
      Uint32View(v, S);
    }
  }

  lemma Uint32View(v: View, S: iset<int>)
    requires Represents(v, S) && IsUint32(S)
    ensures v.left == Value(0) && v.right == Value(UINT32_MAX) && v.elements == []
  {
    assert InUint32(0) && 0 in S;
    FlagMeansEmpty(v, S);
    var w := View(Value(0), Value(UINT32_MAX), [], false);
    SinglePiece(w);
    forall x: int ensures Has(v, x) <==> Has(w, x) {
      assert Has(v, x) <==> x in S;
    }
    CanonicalUnique(v, w);
  }

  /** Of a range that is tested, no part alone covers what the variable can take. */
  lemma NoPartCovers(v: View, S: iset<int>, wideTypes: bool, n: Natural)
    requires Represents(v, S) && S != iset{} && |v.elements| > 1
    requires var sign := NativeLongSign(v.left, v.right, |v.elements|, wideTypes);
             n == if sign >= 0 then Natural(0, -1) else Natural(-1, -1)
    ensures forall i :: 0 <= i < |v.elements| ==> !CoversNatural(v.elements[i], n)
  {
    var ps := v.elements;
    forall i | 0 <= i < |ps| ensures !CoversNatural(ps[i], n) {
      if i > 0 {
        assert Key(ps[0].right) + 1 < Key(ps[i].left);
      } else {
        assert Key(ps[0].right) + 1 < Key(ps[1].left);
      }
    }
  }

  /** Without a check, the generated code accepts every value. */
  ghost predicate Accepts(check: Check, x: int) {
    check.NoCheck? || Eval(check.test, x)
  }

  /** The check accepts just the members of S among the values of the variable. */
  ghost predicate Checks(check: Check, variable: Variable, ulongMax: UlongMax, S: iset<int>) {
    forall x: int :: Holds(variable, ulongMax, x) ==> (Accepts(check, x) <==> x in S)
  }

  // ----- Integers that are stored in a C variable -----

  predicate Stored(store: Store, ulongMax: UlongMax, x: int) {
    Holds(if store.StoredSigned? then SignedLong else UnsignedLong, ulongMax, x)
  }

  /** What the tested variable holds after a stored value was assigned to it. */
  function Converted(variable: Variable, ulongMax: UlongMax, x: int): int {
    match variable
    case UnsignedLong => if x < 0 then x + ulongMax + 1 else x
    case SignedLong => if x > ulongMax / 2 then x - ulongMax - 1 else x
    case Flag => x
  }

  ghost predicate AcceptsStored(check: Check, variable: Variable, ulongMax: UlongMax, x: int) {
    check.NoCheck? || Eval(check.test, Converted(variable, ulongMax, x))
  }

  /** The check accepts just the members of S among the values that can be stored. */
  ghost predicate ChecksStored(check: Check, variable: Variable, store: Store, ulongMax: UlongMax, S: iset<int>) {
    forall x: int :: Stored(store, ulongMax, x) ==> (AcceptsStored(check, variable, ulongMax, x) <==> x in S)
  }

  /** Some value that can be stored is no member. */
  ghost predicate Restrictive(store: Store, ulongMax: UlongMax, S: iset<int>) {
    exists x: int :: Stored(store, ulongMax, x) && x !in S
  }

  /** The values that only the unsigned type has. */
  predicate High(ulongMax: UlongMax, u: int) {
    ulongMax / 2 < u <= ulongMax
  }

  /**
   A negative number is taken for a high one when it is read into an unsigned variable, and a high one for a
   negative one when it is read into a signed variable; in neither case does that let one pass for a member.
   */
  ghost predicate NoneMistaken(variable: Variable, store: Store, ulongMax: UlongMax, S: iset<int>) {
    match store
    case StoredSigned => variable.UnsignedLong? ==> forall u: int :: High(ulongMax, u) ==> u !in S
    case StoredUnsigned =>
      variable.SignedLong? ==> forall u: int :: High(ulongMax, u) ==> (u in S <==> u - ulongMax - 1 in S)
  }

  lemma ConvertedIsHeld(variable: Variable, store: Store, ulongMax: UlongMax, x: int)
    requires Stored(store, ulongMax, x) && !variable.Flag?
    ensures Holds(variable, ulongMax, Converted(variable, ulongMax, x))
  {
  }

  /** A check that is not left out is right if and only if none is mistaken for another. */
  lemma StoredIff(check: Check, variable: Variable, store: Store, ulongMax: UlongMax, S: iset<int>)
    requires check.Check? && Checks(check, variable, ulongMax, S) && !variable.Flag?
    requires variable.UnsignedLong? ==> forall x: int :: x < 0 ==> x !in S
    ensures ChecksStored(check, variable, store, ulongMax, S) <==> NoneMistaken(variable, store, ulongMax, S)
  {
    forall x: int | Stored(store, ulongMax, x)
      ensures AcceptsStored(check, variable, ulongMax, x) <==> Converted(variable, ulongMax, x) in S
    {
      ConvertedIsHeld(variable, store, ulongMax, x);
      assert Accepts(check, Converted(variable, ulongMax, x)) <==> Converted(variable, ulongMax, x) in S;
    }
    if ChecksStored(check, variable, store, ulongMax, S) {
      forall u: int | High(ulongMax, u) ensures
        && (store.StoredSigned? && variable.UnsignedLong? ==> u !in S)
        && (store.StoredUnsigned? && variable.SignedLong? ==> (u in S <==> u - ulongMax - 1 in S))
      {
        var x := if store.StoredSigned? then u - ulongMax - 1 else u;
        assert Stored(store, ulongMax, x);
      }
    }
    if NoneMistaken(variable, store, ulongMax, S) {
      forall x: int | Stored(store, ulongMax, x) ensures Converted(variable, ulongMax, x) in S <==> x in S {
        var y := Converted(variable, ulongMax, x);
        assert y != x ==> High(ulongMax, if store.StoredSigned? then y else x);
      }
    }
  }

  lemma StoredRightIff(check: Check, variable: Variable, store: Store, ulongMax: UlongMax, S: iset<int>)
    requires !variable.Flag? && (variable.UnsignedLong? ==> forall x: int :: x < 0 ==> x !in S)
    requires (check.Check? <==> Checkable(S)) && (check.Check? ==> Checks(check, variable, ulongMax, S))
    ensures ChecksStored(check, variable, store, ulongMax, S) <==>
              if Checkable(S) then NoneMistaken(variable, store, ulongMax, S) else !Restrictive(store, ulongMax, S)
  {
    if check.Check? {
      StoredIff(check, variable, store, ulongMax, S);
    } else if x: int :| Stored(store, ulongMax, x) && x !in S {
      assert AcceptsStored(check, variable, ulongMax, x);
    }
  }

  // ----- Integers that are kept as octets -----

  /** (0..MAX) or (MIN..-1), for which only the sign is read. */
  predicate SignDecides(left: Edge, right: Edge, parts: nat) {
    parts == 0 && ((left == Value(0) && right.Max?) || (left.Min? && right == Value(-1)))
  }

  ghost predicate IsSignRange(S: iset<int>) {
    (forall x: int :: x in S <==> IsNatural(x)) || (forall x: int :: x in S <==> !IsNatural(x))
  }

  predicate IsNatural(x: int) {
    x >= 0
  }

  /** What the variable holds after the octets were read, if that succeeds. */
  ghost function Reading(check: Check, variable: Variable, ulongMax: UlongMax,
                         octets: seq<IntegerOctets.Octet>): Option<int>
    requires check.Check? && octets != []
  {
    if check.signOnly then
      Some(if octets[0] < 128 then 1 else if variable.UnsignedLong? then ulongMax else -1)
    else if variable.UnsignedLong? then
      if Unsigned(octets) < Power(WIDTH) && Unsigned(octets) <= ulongMax then Some(Unsigned(octets)) else None
    else if Holds(SignedLong, ulongMax, IntegerOctets.Value(octets)) then Some(IntegerOctets.Value(octets)) else None
  }

  /** A value that is too large for the variable is rejected. */
  ghost predicate AcceptsOctets(check: Check, variable: Variable, ulongMax: UlongMax, octets: seq<IntegerOctets.Octet>)
    requires octets != []
  {
    check.NoCheck? || match Reading(check, variable, ulongMax, octets)
      case None => false
      case Some(x) => Eval(check.test, x)
  }

  /** The check accepts just the octets of members of S. */
  ghost predicate ChecksOctets(check: Check, variable: Variable, ulongMax: UlongMax, S: iset<int>) {
    forall octets: seq<IntegerOctets.Octet> :: octets != [] ==>
      (AcceptsOctets(check, variable, ulongMax, octets) <==> IntegerOctets.Value(octets) in S)
  }

  ghost predicate WithinLong(ulongMax: UlongMax, S: iset<int>) {
    forall x: int :: x in S ==> Holds(SignedLong, ulongMax, x)
  }

  /** A set that is checked with a signed variable, into which its members fit or of which the sign decides. */
  ghost predicate OctetsFit(S: iset<int>, wideTypes: bool, ulongMax: UlongMax) {
    Checkable(S) && !CallsForUnsigned(S, wideTypes) && (IsSignRange(S) || WithinLong(ulongMax, S))
  }

  lemma LongIs(x: int)
    ensures IntegerOctets.InRange(x, WIDTH) <==> INTMAX_MIN <= x <= INTMAX_MAX
  {
    assert IntegerOctets.Half(2) == 0x8000;
    assert IntegerOctets.Half(4) == 0x8000_0000;
    assert IntegerOctets.Half(6) == 0x8000_0000_0000;
    assert IntegerOctets.Half(8) == 0x8000_0000_0000_0000;
  }

  lemma UlongIs(ulongMax: UlongMax)
    ensures ulongMax < Power(WIDTH)
  {
    assert Power(2) == 0x1_0000;
    assert Power(4) == 0x1_0000_0000;
    assert Power(6) == 0x1_0000_0000_0000;
    assert Power(8) == 0x1_0000_0000_0000_0000;
  }

  /** Run the check on octets. */
  method RunOnOctets(check: Check, variable: Variable, ulongMax: UlongMax, octets: seq<IntegerOctets.Octet>)
    returns (accepted: bool)
    requires octets != []
    ensures accepted == AcceptsOctets(check, variable, ulongMax, octets)
  {
    if check.NoCheck? {
      return true;
    }
    var value;
    if check.signOnly {
      value := if octets[0] < 128 then 1 else if variable.UnsignedLong? then ulongMax else -1;
    } else if variable.UnsignedLong? {
      var wide := ToUmax(octets);
      if wide.None? || wide.value > ulongMax {
        return false;
      }
      value := wide.value;
    } else {
      var wide := ToImax(octets);
      LongIs(IntegerOctets.Value(octets));
      if wide.None? || !Holds(SignedLong, ulongMax, wide.value) {
        return false;
      }
      value := wide.value;
    }
    return Eval(check.test, value);
  }

  /** A signed variable: right if and only if the sign is enough, or no member is too large. */
  lemma SignedOctetsIff(check: Check, ulongMax: UlongMax, S: iset<int>)
    requires check.Check? && Checks(check, SignedLong, ulongMax, S) && (check.signOnly ==> IsSignRange(S))
    ensures ChecksOctets(check, SignedLong, ulongMax, S) <==> check.signOnly || WithinLong(ulongMax, S)
  {
    forall octets: seq<IntegerOctets.Octet> | octets != []
      ensures (AcceptsOctets(check, SignedLong, ulongMax, octets) <==> IntegerOctets.Value(octets) in S)
              <==> check.signOnly || IntegerOctets.Value(octets) !in S
                   || Holds(SignedLong, ulongMax, IntegerOctets.Value(octets))
    {
      var x := IntegerOctets.Value(octets);
      SignBit(octets);
      assert Accepts(check, 1) <==> 1 in S by { assert Holds(SignedLong, ulongMax, 1); }
      assert Accepts(check, -1) <==> -1 in S by { assert Holds(SignedLong, ulongMax, -1); }
      assert IsNatural(1) && !IsNatural(-1) && (IsNatural(x) <==> octets[0] < 128);
    }
    if x: int :| x in S && !Holds(SignedLong, ulongMax, x) {
      var octets := OctetsOf(x);
    }
  }

  /** An unsigned variable: never right, as some negative number or some member too large shows. */
  lemma UnsignedOctetsFail(check: Check, ulongMax: UlongMax, S: iset<int>, wideTypes: bool)
    requires check.Check? && Checks(check, UnsignedLong, ulongMax, S)
    requires CallsForUnsigned(S, wideTypes) && (check.signOnly ==> IsSignRange(S))
    ensures !ChecksOctets(check, UnsignedLong, ulongMax, S)
  {
    var l :| l in S && LowerBound(S, l) && l >= 0;
    if check.signOnly {
      assert IsNatural(l) && IsNatural(ulongMax) && !IsNatural(-1);
      var octets := OctetsOf(-1);
      SignBit(octets);
      assert Holds(UnsignedLong, ulongMax, ulongMax) && AcceptsOctets(check, UnsignedLong, ulongMax, octets);
      assert -1 !in S;
    } else if EndsAbove31Bits(S) {
      var u :| u in S && UpperBound(S, u) && INT32_MAX < u <= UINT32_MAX;
      var octets := NegativeOctets(u);
      assert Power(4) == 0x1_0000_0000;
      PowersGrow(4, WIDTH);
      UlongIs(ulongMax);
      assert Holds(UnsignedLong, ulongMax, u) && AcceptsOctets(check, UnsignedLong, ulongMax, octets);
      assert IntegerOctets.Value(octets) !in S;
    } else {
      assert !UpperBound(S, ulongMax);
      var x :| x in S && x > ulongMax;
      var octets := OctetsOf(x);
      SignBit(octets);
      assert !AcceptsOctets(check, UnsignedLong, ulongMax, octets);
    }
  }

  // ----- BOOLEAN -----

  /** The sets that trees over FALSE, TRUE, MIN and MAX admit: beyond either value there is all or nothing. */
  ghost predicate BooleanSet(S: iset<int>) {
    && (forall x: int :: x < 0 ==> (x in S <==> -1 in S)) && (-1 in S ==> 0 in S)
    && (forall x: int :: x > 1 ==> (x in S <==> 2 in S)) && (2 in S ==> 1 in S)
  }

  predicate BooleanLiterals(ct: Constraint) {
    match ct
    case Single(v) => v.Boolean?
    case Interval(a, b, _, _) => (a.Boolean? || a.MinValue?) && (b.Boolean? || b.MaxValue?)
    case Serial(cs) => forall i :: 0 <= i < |cs| ==> BooleanLiterals(cs[i])
    case Intersection(cs) => forall i :: 0 <= i < |cs| ==> BooleanLiterals(cs[i])
    case Union(cs) => forall i :: 0 <= i < |cs| ==> BooleanLiterals(cs[i])
    case _ => true
  }

  lemma {:induction false} AdmitsBooleanSet(ct: Constraint, P: iset<int>)
    requires Exact(ct) && BooleanLiterals(ct) && BooleanSet(P)
    ensures BooleanSet(Admitted(ct, P))
  {
    match ct
    case Serial(cs) => AdmitsInTurn(cs, |cs|, P);
    case Intersection(cs) =>
      forall i | 0 <= i < |cs| ensures BooleanSet(Admitted(cs[i], P)) {
        AdmitsBooleanSet(cs[i], P);
      }
    case Union(cs) =>
      forall i | 0 <= i < |cs| ensures BooleanSet(Admitted(cs[i], P)) {
        AdmitsBooleanSet(cs[i], P);
      }
    case _ =>
  }

  lemma {:induction false} AdmitsInTurn(cs: seq<Constraint>, n: nat, P: iset<int>)
    requires n <= |cs| && (forall i :: 0 <= i < |cs| ==> Exact(cs[i]) && BooleanLiterals(cs[i])) && BooleanSet(P)
    ensures BooleanSet(AdmittedInTurn(cs, n, P))
    decreases cs, n
  {
    if n > 0 {
      AdmitsInTurn(cs, n - 1, P);
      AdmitsBooleanSet(cs[n - 1], AdmittedInTurn(cs, n - 1, P));
    }
  }

  lemma BooleanConvex(S: iset<int>, a: int, x: int, b: int)
    requires BooleanSet(S) && a in S && b in S && a < x < b
    ensures x in S
  {
  }

  /** Such a set is a single piece. */
  lemma BooleanIsOnePiece(v: View, S: iset<int>)
    requires Represents(v, S) && BooleanSet(S) && S != iset{}
    ensures v.elements == []
  {
    hide BooleanSet;
    FlagMeansEmpty(v, S);
    var ps := v.elements;
    if |ps| > 1 {
      assert Key(ps[0].right) + 1 < Key(ps[1].left);
      var a: int, b: int := ps[0].right.value, ps[1].left.value;
      assert In(ps[0], a) && In(ps[1], b) && Has(v, a) && Has(v, b);
      forall i | 0 <= i < |ps| ensures !In(ps[i], a + 1) {
        if i > 1 {
          assert Key(ps[1].right) + 1 < Key(ps[i].left);
        }
      }
      BooleanConvex(S, a, a + 1, b);
    }
  }

  /** The truth values of T that a tree over FALSE, TRUE, MIN and MAX admits, FALSE being less than TRUE. */
  ghost function Truths(ct: Constraint, T: set<bool>): set<bool> {
    match ct
    case Single(v) => set t | t in T && v == Boolean(t)
    case Interval(a, b, _, _) => set t | t in T && (a == Boolean(true) ==> t) && (b == Boolean(false) ==> !t)
    case Serial(cs) => TruthsInTurn(cs, |cs|, T)
    case Intersection(cs) =>
      set t | t in T && forall i :: 0 <= i < |cs| && !OnlyExtension(cs[i]) ==> t in Truths(cs[i], T)
    case Union(cs) =>
      set t | t in T && exists i :: 0 <= i < |cs| && !OnlyExtension(cs[i]) && t in Truths(cs[i], T)
    case _ => {}
  }

  ghost function TruthsInTurn(cs: seq<Constraint>, n: nat, T: set<bool>): set<bool>
    requires n <= |cs|
    decreases cs, n
  {
    if n == 0 then T
    else
      var U := TruthsInTurn(cs, n - 1, T);
      if OnlyExtension(cs[n - 1]) then U else Truths(cs[n - 1], U)
  }

  /** A tree over these without exclusions or open ends, with intervals in order and unions of something. */
  predicate BooleanTree(ct: Constraint) {
    match ct
    case Single(v) => v.Boolean?
    case Interval(a, b, openStart, openStop) =>
      && (a.Boolean? || a.MinValue?) && (b.Boolean? || b.MaxValue?) && !openStart && !openStop
      && !(a == Boolean(true) && b == Boolean(false))
    case Extension => true
    case Serial(cs) => forall i :: 0 <= i < |cs| ==> BooleanTree(cs[i])
    case Intersection(cs) => forall i :: 0 <= i < |cs| ==> BooleanTree(cs[i])
    case Union(cs) => Head(cs) < |cs| && forall i :: 0 <= i < |cs| ==> BooleanTree(cs[i])
    case _ => false
  }

  lemma {:induction false} BooleanTreeIsExact(ct: Constraint)
    requires BooleanTree(ct)
    ensures Exact(ct) && BooleanLiterals(ct)
  {
    match ct
    case Serial(cs) =>
      forall i | 0 <= i < |cs| ensures Exact(cs[i]) && BooleanLiterals(cs[i]) { BooleanTreeIsExact(cs[i]); }
    case Intersection(cs) =>
      forall i | 0 <= i < |cs| ensures Exact(cs[i]) && BooleanLiterals(cs[i]) { BooleanTreeIsExact(cs[i]); }
    case Union(cs) =>
      forall i | 0 <= i < |cs| ensures Exact(cs[i]) && BooleanLiterals(cs[i]) { BooleanTreeIsExact(cs[i]); }
    case _ =>
  }

  /** What the variable holds for a truth value. */
  ghost predicate TruthIn(t: bool, S: iset<int>) {
    (if t then 1 else 0) in S
  }

  /** The integers 0 and 1 are admitted as FALSE and TRUE are. */
  lemma {:induction false} TruthsAreAdmitted(ct: Constraint, P: iset<int>, T: set<bool>)
    requires BooleanTree(ct) && forall t :: t in T <==> TruthIn(t, P)
    ensures forall t :: t in Truths(ct, T) <==> TruthIn(t, Admitted(ct, P))
  {
    match ct
    case Serial(cs) => TruthsInTurnAreAdmitted(cs, |cs|, P, T);
    case Intersection(cs) =>
      forall i | 0 <= i < |cs| ensures forall t :: t in Truths(cs[i], T) <==> TruthIn(t, Admitted(cs[i], P)) {
        TruthsAreAdmitted(cs[i], P, T);
      }
    case Union(cs) =>
      forall i | 0 <= i < |cs| ensures forall t :: t in Truths(cs[i], T) <==> TruthIn(t, Admitted(cs[i], P)) {
        TruthsAreAdmitted(cs[i], P, T);
      }
    case _ =>
  }

  lemma {:induction false} TruthsInTurnAreAdmitted(cs: seq<Constraint>, n: nat, P: iset<int>, T: set<bool>)
    requires n <= |cs| && (forall i :: 0 <= i < |cs| ==> BooleanTree(cs[i])) && forall t :: t in T <==> TruthIn(t, P)
    ensures forall t :: t in TruthsInTurn(cs, n, T) <==> TruthIn(t, AdmittedInTurn(cs, n, P))
    decreases cs, n
  {
    if n > 0 {
      TruthsInTurnAreAdmitted(cs, n - 1, P, T);
      TruthsAreAdmitted(cs[n - 1], AdmittedInTurn(cs, n - 1, P), TruthsInTurn(cs, n - 1, T));
    }
  }

  /** The outcome for a stored BOOLEAN: what is not 0 is read as 1. */
  ghost predicate AcceptsBoolean(check: Check, stored: int) {
    Accepts(check, if stored != 0 then 1 else 0)
  }

  ghost predicate ChecksBoolean(check: Check, T: set<bool>) {
    forall stored: int :: AcceptsBoolean(check, stored) <==> (stored != 0) in T
  }

  const BOTH := {false, true}

  lemma BooleanRightIff(ct: Constraint, check: Check, ulongMax: UlongMax)
    requires BooleanTree(ct)
    requires Checks(check, Flag, ulongMax, Admitted(ct, ALL)) <==> Admitted(ct, ALL) != iset{}
    requires Admitted(ct, ALL) == iset{} ==> check.NoCheck?
    ensures ChecksBoolean(check, Truths(ct, BOTH)) <==> Truths(ct, BOTH) != {}
  {
    TruthsAreAdmitted(ct, ALL, BOTH);
    BooleanTreeIsExact(ct);
    AdmitsBooleanSet(ct, ALL);
    TruthsDecide(Admitted(ct, ALL), Truths(ct, BOTH), check, ulongMax);
  }

  lemma TruthsDecide(S: iset<int>, T: set<bool>, check: Check, ulongMax: UlongMax)
    requires BooleanSet(S) && forall t :: t in T <==> TruthIn(t, S)
    requires if S == iset{} then check.NoCheck? else Checks(check, Flag, ulongMax, S)
    ensures ChecksBoolean(check, T) <==> T != {}
  {
    if S == iset{} {
      assert AcceptsBoolean(check, 0);
      forall t ensures t !in T {
        assert !TruthIn(t, S);
      }
    } else {
      var x := SomeMember(S);
      assert TruthIn(true, S) || TruthIn(false, S);
      forall stored: int ensures AcceptsBoolean(check, stored) <==> (stored != 0) in T {
        assert Holds(Flag, ulongMax, if stored != 0 then 1 else 0) && (TruthIn(stored != 0, S) <==> (stored != 0) in T);
      }
    }
  }

  /** The number in an edge; it is 0 in that of MIN or MAX. */
  function NumberIn(e: Edge): intmax {
    if e.Value? then e.value else 0
  }

  // ----- Compiling -----

  /** The check is left out or tests for membership in S, by what is checked. */
  ghost predicate CheckFor(check: Check, variable: Variable, subject: Subject, wideTypes: bool, ulongMax: UlongMax,
                           S: iset<int>)
  {
    && (check.Check? ==> (check.signOnly <==> subject.OctetInteger? && IsSignRange(S)))
    && if subject.BooleanValue? then
         && variable.Flag? && (S == iset{} ==> check.NoCheck?)
         && (S != iset{} && BooleanSet(S) ==> Checks(check, Flag, ulongMax, S))
       else
         && !variable.Flag? && (variable.UnsignedLong? <==> CallsForUnsigned(S, wideTypes))
         && (check.Check? <==> Checkable(S)) && (check.Check? ==> Checks(check, variable, ulongMax, S))
  }

  /** The declaration and the test for an evaluated range. */
  method CheckRange(range: Range, subject: Subject, wideTypes: bool, ulongMax: UlongMax, ghost S: iset<int>)
    returns (check: Check, variable: Variable)
    requires Represents(range.AsView(), S)
    ensures CheckFor(check, variable, subject, wideTypes, ulongMax, S)
  {
    ghost var v := range.AsView();
    FlagMeansEmpty(v, S);
    if !range.emptyConstraint {
      UnboundedEnds(v, S);
    }
    if range.emptyConstraint || (range.left.Min? && range.right.Max?) {
      assert !CallsForUnsigned(S, wideTypes);
      if subject.BooleanValue? {
        BooleanUnbounded(v, S, ulongMax);
      }
      return NoCheck, if subject.BooleanValue? then Flag else SignedLong;
    }
    if subject.BooleanValue? {
      check := CheckBoolean(range, ulongMax, S);
      return check, Flag;
    }
    SignMeans(v, S, wideTypes);
    var sign := NativeLongSign(range.left, range.right, |range.elements|, wideTypes);
    if sign == 0 {
      return NoCheck, UnsignedLong;
    }
    variable := if sign > 0 then UnsignedLong else SignedLong;
    var n := if sign > 0 then Natural(0, -1) else Natural(-1, -1);
    if range.elements != [] {
      NoPartCovers(v, S, wideTypes, n);
    }
    var t := Emit(range, n);
    assert Takes(n, 0);
    SignDecidesMeans(v, S);
    return Check(t, subject.OctetInteger? && SignDecides(range.left, range.right, |range.elements|)), variable;
  }

  lemma BooleanUnbounded(v: View, S: iset<int>, ulongMax: UlongMax)
    requires Represents(v, S) && S != iset{} ==> v.left.Min? && v.right.Max?
    requires Represents(v, S)
    ensures S != iset{} && BooleanSet(S) ==> Checks(NoCheck, Flag, ulongMax, S)
  {
    if S != iset{} && BooleanSet(S) {
      BooleanIsOnePiece(v, S);
      FlagMeansEmpty(v, S);
      SinglePiece(v);
    }
  }

  /** Both values are allowed, or the range is tested for in the one that is not. */
  method CheckBoolean(range: Range, ulongMax: UlongMax, ghost S: iset<int>) returns (check: Check)
    requires Represents(range.AsView(), S) && S != iset{}
    ensures check.NoCheck? <==> (range.left.Min? || range.left == Value(0)) && range.right == Value(1)
    ensures check.Check? ==> !check.signOnly
    ensures BooleanSet(S) ==> Checks(check, Flag, ulongMax, S)
  {
    ghost var v := range.AsView();
    FlagMeansEmpty(v, S);
    if BooleanSet(S) {
      BooleanIsOnePiece(v, S);
      SinglePiece(v);
    }
    if NumberIn(range.left) == 0 && NumberIn(range.right) == 1 {
      return NoCheck;
    }
    var t := Emit(range, Natural(0, 1));
    return Check(t, false);
  }

  lemma SignDecidesMeans(v: View, S: iset<int>)
    requires Represents(v, S) && S != iset{}
    ensures SignDecides(v.left, v.right, |v.elements|) <==> IsSignRange(S)
  {
    FlagMeansEmpty(v, S);
    if v.elements == [] {
      SinglePiece(v);
    }
    if forall x: int :: x in S <==> IsNatural(x) {
      OnePieceIs(v, S, View(Value(0), Max, [], false));
    } else if forall x: int :: x in S <==> !IsNatural(x) {
      OnePieceIs(v, S, View(Min, Value(-1), [], false));
    }
  }

  lemma OnePieceIs(v: View, S: iset<int>, w: View)
    requires Represents(v, S) && S != iset{} && Canonical(w) && w.elements == [] && !w.empty
    requires forall x: int :: x in S <==> In(Piece(w.left, w.right), x)
    ensures v.left == w.left && v.right == w.right && v.elements == []
  {
    FlagMeansEmpty(v, S);
    SinglePiece(w);
    forall x: int ensures Has(v, x) <==> Has(w, x) {
      assert Has(v, x) <==> x in S;
    }
    CanonicalUnique(v, w);
  }

  /** What is checked is known from the bare tree: it is exact, fits, and hides no operand. */
  ghost predicate Decided(ct: Constraint) {
    Exact(Bare(ct)) && Fits(Bare(ct), ALL) && HeadsAdmit(Bare(ct), ALL) && !OnlyExtension(ct)
  }

  lemma DecidedDenotes(ct: Constraint)
    requires Decided(ct)
    ensures Exact(Bare(ct)) && HeadsKept(ct, ALL, true)
    ensures Evaluated(ct, ALL, true) == Denotes(Admitted(Bare(ct), ALL))
  {
    BareKeptIff(ct, ALL, true);
    BareDecides(ct, ALL, true);
  }

  lemma ExactIsDecided(ct: Constraint)
    requires Exact(ct) && HeadsKept(ct, ALL, true) && Fits(ct, ALL) && !OnlyExtension(ct)
    ensures Decided(ct) && Bare(ct) == ct
  {
    ExactIsBare(ct);
    BareKeptIff(ct, ALL, true);
  }

  /**
   Compile the value check of a type's constraint. The check rejects nothing that the tree admits, if no
   union hides its operands and the variable holds the stored value. It is a check of the set S that the bare tree
   admits, without exclusions and open ends. It is left out if S has no members, is open at both ends, or is the
   unsigned 32-bit range, and is then right if and only if nothing that can be stored needs rejecting. Otherwise it
   is right if and only if no negative number passes for a high one and no high one for a negative one. Of an integer
   kept as octets, a check that is not left out is right if and only if S does not call for an unsigned variable and
   has no member that is too large for a signed one, unless the sign decides. A BOOLEAN is checked rightly if and
   only if some truth value is admitted.
   */
  method CompileCheck(ct: Constraint, subject: Subject, wideTypes: bool, ulongMax: UlongMax)
    returns (check: Check, variable: Variable, o: Outcome)
    requires PlainBounds(ct)
    ensures Yields(Judged(o), Evaluated(ct, ALL, true))
    ensures HeadsKept(ct, ALL, true) && subject.NativeInteger? ==>
              forall x: int :: Stored(subject.store, ulongMax, x) && x in Admitted(ct, ALL) ==>
                Converted(variable, ulongMax, x) != x || AcceptsStored(check, variable, ulongMax, x)
    ensures Decided(ct) ==>
              RightIff(check, variable, subject, wideTypes, ulongMax, Admitted(Bare(ct), ALL),
                       BooleanLiterals(Bare(ct)))
    ensures Decided(ct) && subject.BooleanValue? && BooleanTree(Bare(ct)) ==>
              (ChecksBoolean(check, Truths(Bare(ct), BOTH)) <==> Truths(Bare(ct), BOTH) != {})
  {
    hide Evaluated, Admitted, HeadsKept, Exact, Fits, RightIff, Checks, CallsForUnsigned, Checkable;
    hide Decided, Bare, BooleanTree, BooleanLiterals, Truths, ChecksBoolean;
    UnboundedHasAll();
    o := Compute(ct, null, ALL);
    ghost var m := Evaluated(ct, ALL, true);
    if Decided(ct) {
      DecidedDenotes(ct);
    }
    if !o.Returned? || o.range.incompatible {
      return NoCheck, SignedLong, o;
    }
    check, variable := CheckRange(o.range, subject, wideTypes, ulongMax, m.members);
    if HeadsKept(ct, ALL, true) {
      Contains(ct, ALL, ALL, true);
      if subject.NativeInteger? {
        RejectsNone(check, variable, subject.store, ulongMax, m.members, Admitted(ct, ALL));
      }
    }
    if Decided(ct) {
      DecidedCheck(Bare(ct), check, variable, subject, wideTypes, ulongMax);
    }
  }

  lemma DecidedCheck(b: Constraint, check: Check, variable: Variable, subject: Subject, wideTypes: bool,
                     ulongMax: UlongMax)
    requires Exact(b)
    requires CheckFor(check, variable, subject, wideTypes, ulongMax, Admitted(b, ALL))
    ensures RightIff(check, variable, subject, wideTypes, ulongMax, Admitted(b, ALL), BooleanLiterals(b))
    ensures subject.BooleanValue? && BooleanTree(b) ==>
              (ChecksBoolean(check, Truths(b, BOTH)) <==> Truths(b, BOTH) != {})
  {
    if BooleanLiterals(b) {
      AdmitsBooleanSet(b, ALL);
    }
    hide Admitted, Exact, Checks, CallsForUnsigned, Checkable, BooleanTree, Truths, ChecksBoolean;
    IsRightIff(check, variable, subject, wideTypes, ulongMax, Admitted(b, ALL), BooleanLiterals(b));
    if subject.BooleanValue? && BooleanTree(b) {
      BooleanTreeIsExact(b);
      BooleanRightIff(b, check, ulongMax);
    }
  }

  /**
   A check that is right for the bare tree is right for the tree itself if and only if its exclusions and open ends
   take away nothing that can be stored.
   */
  lemma IgnoredIff(ct: Constraint, check: Check, variable: Variable, store: Store, ulongMax: UlongMax)
    requires Decided(ct) && ChecksStored(check, variable, store, ulongMax, Admitted(Bare(ct), ALL))
    ensures ChecksStored(check, variable, store, ulongMax, Admitted(ct, ALL)) <==>
              forall x: int :: Stored(store, ulongMax, x) && x in Admitted(Bare(ct), ALL) ==> x in Admitted(ct, ALL)
  {
    DecidedDenotes(ct);
    Contains(ct, ALL, ALL, true);
    hide Admitted;
    if ChecksStored(check, variable, store, ulongMax, Admitted(ct, ALL)) {
      forall x: int | Stored(store, ulongMax, x) && x in Admitted(Bare(ct), ALL) ensures x in Admitted(ct, ALL) {
        assert AcceptsStored(check, variable, ulongMax, x);
      }
    }
  }

  lemma RejectsNone(check: Check, variable: Variable, store: Store, ulongMax: UlongMax, S: iset<int>, A: iset<int>)
    requires !variable.Flag? && (check.Check? ==> Checks(check, variable, ulongMax, S)) && A <= S
    ensures forall x: int :: Stored(store, ulongMax, x) && x in A ==>
              Converted(variable, ulongMax, x) != x || AcceptsStored(check, variable, ulongMax, x)
  {
    forall x: int | Stored(store, ulongMax, x) && x in A && Converted(variable, ulongMax, x) == x
      ensures AcceptsStored(check, variable, ulongMax, x)
    {
      ConvertedIsHeld(variable, store, ulongMax, x);
      assert check.Check? ==> Accepts(check, x);
    }
  }

  /** When the check is right, by what is checked. */
  ghost predicate RightIff(check: Check, variable: Variable, subject: Subject, wideTypes: bool, ulongMax: UlongMax,
                           S: iset<int>, booleanLiterals: bool)
  {
    match subject
    case NativeInteger(store) =>
      && (variable.UnsignedLong? <==> CallsForUnsigned(S, wideTypes)) && (check.Check? <==> Checkable(S))
      && (check.Check? ==> Checks(check, variable, ulongMax, S))
      && (ChecksStored(check, variable, store, ulongMax, S) <==>
            if Checkable(S) then NoneMistaken(variable, store, ulongMax, S) else !Restrictive(store, ulongMax, S))
    case OctetInteger =>
      && (variable.UnsignedLong? <==> CallsForUnsigned(S, wideTypes)) && (check.Check? <==> Checkable(S))
      && (check.Check? ==> Checks(check, variable, ulongMax, S) && (check.signOnly <==> IsSignRange(S)))
      && (ChecksOctets(check, variable, ulongMax, S) <==>
            S == ALL || OctetsFit(S, wideTypes, ulongMax))
    case BooleanValue => booleanLiterals ==> (Checks(check, Flag, ulongMax, S) <==> S != iset{})
  }

  lemma IsRightIff(check: Check, variable: Variable, subject: Subject, wideTypes: bool, ulongMax: UlongMax,
                   S: iset<int>, booleanLiterals: bool)
    requires CheckFor(check, variable, subject, wideTypes, ulongMax, S)
    requires booleanLiterals ==> BooleanSet(S)
    ensures RightIff(check, variable, subject, wideTypes, ulongMax, S, booleanLiterals)
  {
    match subject
    case NativeInteger(store) =>
      if variable.UnsignedLong? {
        var l :| l in S && LowerBound(S, l) && l >= 0;
      }
      StoredRightIff(check, variable, store, ulongMax, S);
    case OctetInteger => OctetsRightIff(check, variable, wideTypes, ulongMax, S);
    case BooleanValue =>
      if S == iset{} {
        assert Holds(Flag, ulongMax, 0) && Accepts(check, 0);
      }
  }

  lemma BoundedIsNotAll(S: iset<int>)
    requires BoundedBelow(S) || BoundedAbove(S)
    ensures S != ALL
  {
    if BoundedBelow(S) {
      var b :| LowerBound(S, b);
      assert b - 1 !in S;
    } else {
      var b :| UpperBound(S, b);
      assert b + 1 !in S;
    }
  }

  lemma OctetsRightIff(check: Check, variable: Variable, wideTypes: bool, ulongMax: UlongMax, S: iset<int>)
    requires !variable.Flag? && (variable.UnsignedLong? <==> CallsForUnsigned(S, wideTypes))
    requires check.Check? <==> Checkable(S)
    requires check.Check? ==> Checks(check, variable, ulongMax, S) && (check.signOnly <==> IsSignRange(S))
    ensures ChecksOctets(check, variable, ulongMax, S) <==>
              S == ALL || OctetsFit(S, wideTypes, ulongMax)
  {
    if check.NoCheck? {
      if x: int :| x !in S {
        var octets := OctetsOf(x);
        assert AcceptsOctets(check, variable, ulongMax, octets);
      } else {
        forall x: int ensures x in S <==> x in ALL {
        }
        assert S == ALL;
      }
    } else if variable.UnsignedLong? {
      UnsignedOctetsFail(check, ulongMax, S, wideTypes);
      BoundedIsNotAll(S);
    } else {
      SignedOctetsIff(check, ulongMax, S);
      BoundedIsNotAll(S);
    }
  }

  /** Nothing is admitted by (1..2) ^ (5..6), so the check is left out and accepts everything. */
  lemma EmptyIsUnchecked(ulongMax: UlongMax)
    ensures var S := Admitted(NoMembers(), ALL);
            && Decided(NoMembers()) && Bare(NoMembers()) == NoMembers()
            && !Checkable(S) && Restrictive(StoredSigned, ulongMax, S)
  {
    var ps := NoMembers().parts;
    assert |ps| == 2;
    NoMembersEvaluated();
    Exactly(NoMembers(), ALL, true);
    FailsIff(NoMembers(), ALL, true);
    ExactIsDecided(NoMembers());
    assert Stored(StoredSigned, ulongMax, 0);
  }

  /** (MIN..1) | (5..MAX) */
  ghost function WithGap(): Constraint {
    Union([Interval(MinValue, Integer(1), false, false), Interval(Integer(5), MaxValue, false, false)])
  }

  lemma GapAdmits()
    ensures forall x: int :: x in Admitted(WithGap(), ALL) <==> x <= 1 || 5 <= x
  {
    var cs := WithGap().parts;
    assert |cs| == 2;
    forall x: int ensures x in Admitted(WithGap(), ALL) <==> x <= 1 || 5 <= x {
      assert x in Admitted(cs[0], ALL) <==> x <= 1;
      assert x in Admitted(cs[1], ALL) <==> 5 <= x;
    }
  }

  lemma GapFits()
    ensures Exact(WithGap()) && HeadsKept(WithGap(), ALL, true) && Fits(WithGap(), ALL)
  {
    var cs := WithGap().parts;
    assert |cs| == 2 && Head(cs) == 0;
    assert 1 in Evaluated(cs[0], ALL, true).members;
    assert Fits(cs[0], ALL) by { assert 1 in Admitted(cs[0], ALL); }
    assert Fits(cs[1], ALL) by { assert 5 in Admitted(cs[1], ALL); }
  }

  /** So does the check of a range that is open at both ends, though 3 is not admitted. */
  lemma GapIsUnchecked(ulongMax: UlongMax)
    ensures var S := Admitted(WithGap(), ALL);
            && Decided(WithGap()) && Bare(WithGap()) == WithGap()
            && !Checkable(S) && 3 !in S && Restrictive(StoredSigned, ulongMax, S)
  {
    hide Admitted, Exact, HeadsKept, Fits, Decided, Bare;
    var S := Admitted(WithGap(), ALL);
    GapAdmits();
    GapFits();
    ExactIsDecided(WithGap());
    forall b: int ensures !UpperBound(S, b) && !LowerBound(S, b) {
      assert (if b < 5 then 5 else b + 1) in S && (if b > 1 then 1 else b - 1) in S;
    }
    assert Stored(StoredSigned, ulongMax, 3);
  }

  /** (0..4294967295) goes unchecked as well, rightly just where the unsigned type has 32 bits. */
  lemma Uint32IsUnchecked(ulongMax: UlongMax)
    ensures var ct := Interval(Integer(0), Integer(UINT32_MAX), false, false);
            var S := Admitted(ct, ALL);
            && Decided(ct) && Bare(ct) == ct && !Checkable(S)
            && (Restrictive(StoredUnsigned, ulongMax, S) <==> ulongMax > UINT32_MAX)
            && Restrictive(StoredSigned, ulongMax, S)
  {
    var S := Admitted(Interval(Integer(0), Integer(UINT32_MAX), false, false), ALL);
    assert 0 in S;
    forall x: int ensures x in S <==> InUint32(x) {
    }
    assert Stored(StoredUnsigned, ulongMax, ulongMax) && Stored(StoredSigned, ulongMax, -1);
  }

  /** (0..MAX) */
  function Naturals(): Constraint {
    Interval(Integer(0), MaxValue, false, false)
  }

  lemma NaturalsCall(ulongMax: UlongMax)
    ensures var S := Admitted(Naturals(), ALL);
            && Decided(Naturals()) && Bare(Naturals()) == Naturals()
            && CallsForUnsigned(S, false) && Checkable(S) && ulongMax - 4 in S && -5 !in S
  {
    var S := Admitted(Naturals(), ALL);
    assert 0 in S && LowerBound(S, 0);
    forall b: int ensures !UpperBound(S, b) {
      assert (if b < 0 then 0 else b + 1) in S;
    }
    assert !InUint32(UINT32_MAX + 1) && UINT32_MAX + 1 in S;
  }

  /** Without wide types, (0..MAX) calls for an unsigned variable, into which a stored -5 is read as a high number. */
  method MinusFiveIsAccepted(ulongMax: UlongMax) returns (check: Check, variable: Variable)
    ensures check.Check? && AcceptsStored(check, variable, ulongMax, -5)
    ensures Stored(StoredSigned, ulongMax, -5) && -5 !in Admitted(Naturals(), ALL)
  {
    var o;
    check, variable, o := CompileCheck(Naturals(), NativeInteger(StoredSigned), false, ulongMax);
    NaturalsCall(ulongMax);
    assert Holds(UnsignedLong, ulongMax, ulongMax - 4);
    assert Converted(variable, ulongMax, -5) == ulongMax - 4;
  }

  /** (0..4000000000) */
  function UpToFourBillion(): Constraint {
    Interval(Integer(0), Integer(4000000000), false, false)
  }

  lemma FourBillionCalls(wideTypes: bool)
    ensures var S := Admitted(UpToFourBillion(), ALL);
            && CallsForUnsigned(S, wideTypes) && Checkable(S) && !IsSignRange(S) && 255 in S && -1 !in S
  {
    var S := Admitted(UpToFourBillion(), ALL);
    assert 0 in S && LowerBound(S, 0) && 4000000000 in S && UpperBound(S, 4000000000);
    assert InUint32(4000000001) && 4000000001 !in S;
    assert IsNatural(4000000001) && IsNatural(0);
  }

  /** Kept as octets, the value goes into an unsigned variable: the octet of -1 is read as 255 and accepted. */
  method MinusOneIsAccepted(wideTypes: bool, ulongMax: UlongMax) returns (check: Check, variable: Variable)
    ensures AcceptsOctets(check, variable, ulongMax, [255])
    ensures IntegerOctets.Value([255]) == -1 && -1 !in Admitted(UpToFourBillion(), ALL)
  {
    var o;
    check, variable, o := CompileCheck(UpToFourBillion(), OctetInteger, wideTypes, ulongMax);
    FourBillionCalls(wideTypes);
    assert Holds(UnsignedLong, ulongMax, 255);
    OneOctet(ulongMax, check);
  }

  lemma OneOctet(ulongMax: UlongMax, check: Check)
    requires check.Check? && !check.signOnly
    requires Eval(check.test, 255)
    ensures AcceptsOctets(check, UnsignedLong, ulongMax, [255])
  {
    var octets: seq<IntegerOctets.Octet> := [255];
    UnsignedNext(octets, 0);
    assert octets[..0] == [] && octets[..1] == octets;
    assert Power(1) == 256;
    PowersGrow(1, WIDTH);
  }

  /** (0..<10) EXCEPT 5 */
  function WithExclusion(): Constraint {
    Except(Interval(Integer(0), Integer(10), false, true), [Single(Integer(5))])
  }

  lemma ExclusionIsDropped()
    ensures Decided(WithExclusion()) && PlainBounds(WithExclusion())
    ensures forall x: int :: x in Admitted(Bare(WithExclusion()), ALL) <==> 0 <= x <= 10
    ensures 5 !in Admitted(WithExclusion(), ALL) && 10 !in Admitted(WithExclusion(), ALL)
  {
    var es := WithExclusion().excluded;
    assert |es| == 1 && 5 in Admitted(es[0], ALL);
    assert 0 in Admitted(Bare(WithExclusion()), ALL);
  }

  /** Its check accepts just 0 to 10, with 5 and 10 among them. */
  method ExclusionIsIgnored(wideTypes: bool, ulongMax: UlongMax) returns (check: Check, variable: Variable)
    ensures forall x: int :: Stored(StoredSigned, ulongMax, x) ==>
              (AcceptsStored(check, variable, ulongMax, x) <==> 0 <= x <= 10)
    ensures 5 !in Admitted(WithExclusion(), ALL) && 10 !in Admitted(WithExclusion(), ALL)
  {
    hide Admitted, Bare, Decided;
    ExclusionIsDropped();
    var o;
    check, variable, o := CompileCheck(WithExclusion(), NativeInteger(StoredSigned), wideTypes, ulongMax);
    ghost var S := Admitted(Bare(WithExclusion()), ALL);
    assert 0 in S && LowerBound(S, 0) && 10 in S && UpperBound(S, 10) && InUint32(11) && 11 !in S;
    forall u | u in S && UpperBound(S, u) ensures u <= INT32_MAX {
    }
  }

  /** The check of BOOLEAN (TRUE) accepts what is not 0. */
  method TrueIsTrue(wideTypes: bool, ulongMax: UlongMax) returns (check: Check)
    ensures forall stored: int :: AcceptsBoolean(check, stored) <==> stored != 0
  {
    var ct := Single(Boolean(true));
    var variable, o;
    check, variable, o := CompileCheck(ct, BooleanValue, wideTypes, ulongMax);
    assert NumberOf(ct.literal) in Admitted(ct, ALL);
    assert true in Truths(ct, BOTH);
  }
}
