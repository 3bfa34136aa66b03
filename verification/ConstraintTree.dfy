/** Constraint trees over integer values and what they mean. */
module ConstraintTree {
  import opened Edges

  datatype Literal =
    | Integer(i: intmax)
    | MinValue
    | MaxValue
    | Boolean(b: bool)
    | Tuple(t: intmax)
    | CharString
    | BitVector
    | Referenced
    | Unrecognized

  /**
   A constraint. An interval may be open at either end. Foreign is any constraint that the evaluation
   declares incompatible (SIZE, FROM, WITH COMPONENTS, ...); `admits` says what it means.
   */
  datatype Constraint =
    | Single(literal: Literal)
    | Interval(start: Literal, stop: Literal, openStart: bool, openStop: bool)
    | Extension
    | Serial(parts: seq<Constraint>)
    | Intersection(parts: seq<Constraint>)
    | Union(parts: seq<Constraint>)
    | Except(kept: Constraint, excluded: seq<Constraint>)
    | Foreign(admits: int -> bool)

  predicate Number(v: Literal) {
    v.Integer? || v.Tuple? || v.Boolean?
  }

  function NumberOf(v: Literal): intmax
    requires Number(v)
  {
    match v
    case Integer(i) => i
    case Tuple(i) => i
    case Boolean(b) => if b then 1 else 0
  }

  /** The trees whose evaluation reports that only an extension marker was found. */
  predicate OnlyExtension(ct: Constraint) {
    ct.Extension? || (ct.Except? && OnlyExtension(ct.kept))
  }

  /** Index of the first operand that is not just an extension marker. */
  function Head(cs: seq<Constraint>): (i: nat)
    ensures i <= |cs|
    ensures forall k :: 0 <= k < i ==> OnlyExtension(cs[k])
    ensures i < |cs| ==> !OnlyExtension(cs[i])
  {
    if cs == [] || !OnlyExtension(cs[0]) then 0 else 1 + Head(cs[1..])
  }

  // ----- What a tree admits -----

  /** x is not below a bound; as a lower bound, MIN is the least member of the parent set P, if there is one. */
  ghost predicate AtLeast(x: int, bound: Literal, open: bool, P: iset<int>) {
    match bound
    case MinValue => open ==> exists y :: y in P && y < x
    case _ => Number(bound) && if open then NumberOf(bound) < x else NumberOf(bound) <= x
  }

  /** x is not above a bound, MAX being the greatest member. */
  ghost predicate AtMost(x: int, bound: Literal, open: bool, P: iset<int>) {
    match bound
    case MaxValue => open ==> exists y :: y in P && x < y
    case _ => Number(bound) && if open then x < NumberOf(bound) else x <= NumberOf(bound)
  }

  /** The members of the parent set that the tree admits; an extension marker has no say in its neighbours. */
  ghost function Admitted(ct: Constraint, P: iset<int>): iset<int> {
    match ct
    case Single(v) => iset x | x in P && AtLeast(x, v, false, P) && AtMost(x, v, false, P)
    case Interval(a, b, oa, ob) => iset x | x in P && AtLeast(x, a, oa, P) && AtMost(x, b, ob, P)
    case Extension => iset{}
    case Serial(cs) => AdmittedInTurn(cs, |cs|, P)
    case Intersection(cs) =>
      iset x | x in P && forall i :: 0 <= i < |cs| && !OnlyExtension(cs[i]) ==> x in Admitted(cs[i], P)
    case Union(cs) =>
      iset x | x in P && exists i :: 0 <= i < |cs| && !OnlyExtension(cs[i]) && x in Admitted(cs[i], P)
    case Except(c, es) => iset x | x in Admitted(c, P) && forall i :: 0 <= i < |es| ==> x !in Admitted(es[i], P)
    case Foreign(admits) => iset x | x in P && admits(x)
  }

  /** What the first n serial constraints leave of P, each being a parent to the next. */
  ghost function AdmittedInTurn(cs: seq<Constraint>, n: nat, P: iset<int>): iset<int>
    requires n <= |cs|
    decreases cs, n
  {
    if n == 0 then P
    else
      var Q := AdmittedInTurn(cs, n - 1, P);
      if OnlyExtension(cs[n - 1]) then Q else Admitted(cs[n - 1], Q)
  }

  lemma {:induction false} AdmittedWithin(ct: Constraint, P: iset<int>)
    ensures Admitted(ct, P) <= P
  {
    match ct
    case Serial(cs) => InTurnWithin(cs, |cs|, P);
    case Except(c, _) => AdmittedWithin(c, P);
    case _ =>
  }

  lemma {:induction false} InTurnWithin(cs: seq<Constraint>, n: nat, P: iset<int>)
    requires n <= |cs|
    ensures AdmittedInTurn(cs, n, P) <= P
    decreases cs, n
  {
    if n > 0 {
      InTurnWithin(cs, n - 1, P);
      AdmittedWithin(cs[n - 1], AdmittedInTurn(cs, n - 1, P));
    }
  }

  // ----- Kinds of trees -----

  /**
   MIN only starts intervals and MAX only stops them, as the grammar has it: a LowerEndValue or an
   UpperEndValue, but no SingleValue (libasn1parser/asn1p_y.y:1974-1997).
   */
  predicate PlainBounds(ct: Constraint) {
    match ct
    case Single(v) => !v.MinValue? && !v.MaxValue?
    case Interval(a, b, _, _) => !a.MaxValue? && !b.MinValue?
    case Serial(cs) => forall i :: 0 <= i < |cs| ==> PlainBounds(cs[i])
    case Intersection(cs) => forall i :: 0 <= i < |cs| ==> PlainBounds(cs[i])
    case Union(cs) => forall i :: 0 <= i < |cs| ==> PlainBounds(cs[i])
    case Except(c, _) => PlainBounds(c)
    case _ => true
  }

  /**
   Every interval is in order and closed, there is no EXCEPT and no constraint without a range, and every
   union has something to unite.
   */
  predicate Exact(ct: Constraint) {
    match ct
    case Single(v) => Number(v)
    case Interval(a, b, oa, ob) =>
      && (Number(a) || a.MinValue?) && (Number(b) || b.MaxValue?) && !oa && !ob
      && (Number(a) && Number(b) ==> NumberOf(a) <= NumberOf(b))
    case Extension => true
    case Serial(cs) => forall i :: 0 <= i < |cs| ==> Exact(cs[i])
    case Intersection(cs) => forall i :: 0 <= i < |cs| ==> Exact(cs[i])
    case Union(cs) => Head(cs) < |cs| && forall i :: 0 <= i < |cs| ==> Exact(cs[i])
    case _ => false
  }
}
