/** Following references to a terminal type (libasn1fix/asn1fix_retrieve.c, `asn1f_find_terminal_thing`). */
module Retrieve {
  import opened Wrappers

  /** What to look for: a type that is no reference, or an earlier one in the chain that has constraints. */
  datatype Goal = AnyType | ConstrainedType

  class Expr {
    const isReference: bool
    const constrained: bool
    var mark: bool
    var referenced: bool

    constructor (isReference: bool, constrained: bool)
      ensures this.isReference == isReference && this.constrained == constrained && !mark && !referenced
    {
      this.isReference, this.constrained, mark, referenced := isReference, constrained, false, false;
    }
  }

  /** The expressions of all modules, and what references mean in their own module and in the module they name. */
  class Modules {
    ghost const exprs: set<Expr>
    const local: Expr -> Option<Expr>
    const foreign: Expr -> Option<Expr>

    constructor (ghost exprs: set<Expr>, local: Expr -> Option<Expr>, foreign: Expr -> Option<Expr>)
      ensures this.exprs == exprs && this.local == local && this.foreign == foreign
    {
      this.exprs, this.local, this.foreign := exprs, local, foreign;
    }

    function Target(e: Expr): Option<Expr> {
      if local(e).Some? then local(e) else foreign(e)
    }

    ghost predicate Valid() {
      forall e :: e in exprs && Target(e).Some? ==> Target(e).value in exprs
    }

    ghost function Marked(): set<Expr>
      reads exprs
    {
      set e | e in exprs && e.mark
    }

    ghost function Unmarked(): set<Expr>
      reads exprs
    {
      set e | e in exprs && !e.mark
    }

    /** A target that is the answer whatever follows it. */
    predicate Final(e: Expr, goal: Goal) {
      !e.isReference || (goal == ConstrainedType && e.constrained)
    }

    /** path follows references, past no final target, to targets outside avoid. */
    ghost predicate Follows(older path: seq<Expr>, avoid: set<Expr>, goal: Goal) {
      && path != []
      && (forall i :: 0 <= i < |path| ==> path[i] in exprs)
      && (forall i :: 0 <= i < |path| - 1 ==> path[i].isReference && Target(path[i]) == Some(path[i + 1]))
      && (forall i :: 0 < i < |path| ==> path[i] !in avoid)
      && (forall i :: 0 < i < |path| - 1 ==> !Final(path[i], goal))
    }

    /** Following references from e leads to x. */
    ghost predicate Reaches(e: Expr, x: Expr, avoid: set<Expr>, goal: Goal) {
      exists path: seq<Expr> :: Follows(path, avoid, goal) && |path| > 1 && path[0] == e && path[|path| - 1] == x
    }

    /** The answer for e: e itself if it is no reference, or else the final target in its chain. */
    ghost predicate Answers(e: Expr, x: Expr, avoid: set<Expr>, goal: Goal) {
      if e.isReference then Final(x, goal) && Reaches(e, x, avoid, goal) else x == e
    }

    lemma ReachesNext(e: Expr, avoid: set<Expr>, goal: Goal)
      requires Valid() && e in exprs && e.isReference && Target(e).Some? && Target(e).value !in avoid
      ensures Reaches(e, Target(e).value, avoid, goal)
    {
      assert Follows([e, Target(e).value], avoid, goal);
    }

    lemma ReachesFurther(e: Expr, t: Expr, x: Expr, avoid: set<Expr>, goal: Goal)
      requires e in exprs && e.isReference && Target(e) == Some(t) && t !in avoid && !Final(t, goal)
      requires Reaches(t, x, avoid + {t}, goal)
      ensures Reaches(e, x, avoid, goal)
    {
      var path: seq<Expr> :| Follows(path, avoid + {t}, goal) && |path| > 1 && path[0] == t && path[|path| - 1] == x;
      var longer := [e] + path;
      assert forall i :: 0 < i < |longer| ==> longer[i] == path[i - 1];
      assert Follows(longer, avoid, goal);
    }

    /** What e reaches is its target t, or something that t reaches without coming back to t. */
    lemma {:induction false} ReachesOnlyFurther(e: Expr, t: Expr, path: seq<Expr>, avoid: set<Expr>, goal: Goal)
      requires e.isReference && Target(e) == Some(t)
      requires Follows(path, avoid, goal) && |path| > 1 && path[0] == e && path[|path| - 1] != t
      ensures t !in avoid && !Final(t, goal) && Reaches(t, path[|path| - 1], avoid + {t}, goal)
      decreases |path|
    {
      assert path[1] == t && |path| > 2;
      if k :| 1 < k < |path| && path[k] == t {
        var shorter := [e] + path[k..];
        assert forall i :: 0 < i < |shorter| ==> shorter[i] == path[i + k - 1];
        ReachesOnlyFurther(e, t, shorter, avoid, goal);
      } else {
        assert Follows(path[1..], avoid + {t}, goal);
      }
    }

    lemma ReachesIff(e: Expr, t: Expr, avoid: set<Expr>, goal: Goal)
      requires Valid() && e in exprs && e.isReference && Target(e) == Some(t) && t !in avoid
      ensures forall x :: Reaches(e, x, avoid, goal) <==>
                          x == t || (!Final(t, goal) && Reaches(t, x, avoid + {t}, goal))
    {
      ReachesNext(e, avoid, goal);
      forall x | Reaches(e, x, avoid, goal) && x != t ensures !Final(t, goal) && Reaches(t, x, avoid + {t}, goal) {
        var path: seq<Expr> :| Follows(path, avoid, goal) && |path| > 1 && path[0] == e && path[|path| - 1] == x;
        ReachesOnlyFurther(e, t, path, avoid, goal);
      }
      forall x | !Final(t, goal) && Reaches(t, x, avoid + {t}, goal) ensures Reaches(e, x, avoid, goal) {
        ReachesFurther(e, t, x, avoid, goal);
      }
    }

    lemma ReachesNothing(e: Expr, avoid: set<Expr>, goal: Goal)
      requires !e.isReference || Target(e).None? || Target(e).value in avoid
      ensures forall x :: !Reaches(e, x, avoid, goal)
    {
      forall path: seq<Expr> | Follows(path, avoid, goal) && |path| > 1 ensures path[0] != e {
        assert path[1] !in avoid && Target(path[0]) == Some(path[1]);
      }
    }

    /**
     The answer for e, None when the chain of references has no end or a marked one comes first. Marks are
     restored, and the targets on the way are known as referenced.
     */
    method FindTerminal(e: Expr, goal: Goal) returns (r: Option<Expr>)
      requires Valid() && e in exprs
      modifies exprs
      ensures Marked() == old(Marked())
      ensures forall x :: x in exprs ==> (x.referenced <==> old(x.referenced) || Reaches(e, x, old(Marked()), goal))
      ensures forall x :: r == Some(x) <==> Answers(e, x, old(Marked()), goal)
      decreases Unmarked()
    {
      ghost var before := Marked();
      if !e.isReference {
        ReachesNothing(e, before, goal);
        return Some(e);
      }
      var found := local(e);
      if found.None? {
        found := foreign(e);
        if found.None? {
          ReachesNothing(e, before, goal);
          return None;
        }
      }
      var tc := found.value;
      if tc.mark {
        ReachesNothing(e, before, goal);
        return None;
      }
      ReachesIff(e, tc, before, goal);
      tc.referenced := true;
      if goal == ConstrainedType && tc.constrained {
        return Some(tc);
      }
      tc.mark := true;
      assert Marked() == before + {tc};
      assert Unmarked() == old(Unmarked()) - {tc};
      r := FindTerminal(tc, goal);
      tc.mark := false;
      assert Marked() == before;
    }

    /** With no marks set, the walk finds a type exactly when the chain of references comes to one. */
    method FindTerminalType(e: Expr) returns (r: Option<Expr>)
      requires Valid() && e in exprs && Marked() == {}
      modifies exprs
      ensures Marked() == {}
      ensures forall x :: r == Some(x) <==> TerminalOf(e, x)
    {
      r := FindTerminal(e, AnyType);
      forall x ensures Answers(e, x, {}, AnyType) <==> TerminalOf(e, x) {
        AnswerIsTerminal(e, x);
      }
    }

    /** x is no reference, and references lead from e to it. */
    ghost predicate TerminalOf(e: Expr, x: Expr) {
      !x.isReference && exists n: nat :: Nth(e, n) == Some(x)
    }

    /** The n-th target in the chain of e. */
    function Nth(e: Expr, n: nat): Option<Expr> {
      if n == 0 then Some(e)
      else
        var p := Nth(e, n - 1);
        if p.None? || !p.value.isReference then None else Target(p.value)
    }

    lemma {:induction false} NthOnPath(path: seq<Expr>, n: nat, goal: Goal)
      requires Follows(path, {}, goal) && n < |path|
      ensures Nth(path[0], n) == Some(path[n])
    {
      if n > 0 {
        NthOnPath(path, n - 1, goal);
      }
    }

    lemma {:induction false} PathToNth(e: Expr, n: nat) returns (path: seq<Expr>)
      requires Valid() && e in exprs && Nth(e, n).Some?
      ensures |path| == n + 1 && Follows(path, {}, AnyType) && path[0] == e && path[n] == Nth(e, n).value
    {
      if n == 0 {
        path := [e];
      } else {
        path := PathToNth(e, n - 1);
        path := path + [Nth(e, n).value];
      }
    }

    lemma AnswerIsTerminal(e: Expr, x: Expr)
      requires Valid() && e in exprs
      ensures Answers(e, x, {}, AnyType) <==> TerminalOf(e, x)
    {
      if Answers(e, x, {}, AnyType) {
        if e.isReference {
          var path: seq<Expr> :| Follows(path, {}, AnyType) && |path| > 1 && path[0] == e && path[|path| - 1] == x;
          NthOnPath(path, |path| - 1, AnyType);
        } else {
          assert Nth(e, 0) == Some(x);
        }
      }
      if TerminalOf(e, x) {
        var n: nat :| Nth(e, n) == Some(x);
        var path := PathToNth(e, n);
        if n > 0 && !e.isReference {
          assert !path[0].isReference;
        }
      }
    }

    // ----- Targets with constraints -----

    /** With no marks set, the walk finds the first target that has constraints or is no reference. */
    method FindConstrainedType(e: Expr) returns (r: Option<Expr>)
      requires Valid() && e in exprs && Marked() == {}
      modifies exprs
      ensures Marked() == {}
      ensures forall x :: r == Some(x) <==> ConstrainedOf(e, x)
    {
      r := FindTerminal(e, ConstrainedType);
      forall x ensures Answers(e, x, {}, ConstrainedType) <==> ConstrainedOf(e, x) {
        AnswerIsConstrained(e, x);
      }
    }

    /** e itself if it is no reference, or else the first target that has constraints or is none. */
    ghost predicate ConstrainedOf(e: Expr, x: Expr) {
      if e.isReference then exists n: nat :: n > 0 && Nth(e, n) == Some(x) && FirstConstrained(e, n) else x == e
    }

    /** The n-th target is the first one that has constraints or is no reference. */
    ghost predicate FirstConstrained(e: Expr, n: nat) {
      && Nth(e, n).Some? && (Nth(e, n).value.constrained || !Nth(e, n).value.isReference)
      && forall m :: 0 < m < n && Nth(e, m).Some? ==> !Nth(e, m).value.constrained
    }

    lemma {:induction false} NthBefore(e: Expr, m: nat, n: nat)
      requires m < n && Nth(e, n).Some?
      ensures Nth(e, m).Some? && Nth(e, m).value.isReference
      decreases n
    {
      if m < n - 1 {
        NthBefore(e, m, n - 1);
      }
    }

    lemma AnswerIsConstrained(e: Expr, x: Expr)
      requires Valid() && e in exprs
      ensures Answers(e, x, {}, ConstrainedType) <==> ConstrainedOf(e, x)
    {
      if e.isReference && Answers(e, x, {}, ConstrainedType) {
        var path: seq<Expr> :|
          Follows(path, {}, ConstrainedType) && |path| > 1 && path[0] == e && path[|path| - 1] == x;
        forall m | 0 < m < |path| ensures Nth(e, m) == Some(path[m]) {
          NthOnPath(path, m, ConstrainedType);
        }
        assert FirstConstrained(e, |path| - 1);
      }
      if e.isReference && ConstrainedOf(e, x) {
        var n: nat :| n > 0 && Nth(e, n) == Some(x) && FirstConstrained(e, n);
        var path := PathToNth(e, n);
        forall m | 0 < m < n ensures !Final(path[m], ConstrainedType) {
          NthOnPath(path, m, AnyType);
          NthBefore(e, m, n);
        }
        assert Follows(path, {}, ConstrainedType);
      }
    }

    /** The meaning of a reference in the module it names counts only where it has none in its own. */
    lemma {:induction false} LocalDecides(others: Modules, e: Expr, n: nat)
      requires others.local == local && forall x :: local(x).None? ==> others.foreign(x) == foreign(x)
      ensures others.Nth(e, n) == Nth(e, n)
    {
      if n > 0 {
        LocalDecides(others, e, n - 1);
      }
    }
  }
}
