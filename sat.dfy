/**
 * The satisfiability reductions of `analysis/SAT.java`. The solver and the
 * formula transformations it relies on are foreign code; they are given as a
 * record of functions together with the semantic guarantees they are assumed to
 * keep (`Sound`).
 */
module Sat {
  import opened Formulas

  /**
   * The foreign formula machinery: the SAT solver, `FixTrueFalse.EliminateTrueAndFalse`,
   * `Tseytin.toEquivalentCNF`, and prop4j's `toCNF` / `toRegularCNF`.
   */
  datatype Logic = Logic(
    solve: Formula -> bool,
    eliminateTrueAndFalse: Formula -> Formula,
    tseytin: Formula -> Formula,
    toCNF: (Formula, bool) -> Formula,
    toRegularCNF: (Formula, bool) -> Formula)

  /** A clause of a regular CNF: a disjunction of literals. */
  predicate IsRegularClause(c: Formula)
  {
    c.Or? && forall i :: 0 <= i < |c.children| ==> c.children[i].Lit?
  }

  /** A regular CNF: a conjunction of disjunctions of literals. */
  predicate IsRegularCNF(f: Formula)
  {
    f.And? && forall i :: 0 <= i < |f.children| ==> IsRegularClause(f.children[i])
  }

  /** What the foreign code is relied on to guarantee. */
  ghost predicate Sound(l: Logic)
  {
    (forall f :: l.solve(f) <==> Satisfiable(f)) &&
    (forall f :: Formulas.Equivalent(l.eliminateTrueAndFalse(f), f)) &&
    (forall f :: Satisfiable(l.tseytin(f)) <==> Satisfiable(f)) &&
    (forall f, s :: Formulas.Equivalent(l.toCNF(f, s), f)) &&
    (forall f, s :: Formulas.Equivalent(l.toRegularCNF(f, s), f) && IsRegularCNF(l.toRegularCNF(f, s)))
  }

  /** Tseytin conversion is applied above this many literals. */
  const TseytinThreshold: nat := 50

  lemma TrueIsSatisfiable()
    ensures Satisfiable(True)
  {
    assert Eval(True, AllTrue());
  }

  /** Elimination preserves satisfiability, and its constant outcomes are decided correctly. */
  lemma EliminationPreservesSatisfiability(l: Logic, f: Formula)
    requires Sound(l)
    ensures Satisfiable(l.eliminateTrueAndFalse(f)) <==> Satisfiable(f)
    ensures l.eliminateTrueAndFalse(f) == True ==> Satisfiable(f)
    ensures l.eliminateTrueAndFalse(f) == False ==> !Satisfiable(f)
  {
    var g := l.eliminateTrueAndFalse(f);
    assert Formulas.Equivalent(g, f);
    if Satisfiable(g) {
      var a :| Eval(g, a);
      assert Eval(f, a);
    }
    if Satisfiable(f) {
      var a :| Eval(f, a);
      assert Eval(g, a);
    }
    if g == True { TrueIsSatisfiable(); }
  }

  /** `SAT.isSatisfiableNoTseytin`. */
  function IsSatisfiableNoTseytin(l: Logic, f: Formula): (r: bool)
    ensures Sound(l) ==> (r <==> Satisfiable(f))
  {
    var g := l.eliminateTrueAndFalse(f);
    var result := if g == True then true else if g == False then false else l.solve(g);
    assert Sound(l) ==> (result <==> Satisfiable(f)) by {
      if Sound(l) { EliminationPreservesSatisfiability(l, f); }
    }
    result
  }

  /** `SAT.isSatisfiableAlwaysTseytin`. */
  function IsSatisfiableAlwaysTseytin(l: Logic, f: Formula): (r: bool)
    ensures Sound(l) ==> (r <==> Satisfiable(f))
  {
    var g := l.eliminateTrueAndFalse(f);
    var result := if g == True then true else if g == False then false else l.solve(l.tseytin(g));
    assert Sound(l) ==> (result <==> Satisfiable(f)) by {
      if Sound(l) { EliminationPreservesSatisfiability(l, f); }
    }
    result
  }

  /** `SAT.isSatisfiable`: Tseytin conversion only for formulas with more than 50 literals. */
  function IsSatisfiable(l: Logic, f: Formula): (r: bool)
    ensures Sound(l) ==> (r <==> Satisfiable(f))
  {
    var g := l.eliminateTrueAndFalse(f);
    var result :=
      if g == True then true
      else if g == False then false
      else l.solve(if NumberOfLiterals(g) > TseytinThreshold then l.tseytin(g) else g);
    assert Sound(l) ==> (result <==> Satisfiable(f)) by {
      if Sound(l) { EliminationPreservesSatisfiability(l, f); }
    }
    result
  }

  /** `SAT.isTautology`: a formula is a tautology iff its negation is unsatisfiable. */
  function IsTautology(l: Logic, f: Formula): (r: bool)
    ensures Sound(l) ==> (r <==> Tautology(f))
  {
    var result := !IsSatisfiable(l, Negate(f));
    assert Sound(l) ==> (result <==> Tautology(f)) by {
      if Sound(l) {
        if !Tautology(f) {
          var a :| !Eval(f, a);
          assert Eval(Negate(f), a);
        }
      }
    }
    result
  }

  /** `SAT.implies`: every model of `left` is a model of `right`. */
  function Implies(l: Logic, left: Formula, right: Formula): (r: bool)
    ensures Sound(l) ==> (r <==> Entails(left, right))
  {
    var result := IsTautology(l, Formula.Implies(left, right));
    assert Sound(l) ==> (result <==> Entails(left, right)) by {
      if Sound(l) {
        if !Entails(left, right) {
          var a :| Eval(left, a) && !Eval(right, a);
          assert !Eval(Formula.Implies(left, right), a);
        } else {
          forall a: Assignment ensures Eval(Formula.Implies(left, right), a) {}
        }
      }
    }
    result
  }

  /** `SAT.equivalent`: `left` and `right` have the same models. */
  function Equivalent(l: Logic, left: Formula, right: Formula): (r: bool)
    ensures Sound(l) ==> (r <==> Formulas.Equivalent(left, right))
  {
    var result := IsTautology(l, Formula.Equals(left, right));
    assert Sound(l) ==> (result <==> Formulas.Equivalent(left, right)) by {
      if Sound(l) {
        if !Formulas.Equivalent(left, right) {
          var a :| Eval(left, a) != Eval(right, a);
          assert !Eval(Formula.Equals(left, right), a);
        } else {
          forall a: Assignment ensures Eval(Formula.Equals(left, right), a) {}
        }
      }
    }
    result
  }

  /** With a sound solver the three satisfiability variants give the same answer. */
  lemma VariantsAgree(l: Logic, f: Formula)
    requires Sound(l)
    ensures IsSatisfiableNoTseytin(l, f) == IsSatisfiable(l, f) == IsSatisfiableAlwaysTseytin(l, f)
  {
  }

  /** The variants differ only in whether Tseytin conversion is applied before the solver call. */
  lemma VariantsDifferOnlyInTseytin(l: Logic, f: Formula)
    ensures NumberOfLiterals(l.eliminateTrueAndFalse(f)) > TseytinThreshold ==>
              IsSatisfiable(l, f) == IsSatisfiableAlwaysTseytin(l, f)
    ensures NumberOfLiterals(l.eliminateTrueAndFalse(f)) <= TseytinThreshold ==>
              IsSatisfiable(l, f) == IsSatisfiableNoTseytin(l, f)
  {
  }

  /** When elimination yields a constant, the answer does not depend on the solver at all. */
  lemma ConstantsNeedNoSolver(l: Logic, solve': Formula -> bool, f: Formula)
    requires l.eliminateTrueAndFalse(f) == True || l.eliminateTrueAndFalse(f) == False
    ensures IsSatisfiable(l, f) == IsSatisfiable(l.(solve := solve'), f)
    ensures IsSatisfiable(l, f) <==> l.eliminateTrueAndFalse(f) == True
  {
  }

  /** Equivalence is implication in both directions. */
  lemma EquivalentIffMutualImplication(l: Logic, x: Formula, y: Formula)
    requires Sound(l)
    ensures Equivalent(l, x, y) <==> Implies(l, x, y) && Implies(l, y, x)
  {
    if Implies(l, x, y) && Implies(l, y, x) {
      assert Formulas.Equivalent(x, y) by {
        forall a: Assignment ensures Eval(x, a) == Eval(y, a) {
          assert Eval(x, a) ==> Eval(y, a);
          assert Eval(y, a) ==> Eval(x, a);
        }
      }
    }
  }
}
