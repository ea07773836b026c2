/**
 * Propositional formulas as the prop4j library represents them, with their
 * semantics over assignments of truth values to variable names.
 */
module Formulas {

  datatype Formula =
    | True
    | False
    | Lit(name: string, positive: bool)
    | Not(operand: Formula)
    | And(children: seq<Formula>)
    | Or(children: seq<Formula>)
    | Implies(left: Formula, right: Formula)
    | Equals(left: Formula, right: Formula)

  /** A truth value for every variable name. */
  type Assignment = string -> bool

  /** The truth value of `f` under the assignment `a`. */
  predicate Eval(f: Formula, a: Assignment)
  {
    match f
    case True => true
    case False => false
    case Lit(x, positive) => a(x) == positive
    case Not(g) => !Eval(g, a)
    case And(cs) => forall i | 0 <= i < |cs| :: Eval(cs[i], a)
    case Or(cs) => exists i | 0 <= i < |cs| :: Eval(cs[i], a)
    case Implies(l, r) => Eval(l, a) ==> Eval(r, a)
    case Equals(l, r) => Eval(l, a) == Eval(r, a)
  }

  /** Some assignment makes `f` true. */
  ghost predicate Satisfiable(f: Formula) { exists a: Assignment :: Eval(f, a) }

  /** Every assignment makes `f` true. */
  ghost predicate Tautology(f: Formula) { forall a: Assignment :: Eval(f, a) }

  /** Every model of `l` is a model of `r`. */
  ghost predicate Entails(l: Formula, r: Formula) { forall a: Assignment :: Eval(l, a) ==> Eval(r, a) }

  /** `l` and `r` have the same models. */
  ghost predicate Equivalent(l: Formula, r: Formula) { forall a: Assignment :: Eval(l, a) == Eval(r, a) }

  /** The assignment that makes every variable true. */
  function AllTrue(): Assignment { (x: string) => true }

  /** The assignment that makes every variable false. */
  function AllFalse(): Assignment { (x: string) => false }

  /** `FormulaUtils.negate`: the negation of a formula. */
  function Negate(f: Formula): (r: Formula)
    ensures forall a: Assignment :: Eval(r, a) == !Eval(f, a)
  {
    Not(f)
  }

  function Sum(s: seq<nat>): nat
  {
    if |s| == 0 then 0 else s[0] + Sum(s[1..])
  }

  /** `FormulaUtils.numberOfLiterals`: the number of literal leaves. */
  function NumberOfLiterals(f: Formula): nat
  {
    match f
    case True => 0
    case False => 0
    case Lit(_, _) => 1
    case Not(g) => NumberOfLiterals(g)
    case And(cs) => Sum(seq(|cs|, i requires 0 <= i < |cs| => NumberOfLiterals(cs[i])))
    case Or(cs) => Sum(seq(|cs|, i requires 0 <= i < |cs| => NumberOfLiterals(cs[i])))
    case Implies(l, r) => NumberOfLiterals(l) + NumberOfLiterals(r)
    case Equals(l, r) => NumberOfLiterals(l) + NumberOfLiterals(r)
  }

  /** A conjunction holds exactly when each of its clauses holds. */
  lemma EvalAnd(cs: seq<Formula>, a: Assignment)
    ensures Eval(And(cs), a) <==> forall i :: 0 <= i < |cs| ==> Eval(cs[i], a)
  {
  }

  /** Appending clause lists conjoins their conjunctions. */
  lemma EvalAndAppend(xs: seq<Formula>, ys: seq<Formula>, a: Assignment)
    ensures Eval(And(xs + ys), a) <==> Eval(And(xs), a) && Eval(And(ys), a)
  {
    if Eval(And(xs), a) && Eval(And(ys), a) {
      forall i | 0 <= i < |xs + ys| ensures Eval((xs + ys)[i], a) {
        if i < |xs| { assert (xs + ys)[i] == xs[i]; } else { assert (xs + ys)[i] == ys[i - |xs|]; }
      }
    }
    if Eval(And(xs + ys), a) {
      forall i | 0 <= i < |xs| ensures Eval(xs[i], a) { assert (xs + ys)[i] == xs[i]; }
      forall i | 0 <= i < |ys| ensures Eval(ys[i], a) { assert (xs + ys)[|xs| + i] == ys[i]; }
    }
  }
}
