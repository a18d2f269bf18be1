/**
  Systems of equations in which the value of a symbol is determined by the values of symbols of
  smaller rank: they have exactly one solution.
 */
module KconfFixpoint {
  import opened KconfExpr

  type Values = Symbol -> Tristate

  // The right-hand side for each symbol, given the values of all symbols.
  type Equations = (Values, Symbol) -> Tristate

  ghost predicate AgreeBelow(rank: Symbol -> nat, f: Values, g: Values, n: nat) {
    forall t: Symbol :: rank(t) < n ==> f(t) == g(t)
  }

  // Each equation looks only at symbols of smaller rank.
  ghost predicate Local(eq: Equations, rank: Symbol -> nat) {
    forall f, g, s {:trigger eq(f, s), eq(g, s)} :: AgreeBelow(rank, f, g, rank(s)) ==> eq(f, s) == eq(g, s)
  }

  ghost predicate Solves(eq: Equations, f: Values) {
    forall s: Symbol {:trigger eq(f, s)} :: f(s) == eq(f, s)
  }

  // The equations applied n times.
  ghost function Iterate(eq: Equations, n: nat): Values {
    if n == 0 then (s: Symbol) => NO else var f := Iterate(eq, n - 1); (s: Symbol) => eq(f, s)
  }

  ghost function Fixpoint(eq: Equations, rank: Symbol -> nat): Values {
    (s: Symbol) => Iterate(eq, rank(s) + 1)(s)
  }

  // Once past the rank of a symbol, further iterations do not change it.
  lemma {:induction false} IterateStable(eq: Equations, rank: Symbol -> nat, s: Symbol, m: nat, n: nat)
    requires Local(eq, rank) && rank(s) <= m && rank(s) <= n
    ensures Iterate(eq, m + 1)(s) == Iterate(eq, n + 1)(s)
    decreases rank(s)
  {
    var f, g := Iterate(eq, m), Iterate(eq, n);
    forall t: Symbol | rank(t) < rank(s)
      ensures f(t) == g(t)
    {
      IterateStable(eq, rank, t, m - 1, n - 1);
    }
    assert eq(f, s) == eq(g, s);
  }

  lemma FixpointSolvesAt(eq: Equations, rank: Symbol -> nat, s: Symbol)
    requires Local(eq, rank)
    ensures Fixpoint(eq, rank)(s) == eq(Fixpoint(eq, rank), s)
  {
    var f, sol := Iterate(eq, rank(s)), Fixpoint(eq, rank);
    forall t: Symbol | rank(t) < rank(s)
      ensures f(t) == sol(t)
    {
      IterateStable(eq, rank, t, rank(s) - 1, rank(t));
    }
    assert eq(f, s) == eq(sol, s);
  }

  lemma FixpointSolves(eq: Equations, rank: Symbol -> nat)
    requires Local(eq, rank)
    ensures Solves(eq, Fixpoint(eq, rank))
  {
    forall s: Symbol
      ensures Fixpoint(eq, rank)(s) == eq(Fixpoint(eq, rank), s)
    {
      FixpointSolvesAt(eq, rank, s);
    }
  }

  lemma {:induction false} SolutionsAgree(eq: Equations, rank: Symbol -> nat, f: Values, g: Values, s: Symbol)
    requires Local(eq, rank) && Solves(eq, f) && Solves(eq, g)
    ensures f(s) == g(s)
    decreases rank(s)
  {
    forall t: Symbol | rank(t) < rank(s)
      ensures f(t) == g(t)
    {
      SolutionsAgree(eq, rank, f, g, t);
    }
    assert f(s) == eq(f, s) && g(s) == eq(g, s);
  }
}
