/**
  A pair of entries that menu_finalize nests although the lower one can be visible while the
  upper one is neither set nor visible: the nesting test is valid in two-valued logic only.
 */
module KconfNestWitness {
  import opened KconfExpr
  import opened KconfEq
  import opened KconfTransform
  import opened KconfDups
  import opened KconfDupsWitness
  import opened KconfCompare

  const A := Named(0, TristateType)
  const S := Named(1, TristateType)

  // The lower entry depends on !A && !S, the prompt of S on A = n.
  const LOWER := Bin(AndOp, Not(Sym(A)), Not(Sym(S)))
  const UPPER := Equal(A, SYMBOL_NO)

  // What the condition of the lower entry is brought to.
  const LOWER_NOT_NO := Bin(AndOp, Equal(A, SYMBOL_NO), Equal(S, SYMBOL_NO))

  // A is m, every other symbol is n.
  ghost const A_IS_MOD: Valuation :=
    (s: Symbol) => if s == A then Value(MOD, "m") else SOME_VALUATION(s)

  lemma ConstantsDiffer()
    ensures SYMBOL_NO != SYMBOL_YES && SYMBOL_MOD != SYMBOL_NO && SYMBOL_MOD != SYMBOL_YES
  {
    assert SYMBOL_NO.name[0] != SYMBOL_YES.name[0] && SYMBOL_MOD.name[0] != SYMBOL_NO.name[0];
    assert SYMBOL_MOD.name[0] != SYMBOL_YES.name[0];
  }

  lemma LowerCompared()
    ensures Transform(TransCompare(Some(LOWER), Ne, SYMBOL_NO)) == LOWER_NOT_NO
  {
    ConstantsDiffer();
    var either := Bin(OrOp, Unequal(A, SYMBOL_NO), Unequal(S, SYMBOL_NO));
    assert CompareExpr(LOWER, Ne, SYMBOL_NO) == Not(either);
    assert Transform(either) == either;
    var both := Bin(AndOp, Not(Unequal(A, SYMBOL_NO)), Not(Unequal(S, SYMBOL_NO)));
    assert Transform(Not(Unequal(A, SYMBOL_NO))) == Equal(A, SYMBOL_NO);
    assert Transform(Not(Unequal(S, SYMBOL_NO))) == Equal(S, SYMBOL_NO);
    assert Transform(both) == LOWER_NOT_NO;
    assert Transform(Not(either)) == Transform(both);
  }

  lemma LowerSimplified()
    ensures NotNo(Some(LOWER)) == LOWER_NOT_NO
  {
    LowerCompared();
    var a, s := Equal(A, SYMBOL_NO), Equal(S, SYMBOL_NO);
    PairUnchanged(AndOp, a, s);
    PairKept(AndOp, a, s);
    assert Round(LOWER_NOT_NO) == Pass(LOWER_NOT_NO, 0);
  }

  lemma UpperSimplified()
    ensures NotNo(Some(UPPER)) == UPPER
  {
    ConstantsDiffer();
    assert CompareExpr(UPPER, Ne, SYMBOL_NO) == UPPER;
    assert Transform(UPPER) == UPPER;
    assert Round(UPPER) == Pass(UPPER, 0);
  }

  lemma UpperCancels()
    ensures EliminateEq(LOWER_NOT_NO, UPPER).1 == Sym(SYMBOL_YES)
  {
    ConstantsDiffer();
    var yes, s := Sym(SYMBOL_YES), Equal(S, SYMBOL_NO);
    assert CancelOp(AndOp, UPPER, UPPER) == (yes, yes);
    assert CancelOp(AndOp, s, yes) == (s, yes);
    assert CancelOp(AndOp, LOWER_NOT_NO, UPPER) == (Bin(AndOp, yes, s), yes);
  }

  lemma Nests()
    ensures NestsBelow(S, Some(UPPER), Some(LOWER))
  {
    LowerSimplified();
    UpperSimplified();
    UpperCancels();
    assert Mentions(LOWER, S);
  }

  lemma ModLegal()
    ensures Legal(A_IS_MOD)
  {
    forall t: Symbol
      ensures LegalValue(t, A_IS_MOD(t))
    {
      assert LegalValue(t, SOME_VALUATION(t));
    }
  }

  lemma ModValues()
    ensures Eval(LOWER, A_IS_MOD) == MOD && Eval(UPPER, A_IS_MOD) == NO && A_IS_MOD(S) == Value(NO, "n")
  {
    assert A_IS_MOD(A).str[0] != A_IS_MOD(SYMBOL_NO).str[0];
    assert Eval(Not(Sym(A)), A_IS_MOD) == MOD && Eval(Not(Sym(S)), A_IS_MOD) == YES;
  }

  // With A = m and S = n the lower entry is nested and visible as m, while S is n and its
  // prompt invisible.
  lemma NestedButNotReachable()
    ensures Legal(A_IS_MOD) && NestsBelow(S, Some(UPPER), Some(LOWER))
    ensures Eval(LOWER, A_IS_MOD) == MOD
    ensures A_IS_MOD(S) == Value(NO, "n") && Eval(UPPER, A_IS_MOD) == NO
  {
    Nests();
    ModLegal();
    ModValues();
  }
}
