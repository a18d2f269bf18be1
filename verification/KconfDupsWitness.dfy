/**
  A configuration on which expr_eliminate_dups changes a value: its second pass is valid in
  two-valued logic only.
 */
module KconfDupsWitness {
  import opened KconfExpr
  import opened KconfEq
  import opened KconfSlots
  import opened KconfTransform
  import opened KconfDups

  const FOO := Sym(Named(0, TristateType))
  const BAR := Sym(Named(1, TristateType))

  // (FOO || BAR) && (!FOO && !BAR)
  const CONTRADICTION := Bin(AndOp, Bin(OrOp, FOO, BAR), Bin(AndOp, Not(FOO), Not(BAR)))

  ghost const ALL_MOD: Valuation :=
    (s: Symbol) => if HasType(s, TristateType) then Value(MOD, "m") else SOME_VALUATION(s)

  // The two slots of a pair of operands.
  lemma PairSlots(op: Op, a: Expr, b: Expr)
    requires !a.Bin? && !b.Bin?
    ensures var e := Bin(op, a, b);
      && [] + [Left] == [Left] && [] + [Right] == [Right]
      && At(op, e, [Left]) == a && At(op, e, [Right]) == b
      && Put(op, e, [Left], a) == e && Put(op, e, [Right], b) == e
  {
  }

  // Neither pass touches a pair of operands that cannot be joined.
  lemma PairUnchanged(op: Op, a: Expr, b: Expr)
    requires !a.Bin? && !b.Bin? && Join(op, a, b).None? && Join(op, b, a).None?
    ensures Dups1(op, Bin(op, a, b), [], []) == Pass(Bin(op, a, b), 0)
  {
    var e := Bin(op, a, b);
    PairSlots(op, a, b);
    assert Dups1(op, e, [Left], [Right]) == Pass(e, 0);
    assert Dups1(op, e, [Left], []) == Pass(e, 0);
    assert Dups1(op, e, [Right], [Left]) == Pass(e, 0);
    assert Dups1(op, e, [Right], []) == Pass(e, 0);
  }

  lemma PairKept(op: Op, a: Expr, b: Expr)
    requires !a.Bin? && !b.Bin?
    ensures Dups2(op, Bin(op, a, b), [], []) == Pass(Bin(op, a, b), 0)
  {
    var e := Bin(op, a, b);
    PairSlots(op, a, b);
    assert Dups2(op, e, [Left], [Left]) == Pass(e, 0) && Dups2(op, e, [Left], [Right]) == Pass(e, 0);
    assert Dups2(op, e, [Left], []) == Pass(e, 0);
    assert Dups2(op, e, [Right], [Left]) == Pass(e, 0) && Dups2(op, e, [Right], [Right]) == Pass(e, 0);
    assert Dups2(op, e, [Right], []) == Pass(e, 0);
  }

  lemma OrUnchanged()
    ensures Dups1(OrOp, Bin(OrOp, FOO, BAR), [], []) == Pass(Bin(OrOp, FOO, BAR), 0)
  {
    PairUnchanged(OrOp, FOO, BAR);
  }

  // The operands of the contradiction, by slot.
  lemma Slots()
    ensures [] + [Left] == [Left] && [] + [Right] == [Right]
    ensures [Right] + [Left] == [Right, Left] && [Right] + [Right] == [Right, Right]
    ensures At(AndOp, CONTRADICTION, [Left]) == Bin(OrOp, FOO, BAR)
    ensures At(AndOp, CONTRADICTION, [Right]) == Bin(AndOp, Not(FOO), Not(BAR))
    ensures At(AndOp, CONTRADICTION, [Right, Left]) == Not(FOO)
    ensures At(AndOp, CONTRADICTION, [Right, Right]) == Not(BAR)
    ensures Put(AndOp, CONTRADICTION, [Left], Bin(OrOp, FOO, BAR)) == CONTRADICTION
    ensures Put(AndOp, CONTRADICTION, [Right, Left], Not(FOO)) == CONTRADICTION
    ensures Put(AndOp, CONTRADICTION, [Right, Right], Not(BAR)) == CONTRADICTION
  {
    var e := CONTRADICTION;
    assert [Right, Left][1..] == [Left] && [Right, Right][1..] == [Right];
    PutSame(AndOp, e, [Left]);
    PutSame(AndOp, e, [Right, Left]);
    PutSame(AndOp, e, [Right, Right]);
  }

  lemma LeftSlotUnchanged()
    ensures Dups1(AndOp, CONTRADICTION, [Left], []) == Pass(CONTRADICTION, 0)
  {
    var e := CONTRADICTION;
    OrUnchanged();
    Slots();
    assert Dups1(AndOp, e, [Left], [Right, Left]) == Pass(e, 0);
    assert Dups1(AndOp, e, [Left], [Right, Right]) == Pass(e, 0);
    assert Dups1(AndOp, e, [Left], [Right]) == Pass(e, 0);
  }

  lemma MiddleSlotUnchanged()
    ensures Dups1(AndOp, CONTRADICTION, [Right, Left], []) == Pass(CONTRADICTION, 0)
  {
    var e := CONTRADICTION;
    Slots();
    assert Dups1(AndOp, e, [Right, Left], [Left]) == Pass(e, 0);
    assert Dups1(AndOp, e, [Right, Left], [Right, Right]) == Pass(e, 0);
    assert Dups1(AndOp, e, [Right, Left], [Right]) == Pass(e, 0);
  }

  lemma LastSlotUnchanged()
    ensures Dups1(AndOp, CONTRADICTION, [Right, Right], []) == Pass(CONTRADICTION, 0)
  {
    var e := CONTRADICTION;
    Slots();
    assert Dups1(AndOp, e, [Right, Right], [Left]) == Pass(e, 0);
    assert Dups1(AndOp, e, [Right, Right], [Right, Left]) == Pass(e, 0);
    assert Dups1(AndOp, e, [Right, Right], [Right]) == Pass(e, 0);
  }

  lemma FirstPassUnchanged()
    ensures Dups1(AndOp, CONTRADICTION, [], []) == Pass(CONTRADICTION, 0)
  {
    var e := CONTRADICTION;
    Slots();
    LeftSlotUnchanged();
    MiddleSlotUnchanged();
    LastSlotUnchanged();
    assert Dups1(AndOp, e, [Right], []) == Pass(e, 0);
  }

  lemma OrKept()
    ensures Inner2(Bin(OrOp, FOO, BAR)) == Pass(Bin(OrOp, FOO, BAR), 0)
  {
    PairKept(OrOp, FOO, BAR);
  }

  lemma NegatedOr()
    ensures Transform(Not(Bin(OrOp, FOO, BAR))) == Bin(AndOp, Not(FOO), Not(BAR))
  {
    assert Transform(Bin(AndOp, Not(FOO), Not(BAR))) == Bin(AndOp, Not(FOO), Not(BAR));
  }

  lemma NegatedEq(a: Symbol, b: Symbol)
    requires a != b
    ensures ExprEq(Not(Sym(a)), Not(Sym(a))) && !ExprEq(Not(Sym(a)), Not(Sym(b)))
    ensures forall c: Symbol :: !ExprEq(Not(Sym(a)), Sym(c)) && !ExprEq(Sym(c), Not(Sym(a)))
  {
    assert ExprEq(Sym(a), Sym(a)) && !ExprEq(Sym(a), Sym(b));
  }

  lemma ExtractOne(a: Symbol, b: Symbol)
    requires a != b
    ensures ExtractCommon(AndOp, Bin(AndOp, Not(Sym(a)), Not(Sym(b))), Not(Sym(a))).left == Not(Sym(b))
    ensures ExtractCommon(AndOp, Bin(AndOp, Not(Sym(b)), Not(Sym(a))), Not(Sym(a))).left == Not(Sym(b))
  {
    var na, nb, yes := Not(Sym(a)), Not(Sym(b)), Sym(SYMBOL_YES);
    NegatedEq(a, b); NegatedEq(b, a);
    assert ExtractEq(AndOp, None, na, na) == Extraction(Some(na), yes, yes);
    assert ExtractEq(AndOp, Some(na), nb, yes) == Extraction(Some(na), nb, yes);
    assert ExtractEq(AndOp, None, nb, na) == Extraction(None, nb, na);
    assert ExtractEq(AndOp, None, Bin(AndOp, na, nb), na) == Extraction(Some(na), Bin(AndOp, yes, nb), yes);
    assert ExtractEq(AndOp, None, Bin(AndOp, nb, na), na) == Extraction(Some(na), Bin(AndOp, nb, yes), yes);
    assert SYMBOL_YES.name[0] != SYMBOL_NO.name[0];
    assert EliminateYn(Bin(AndOp, yes, nb)) == nb;
  }

  lemma ExtractBoth(a: Symbol, b: Symbol)
    requires a != b
    ensures var n := Bin(AndOp, Not(Sym(a)), Not(Sym(b)));
      ExtractCommon(AndOp, n, n).left == Sym(SYMBOL_YES)
  {
    var na, nb, yes := Not(Sym(a)), Not(Sym(b)), Sym(SYMBOL_YES);
    var n := Bin(AndOp, na, nb);
    NegatedEq(a, b); NegatedEq(b, a);
    assert ExtractEq(AndOp, None, na, na) == Extraction(Some(na), yes, yes);
    assert ExtractEq(AndOp, Some(na), yes, nb) == Extraction(Some(na), yes, nb);
    assert ExtractEq(AndOp, None, na, n) == Extraction(Some(na), yes, Bin(AndOp, yes, nb));
    assert ExtractEq(AndOp, Some(na), nb, yes) == Extraction(Some(na), nb, yes);
    assert ExtractEq(AndOp, Some(na), nb, nb) == Extraction(Some(Bin(AndOp, na, nb)), yes, yes);
    assert ExtractEq(AndOp, Some(na), nb, Bin(AndOp, yes, nb)).left == yes;
  }

  lemma NegatedOrFound()
    ensures !Contradicts(AndOp, Bin(OrOp, FOO, BAR), Not(FOO))
    ensures !Contradicts(AndOp, Bin(OrOp, FOO, BAR), Not(BAR))
    ensures Contradicts(AndOp, Bin(OrOp, FOO, BAR), Bin(AndOp, Not(FOO), Not(BAR)))
  {
    OrKept();
    NegatedOr();
    ExtractOne(FOO.sym, BAR.sym);
    ExtractOne(BAR.sym, FOO.sym);
    ExtractBoth(FOO.sym, BAR.sym);
  }

  // The operand FOO || BAR against the chain !FOO && !BAR.
  lemma SecondPassFires()
    ensures Slot(AndOp, CONTRADICTION, [Left]) && Slot(AndOp, CONTRADICTION, [Right])
    ensures Dups2(AndOp, CONTRADICTION, [Left], [Right]).tree
      == Bin(AndOp, Sym(SYMBOL_NO), Bin(AndOp, Not(FOO), Not(BAR)))
  {
    var e := CONTRADICTION;
    assert [Right] + [Left] == [Right, Left] && [Right] + [Right] == [Right, Right];
    assert [Right, Left][1..] == [Left] && [Right, Right][1..] == [Right];
    NothingFound([Right, Left]);
    NothingFound([Right, Right]);
    assert Dups2Below(AndOp, e, [Left], [Right]) == Pass(e, 0);
    assert Dups2Operand(AndOp, e, [Left], [Right]).tree == Put(AndOp, e, [Left], Sym(SYMBOL_NO)) by {
      OrKept();
      NegatedOr();
      NegatedOrFound();
    }
  }

  lemma NothingFound(p: Path)
    requires p == [Right, Left] || p == [Right, Right]
    ensures Slot(AndOp, CONTRADICTION, p) && Dups2(AndOp, CONTRADICTION, [Left], p) == Pass(CONTRADICTION, 0)
  {
    var e := CONTRADICTION;
    var q := p[1..];
    assert q == [Left] || q == [Right];
    var found := if q == [Left] then Not(FOO) else Not(BAR);
    assert At(AndOp, e.right, q) == found;
    assert At(AndOp, e, p) == found && At(AndOp, e, [Left]) == e.left;
    assert Dups2Below(AndOp, e, [Left], p) == Pass(e, 0);
    PutSame(AndOp, e, [Left]);
    assert Dups2Operand(AndOp, e, [Left], p) == Pass(e, 0) by {
      OrKept();
      NegatedOr();
      NegatedOrFound();
    }
  }

  lemma AllModLegal()
    ensures Legal(ALL_MOD)
  {
    forall s: Symbol
      ensures LegalValue(s, ALL_MOD(s))
    {
      assert LegalValue(s, SOME_VALUATION(s));
    }
  }

  lemma AllModValue()
    ensures Eval(CONTRADICTION, ALL_MOD) == MOD
  {
    assert Eval(FOO, ALL_MOD) == MOD && Eval(BAR, ALL_MOD) == MOD;
  }

  // What the second pass makes of the left operand.
  const LEFT_GONE := Bin(AndOp, Sym(SYMBOL_NO), Bin(AndOp, Not(FOO), Not(BAR)))

  lemma SecondPassLeft()
    ensures Slot(AndOp, CONTRADICTION, [Left]) && Dups2(AndOp, CONTRADICTION, [Left], []).tree == LEFT_GONE
  {
    var e := CONTRADICTION;
    SecondPassFires();
    assert [] + [Left] == [Left] && [] + [Right] == [Right];
    assert Dups2(AndOp, e, [Left], [Left]) == Pass(e, 0);
    assert Dups2Below(AndOp, e, [Left], []).tree == LEFT_GONE;
    assert Dups2(AndOp, e, [Left], []).tree == Dups2Operand(AndOp, LEFT_GONE, [Left], []).tree;
    assert At(AndOp, LEFT_GONE, [Left]) == Sym(SYMBOL_NO);
  }

  lemma SecondPassBoth(left: Expr)
    requires Slot(AndOp, CONTRADICTION, [Left]) && left == Dups2(AndOp, CONTRADICTION, [Left], []).tree
    requires Slot(AndOp, left, [Right])
    ensures Dups2(AndOp, CONTRADICTION, [], []).tree == Dups2(AndOp, left, [Right], []).tree
  {
    assert [] + [Left] == [Left] && [] + [Right] == [Right];
  }

  lemma LeftGoneValue(v: Valuation)
    requires Legal(v)
    ensures Slot(AndOp, LEFT_GONE, [Right]) && Eval(LEFT_GONE, v) == NO
  {
    ConstantValues(v);
  }

  // One round of the loop makes the contradiction n.
  lemma RoundGone(v: Valuation)
    requires Legal(v)
    ensures Eval(Round(CONTRADICTION).tree, v) == NO
  {
    FirstPassUnchanged();
    SecondPassLeft();
    LeftGoneValue(v);
    SecondPassBoth(LEFT_GONE);
    Dups2Correct(AndOp, LEFT_GONE, [Right], [], v);
  }

  // With FOO = BAR = m the expression is m, and expr_eliminate_dups makes it n.
  lemma SecondPassNeedsTwoValues()
    ensures Legal(ALL_MOD)
    ensures Eval(CONTRADICTION, ALL_MOD) == MOD && Eval(Simplified(CONTRADICTION), ALL_MOD) == NO
  {
    var round := Round(CONTRADICTION);
    AllModLegal();
    AllModValue();
    RoundGone(ALL_MOD);
    EliminateYnValue(round.tree, ALL_MOD);
    SimplifiedSettles(EliminateYn(round.tree), ALL_MOD);
  }
}
