/**
  What duplicate elimination leaves: no chain of the result has two equal operands, two operands
  that can be joined, or an operand that the second pass can strike out.
 */
module KconfDupsExact {
  import opened KconfExpr
  import opened KconfEq
  import opened KconfEqExact
  import opened KconfSlots
  import opened KconfTransform
  import opened KconfDups

  // ----- The rules for two operands -----

  // The two operands, in either order.
  predicate Both(e1: Expr, e2: Expr, x: Expr, y: Expr) {
    (e1 == x && e2 == y) || (e1 == y && e2 == x)
  }

  // The pairs that || joins, for a symbol s.
  predicate OrRule(s: Symbol, e1: Expr, e2: Expr) {
    || (s.Named? && s.kind == BooleanType && Both(e1, e2, Sym(s), Not(Sym(s))))
    || (s.Named? && s.kind == TristateType &&
        (|| Both(e1, e2, Equal(s, Const("y")), Equal(s, Const("m")))
         || Both(e1, e2, Equal(s, Const("y")), Equal(s, Const("n")))
         || Both(e1, e2, Equal(s, Const("m")), Equal(s, Const("n")))))
  }

  // The pairs that && joins, for a symbol s; b and c are the constants it is compared with.
  predicate AndRule(s: Symbol, b: string, c: string, e1: Expr, e2: Expr) {
    || (s.Named? && (s.kind == BooleanType || s.kind == TristateType) &&
        (|| Both(e1, e2, Sym(s), Equal(s, Const("y")))
         || Both(e1, e2, Sym(s), Unequal(s, Const("n")))
         || Both(e1, e2, Sym(s), Unequal(s, Const("m")))))
    || (s.Named? && s.kind == TristateType &&
        (|| Both(e1, e2, Equal(s, Const(b)), Unequal(s, Const(c)))
         || Both(e1, e2, Unequal(s, Const("y")), Unequal(s, Const("n")))
         || Both(e1, e2, Unequal(s, Const("y")), Unequal(s, Const("m")))
         || Both(e1, e2, Unequal(s, Const("m")), Unequal(s, Const("n")))))
  }

  ghost predicate Rule(op: Op, e1: Expr, e2: Expr) {
    if op == OrOp then exists s: Symbol :: OrRule(s, e1, e2)
    else exists s: Symbol, b: string, c: string :: AndRule(s, b, c, e1, e2)
  }

  // Two operands are joined exactly if they are equal or a rule speaks of them.
  lemma JoinTable(op: Op, e1: Expr, e2: Expr)
    ensures Join(op, e1, e2).Some? <==> ExprEq(e1, e2) || Rule(op, e1, e2)
  {
    if op == OrOp {
      OrTable(e1, e2);
    } else {
      AndTable(e1, e2);
    }
  }

  lemma OrTable(e1: Expr, e2: Expr)
    ensures JoinOr(e1, e2).Some? <==> ExprEq(e1, e2) || exists s: Symbol :: OrRule(s, e1, e2)
  {
    if !ExprEq(e1, e2) && JoinOr(e1, e2).Some? {
      assert OrRule(SharedSymbol(e1, e2).value, e1, e2);
    }
    forall s: Symbol | OrRule(s, e1, e2) ensures JoinOr(e1, e2).Some? {
      OrRuleJoins(s, e1, e2);
    }
  }

  lemma OrRuleJoins(s: Symbol, e1: Expr, e2: Expr)
    requires OrRule(s, e1, e2)
    ensures JoinOr(e1, e2).Some?
  {
    assert SharedSymbol(e1, e2) == Some(s);
  }

  lemma AndTable(e1: Expr, e2: Expr)
    ensures JoinAnd(e1, e2).Some? <==> ExprEq(e1, e2) || exists s: Symbol, b: string, c: string :: AndRule(s, b, c, e1, e2)
  {
    if !ExprEq(e1, e2) && JoinAnd(e1, e2).Some? {
      AndJoinsByRule(SharedSymbol(e1, e2).value, e1, e2);
    }
    forall s: Symbol, b: string, c: string | AndRule(s, b, c, e1, e2) ensures JoinAnd(e1, e2).Some? {
      AndRuleJoins(s, b, c, e1, e2);
    }
  }

  lemma AndRuleJoins(s: Symbol, b: string, c: string, e1: Expr, e2: Expr)
    requires AndRule(s, b, c, e1, e2)
    ensures JoinAnd(e1, e2).Some?
  {
    assert SharedSymbol(e1, e2) == Some(s);
  }

  lemma AndJoinsByRule(s: Symbol, e1: Expr, e2: Expr)
    requires JoinAnd(e1, e2).Some? && !ExprEq(e1, e2) && SharedSymbol(e1, e2) == Some(s)
    ensures exists b: string, c: string :: AndRule(s, b, c, e1, e2)
  {
    if e1.Equal? && e2.Unequal? {
      assert AndRule(s, e1.rhs.name, e2.rhs.name, e1, e2);
    } else if e1.Unequal? && e2.Equal? {
      assert AndRule(s, e2.rhs.name, e1.rhs.name, e1, e2);
    } else {
      assert AndRule(s, "y", "n", e1, e2);
    }
  }

  // Equal operands are joined.
  lemma JoinSame(op: Op, e: Expr)
    ensures Join(op, e, e).Some?
  {
    ExprEqReflexive(e);
  }

  // ----- A pass that counts nothing has seen every pair -----

  lemma Dups1Unchanged(op: Op, root: Expr, p1: Path, p2: Path)
    requires Slot(op, root, p1) && Slot(op, root, p2) && Dups1(op, root, p1, p2).count == 0
    ensures Dups1(op, root, p1, p2).tree == root
  {
    Dups1Correct(op, root, p1, p2, SOME_VALUATION);
  }

  lemma {:induction false} SlotConcat(op: Op, e: Expr, p: Path, q: Path)
    requires Slot(op, e, p)
    ensures Slot(op, e, p + q) <==> Slot(op, At(op, e, p), q)
    ensures Slot(op, e, p + q) ==> At(op, e, p + q) == At(op, At(op, e, p), q)
  {
    if p == [] {
      assert p + q == q;
    } else {
      assert (p + q)[1..] == p[1..] + q;
      SlotConcat(op, Child(e, p[0]), p[1..], q);
    }
  }

  // One step of a path from slot p.
  lemma StepInto(p: Path, q: Path)
    requires q != []
    ensures p + q == p + [q[0]] + q[1..]
  {
  }

  // The steps of the first pass on a chain, when nothing is counted.
  lemma Dups1Steps(op: Op, root: Expr, p1: Path, p2: Path)
    requires Slot(op, root, p1) && Slot(op, root, p2) && Dups1(op, root, p1, p2).count == 0
    ensures Is(op, At(op, root, p1)) ==>
      && Slot(op, root, p1 + [Left]) && Dups1(op, root, p1 + [Left], p2).count == 0
      && Slot(op, root, p1 + [Right]) && Dups1(op, root, p1 + [Right], p2).count == 0
    ensures !Is(op, At(op, root, p1)) && Is(op, At(op, root, p2)) ==>
      && Slot(op, root, p2 + [Left]) && Dups1(op, root, p1, p2 + [Left]).count == 0
      && Slot(op, root, p2 + [Right]) && Dups1(op, root, p1, p2 + [Right]).count == 0
    ensures Operand(op, root, p1) && Operand(op, root, p2) && p1 != p2 ==>
      Inner1(At(op, root, p1)).count == 0 && Join(op, At(op, root, p1), At(op, root, p2)).None?
  {
    if Is(op, At(op, root, p1)) {
      AtChild(op, root, p1, Left); AtChild(op, root, p1, Right);
      Dups1Unchanged(op, root, p1 + [Left], p2);
    } else if Is(op, At(op, root, p2)) {
      AtChild(op, root, p2, Left); AtChild(op, root, p2, Right);
      Dups1Unchanged(op, root, p1, p2 + [Left]);
    } else if p1 != p2 {
      var e1 := At(op, root, p1);
      if e1.Bin? && Inner1(e1).count == 0 { Dups1Unchanged(e1.op, e1, [], []); }
    }
  }

  // Nothing was counted below two slots: no two operands there can be joined.
  lemma {:induction false} Dups1Zero(op: Op, root: Expr, p1: Path, p2: Path, q1: Path, q2: Path)
    requires Slot(op, root, p1) && Slot(op, root, p2) && Dups1(op, root, p1, p2).count == 0
    requires Operand(op, root, p1 + q1) && Operand(op, root, p2 + q2) && p1 + q1 != p2 + q2
    ensures Inner1(At(op, root, p1 + q1)).count == 0
    ensures Join(op, At(op, root, p1 + q1), At(op, root, p2 + q2)).None?
    decreases |q1| + |q2|
  {
    Dups1Steps(op, root, p1, p2);
    SlotConcat(op, root, p1, q1);
    SlotConcat(op, root, p2, q2);
    if Is(op, At(op, root, p1)) {
      StepInto(p1, q1);
      Dups1Zero(op, root, p1 + [q1[0]], p2, q1[1..], q2);
    } else if Is(op, At(op, root, p2)) {
      StepInto(p2, q2);
      Dups1Zero(op, root, p1, p2 + [q2[0]], q1, q2[1..]);
    } else {
      assert p1 + q1 == p1 && p2 + q2 == p2;
    }
  }

  // ----- What the result looks like -----

  // c is e, or lies below the chains of e.
  ghost predicate Within(c: Expr, e: Expr) {
    c == e || (e.Bin? && (Within(c, e.left) || Within(c, e.right)))
  }

  // Two different operands of the chain c.
  predicate TwoOperands(c: Expr, p: Path, q: Path) {
    c.Bin? && Operand(c.op, c, p) && Operand(c.op, c, q) && p != q
  }

  // Every expression has an operand slot.
  lemma {:induction false} SomeOperand(op: Op, e: Expr) returns (p: Path)
    ensures Operand(op, e, p)
  {
    p := [];
    if Is(op, e) {
      var q := SomeOperand(op, e.left);
      p := [Left] + q;
    }
  }

  // A slot other than the whole chain is not the only one.
  lemma OtherOperand(op: Op, e: Expr, p: Path) returns (q: Path)
    requires Slot(op, e, p) && p != []
    ensures Operand(op, e, q) && q != p
  {
    var d := if p[0] == Left then Right else Left;
    var r := SomeOperand(op, Child(e, d));
    q := [d] + r;
    assert q[0] != p[0];
  }

  // If the first pass over a tree counts nothing, no chain within a slot of it has two operands
  // that can be joined.
  lemma {:induction false} NothingToJoin(op: Op, root: Expr, r: Path, c: Expr, p: Path, q: Path)
    requires Is(op, root) && Dups1(op, root, [], []).count == 0
    requires Slot(op, root, r) && Within(c, At(op, root, r)) && TwoOperands(c, p, q)
    ensures Join(c.op, At(c.op, c, p), At(c.op, c, q)).None?
    decreases Size(At(op, root, r)), !Is(op, At(op, root, r))
  {
    var e := At(op, root, r);
    if Is(op, e) && c == e {
      SlotConcat(op, root, r, p);
      SlotConcat(op, root, r, q);
      assert [] + (r + p) == r + p && [] + (r + q) == r + q;
      assert (r + p)[|r|..] == p && (r + q)[|r|..] == q;
      Dups1Zero(op, root, [], [], r + p, r + q);
    } else if Is(op, e) {
      var d := if Within(c, e.left) then Left else Right;
      AtChild(op, root, r, d);
      NothingToJoin(op, root, r + [d], c, p, q);
    } else {
      var s := OtherOperand(op, root, r);
      assert [] + r == r && [] + s == s;
      Dups1Zero(op, root, [], [], r, s);
      NothingToJoin(e.op, e, [], c, p, q);
    }
  }

  // The result of expr_eliminate_dups has no chain, at any depth, with two equal operands or two
  // operands that a rule joins.
  lemma SimplifiedIrreducible(e: Expr, c: Expr, p: Path, q: Path)
    requires Within(c, Simplified(e)) && TwoOperands(c, p, q)
    ensures var x, y := At(c.op, c, p), At(c.op, c, q);
      && x != y
      && !ExprEq(x, y)
      && !Rule(c.op, x, y)
  {
    var s := Simplified(e);
    SimplifiedSettles(e, SOME_VALUATION);
    assert Dups1(s.op, s, [], []).count == 0;
    NothingToJoin(s.op, s, [], c, p, q);
    var x, y := At(c.op, c, p), At(c.op, c, q);
    JoinTable(c.op, x, y);
    if x == y { ExprEqReflexive(x); }
  }

  // ----- The second pass -----

  lemma Dups2Unchanged(op: Op, root: Expr, p1: Path, p2: Path)
    requires Slot(op, root, p1) && Slot(op, root, p2) && Dups2(op, root, p1, p2).count == 0
    ensures Dups2(op, root, p1, p2).tree == root
  {
    Dups2Correct(op, root, p1, p2, SOME_VALUATION);
  }

  // The steps of the second pass, when nothing is counted.
  lemma Dups2Steps(op: Op, root: Expr, p1: Path, p2: Path)
    requires Slot(op, root, p1) && Slot(op, root, p2) && Dups2(op, root, p1, p2).count == 0
    ensures Is(op, At(op, root, p1)) ==>
      && Slot(op, root, p1 + [Left]) && Dups2(op, root, p1 + [Left], p2).count == 0
      && Slot(op, root, p1 + [Right]) && Dups2(op, root, p1 + [Right], p2).count == 0
    ensures !Is(op, At(op, root, p1)) ==> Dups2Below(op, root, p1, p2).count == 0
    ensures !Is(op, At(op, root, p1)) && p1 != p2 ==> Dups2Operand(op, root, p1, p2).count == 0
  {
    if Is(op, At(op, root, p1)) {
      AtChild(op, root, p1, Left); AtChild(op, root, p1, Right);
      Dups2Unchanged(op, root, p1 + [Left], p2);
    } else {
      Dups2BelowCorrect(op, root, p1, p2, SOME_VALUATION);
    }
  }

  lemma Dups2BelowSteps(op: Op, root: Expr, p1: Path, p2: Path)
    requires Operand(op, root, p1) && Slot(op, root, p2) && Dups2Below(op, root, p1, p2).count == 0
    ensures Is(op, At(op, root, p2)) ==>
      && Slot(op, root, p2 + [Left]) && Dups2(op, root, p1, p2 + [Left]).count == 0
      && Slot(op, root, p2 + [Right]) && Dups2(op, root, p1, p2 + [Right]).count == 0
  {
    if Is(op, At(op, root, p2)) {
      AtChild(op, root, p2, Left); AtChild(op, root, p2, Right);
      Dups2Unchanged(op, root, p1, p2 + [Left]);
    }
  }

  lemma Dups2OperandSteps(op: Op, root: Expr, p1: Path, p2: Path)
    requires Operand(op, root, p1) && Slot(op, root, p2) && p1 != p2 && Dups2Operand(op, root, p1, p2).count == 0
    ensures Inner2(At(op, root, p1)).count == 0
    ensures At(op, root, p1).Bin? ==> !Contradicts(op, At(op, root, p1), At(op, root, p2))
  {
    var e1 := At(op, root, p1);
    if e1.Bin? {
      Dups2Unchanged(e1.op, e1, [], []);
      PutSame(op, root, p1);
    }
  }

  // Nothing was counted below two slots: no operand there contradicts another slot.
  lemma {:induction false} Dups2Zero(op: Op, root: Expr, p1: Path, p2: Path, q1: Path, q2: Path)
    requires Slot(op, root, p1) && Slot(op, root, p2) && Dups2(op, root, p1, p2).count == 0
    requires Operand(op, root, p1 + q1) && Slot(op, root, p2 + q2) && p1 + q1 != p2 + q2
    ensures Inner2(At(op, root, p1 + q1)).count == 0
    ensures At(op, root, p1 + q1).Bin? ==> !Contradicts(op, At(op, root, p1 + q1), At(op, root, p2 + q2))
    decreases |q1| + |q2|
  {
    Dups2Steps(op, root, p1, p2);
    SlotConcat(op, root, p1, q1);
    SlotConcat(op, root, p2, q2);
    if Is(op, At(op, root, p1)) {
      StepInto(p1, q1);
      Dups2Zero(op, root, p1 + [q1[0]], p2, q1[1..], q2);
    } else if q2 != [] {
      Dups2BelowSteps(op, root, p1, p2);
      StepInto(p2, q2);
      Dups2Zero(op, root, p1, p2 + [q2[0]], q1, q2[1..]);
    } else {
      assert p1 + q1 == p1 && p2 + q2 == p2;
      Dups2OperandSteps(op, root, p1, p2);
    }
  }

  // If the second pass over a tree counts nothing, no operand of a chain within it contradicts
  // another slot of that chain.
  lemma {:induction false} NothingToStrike(op: Op, root: Expr, r: Path, c: Expr, p: Path, q: Path)
    requires Is(op, root) && Dups2(op, root, [], []).count == 0
    requires Slot(op, root, r) && Within(c, At(op, root, r))
    requires c.Bin? && Operand(c.op, c, p) && Slot(c.op, c, q) && p != q
    ensures At(c.op, c, p).Bin? ==> !Contradicts(c.op, At(c.op, c, p), At(c.op, c, q))
    decreases Size(At(op, root, r)), !Is(op, At(op, root, r))
  {
    var e := At(op, root, r);
    if Is(op, e) && c == e {
      SlotConcat(op, root, r, p);
      SlotConcat(op, root, r, q);
      assert [] + (r + p) == r + p && [] + (r + q) == r + q;
      assert (r + p)[|r|..] == p && (r + q)[|r|..] == q;
      Dups2Zero(op, root, [], [], r + p, r + q);
    } else if Is(op, e) {
      var d := if Within(c, e.left) then Left else Right;
      AtChild(op, root, r, d);
      NothingToStrike(op, root, r + [d], c, p, q);
    } else {
      var s := OtherOperand(op, root, r);
      assert [] + r == r && [] + s == s;
      Dups2Zero(op, root, [], [], r, s);
      NothingToStrike(e.op, e, [], c, p, q);
    }
  }

  // Nor does the result have an operand that is itself a chain, all of whose negation is found in
  // another slot of its chain.
  lemma SimplifiedUnstruck(e: Expr, c: Expr, p: Path, q: Path)
    requires Within(c, Simplified(e)) && c.Bin? && Operand(c.op, c, p) && Slot(c.op, c, q) && p != q
    requires At(c.op, c, p).Bin?
    ensures var x, y := Transform(Not(At(c.op, c, p))), At(c.op, c, q);
      && ExtractCommon(c.op, x, y).left != Unit(c.op)
      && (Tidy(x) && Tidy(y) && !IsYN(x) && !IsYN(y) ==> !(OperandsOf(c.op, x) <= OperandsOf(c.op, y)))
  {
    var s := Simplified(e);
    SimplifiedSettles(e, SOME_VALUATION);
    assert Dups2(s.op, s, [], []).count == 0 by { Dups1Unchanged(s.op, s, [], []); }
    NothingToStrike(s.op, s, [], c, p, q);
    var x, y := Transform(Not(At(c.op, c, p))), At(c.op, c, q);
    if Tidy(x) && Tidy(y) && !IsYN(x) && !IsYN(y) { ExtractCommonExact(c.op, x, y); }
  }
}
