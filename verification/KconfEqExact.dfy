/**
  What structural equality and cancellation find (expr_eq, expr_eliminate_eq and
  expr_extract_eq in expr.c), beside being sound.
 */
module KconfEqExact {
  import opened KconfExpr
  import opened KconfEq
  import opened KconfSlots

  // ----- An expression is equal to itself -----

  // Every operand of the chain is y or n.
  predicate AllYN(op: Op, e: Expr) {
    if Is(op, e) then AllYN(op, e.left) && AllYN(op, e.right) else IsYN(e)
  }

  // The chain once everything has been cancelled.
  function Blank(op: Op, e: Expr): (r: Expr)
    ensures AllYN(op, r) && (Is(op, e) <==> Is(op, r))
  {
    if Is(op, e) then Bin(op, Blank(op, e.left), Blank(op, e.right))
    else if IsYN(e) then e
    else Unit(op)
  }

  // The operands to the left of slot p are y or n.
  predicate BlankBefore(op: Op, e: Expr, p: Path)
    requires Slot(op, e, p)
  {
    p != [] ==> (p[0] == Right ==> AllYN(op, e.left)) && BlankBefore(op, Child(e, p[0]), p[1..])
  }

  // y and n are cancelled with nothing.
  lemma {:induction false} CancelYN(op: Op, x: Expr, e: Expr)
    requires !Is(op, x) && (IsYN(x) || AllYN(op, e))
    ensures CancelOp(op, x, e) == (x, e)
  {
    if Is(op, e) {
      CancelYN(op, x, e.left);
      CancelYN(op, x, e.right);
    }
  }

  // An operand is cancelled with its own slot, if everything before that is y or n.
  lemma {:induction false} CancelOwn(op: Op, e: Expr, p: Path)
    requires Operand(op, e, p) && BlankBefore(op, e, p) && ExprEq(At(op, e, p), At(op, e, p))
    ensures var x := At(op, e, p); CancelOp(op, x, e) == (Blank(op, x), Put(op, e, p, Blank(op, x)))
  {
    var x := At(op, e, p);
    if IsYN(x) {
      CancelYN(op, x, e);
      PutSame(op, e, p);
    } else if p != [] {
      if p[0] == Left {
        CancelOwn(op, e.left, p[1..]);
        CancelYN(op, Unit(op), e.right);
      } else {
        CancelYN(op, x, e.left);
        CancelOwn(op, e.right, p[1..]);
      }
    }
  }

  // A node of the chain at slot p: blank its left operand, move on to the right one.
  lemma {:induction false} BlankLeft(op: Op, e: Expr, p: Path, l: Expr)
    requires Slot(op, e, p) && Is(op, At(op, e, p)) && BlankBefore(op, e, p) && AllYN(op, l)
    ensures Slot(op, e, p + [Left]) && At(op, e, p + [Left]) == At(op, e, p).left && BlankBefore(op, e, p + [Left])
    ensures var e', x := Put(op, e, p + [Left], l), At(op, e, p);
      && e' == Put(op, e, p, Bin(op, l, x.right))
      && Slot(op, e', p + [Right]) && At(op, e', p + [Right]) == x.right && BlankBefore(op, e', p + [Right])
  {
    assert forall d: Dir :: p != [] ==> (p + [d])[1..] == p[1..] + [d];
    if p != [] {
      BlankLeft(op, Child(e, p[0]), p[1..], l);
    } else {
      assert forall d: Dir :: (p + [d])[1..] == [];
    }
  }

  lemma {:induction false} PutRight(op: Op, e: Expr, p: Path, x: Expr, r: Expr)
    requires Slot(op, e, p) && Is(op, x)
    ensures var e' := Put(op, e, p, x);
      Slot(op, e', p + [Right]) && Put(op, e', p + [Right], r) == Put(op, e, p, Bin(op, x.left, r))
  {
    if p == [] {
      assert (p + [Right])[1..] == [];
    } else {
      assert (p + [Right])[1..] == p[1..] + [Right];
      PutRight(op, Child(e, p[0]), p[1..], x, r);
    }
  }

  // Cancelling a part of a chain against the whole chain blanks that part on both sides.
  lemma {:induction false} CancelPart(op: Op, e: Expr, p: Path)
    requires Slot(op, e, p) && BlankBefore(op, e, p)
    ensures var x := At(op, e, p); CancelOp(op, x, e) == (Blank(op, x), Put(op, e, p, Blank(op, x)))
    decreases Size(At(op, e, p)), if Is(op, At(op, e, p)) then 1 else 3
  {
    var x := At(op, e, p);
    if Is(op, x) {
      var l, r := Blank(op, x.left), Blank(op, x.right);
      BlankLeft(op, e, p, l);
      CancelPart(op, e, p + [Left]);
      var e' := Put(op, e, p, Bin(op, l, x.right));
      CancelPart(op, e', p + [Right]);
      PutRight(op, e, p, Bin(op, l, x.right), r);
    } else {
      ExprEqReflexive(x);
      CancelOwn(op, e, p);
    }
  }

  lemma {:induction false} BlankFolds(op: Op, e: Expr)
    requires AllYN(op, e)
    ensures IsYN(EliminateYn(e))
  {
    if Is(op, e) {
      BlankFolds(op, e.left);
      BlankFolds(op, e.right);
    }
  }

  // expr_eq accepts every expression against itself.
  lemma {:induction false} ExprEqReflexive(e: Expr)
    ensures ExprEq(e, e)
    decreases Size(e), 2
  {
    match e
    case Not(a) => ExprEqReflexive(a);
    case Bin(op, l, r) =>
      CancelPart(op, e, []);
      BlankFolds(op, Blank(op, e));
    case _ =>
  }

  // ----- Equality up to reordering and regrouping of operands -----

  // An expression in which only the operands of each chain matter, not their order or grouping.
  datatype Canon =
    | CanonSym(sym: Symbol)
    | CanonEqual(lhs: Symbol, rhs: Symbol)
    | CanonUnequal(lhs: Symbol, rhs: Symbol)
    | CanonNot(arg: Canon)
    | CanonChain(op: Op, operands: multiset<Canon>)

  ghost function CanonOf(e: Expr): Canon
    decreases e, 1
  {
    match e
    case Sym(s) => CanonSym(s)
    case Equal(a, b) => CanonEqual(a, b)
    case Unequal(a, b) => CanonUnequal(a, b)
    case Not(a) => CanonNot(CanonOf(a))
    case Bin(op, _, _) => CanonChain(op, OperandsOf(op, e))
  }

  // The operands of a chain, apart from neutral constants left by cancelling.
  ghost function OperandsOf(op: Op, e: Expr): multiset<Canon>
    decreases e, if Is(op, e) then 0 else 2
  {
    if Is(op, e) then OperandsOf(op, e.left) + OperandsOf(op, e.right)
    else if e == Unit(op) then multiset{}
    else multiset{CanonOf(e)}
  }

  // No operand of a chain is y or n, at any depth.
  predicate Tidy(e: Expr) {
    match e
    case Not(a) => Tidy(a)
    case Bin(_, l, r) => !IsYN(l) && !IsYN(r) && Tidy(l) && Tidy(r)
    case _ => true
  }

  // A tidy chain some of whose operands have been cancelled.
  predicate Cancelled(op: Op, e: Expr) {
    if Is(op, e) then Cancelled(op, e.left) && Cancelled(op, e.right)
    else e == Unit(op) || (Tidy(e) && !IsYN(e))
  }

  lemma {:induction false} TidyIsCancelled(op: Op, e: Expr)
    requires Tidy(e) && !IsYN(e)
    ensures Cancelled(op, e)
  {
    if Is(op, e) {
      TidyIsCancelled(op, e.left);
      TidyIsCancelled(op, e.right);
    }
  }

  // Each side keeps the operands that the other side does not have.
  ghost predicate Differ(op: Op, e1: Expr, e2: Expr, r1: Expr, r2: Expr) {
    && Cancelled(op, r1) && OperandsOf(op, r1) == OperandsOf(op, e1) - OperandsOf(op, e2)
    && Cancelled(op, r2) && OperandsOf(op, r2) == OperandsOf(op, e2) - OperandsOf(op, e1)
  }

  // Taking away one part after the other is taking away both.
  lemma MinusTwice(a: multiset<Canon>, l: multiset<Canon>, r: multiset<Canon>)
    ensures a - l - r == a - (l + r)
    ensures (l - a) + (r - (a - l)) == l + r - a
  {
  }

  lemma ChainOperands(op: Op, l: Expr, r: Expr)
    ensures OperandsOf(op, Bin(op, l, r)) == OperandsOf(op, l) + OperandsOf(op, r)
    ensures Cancelled(op, Bin(op, l, r)) <==> Cancelled(op, l) && Cancelled(op, r)
  {
  }

  lemma DifferTwice(op: Op, l: Expr, r: Expr, e: Expr, l': Expr, e': Expr, r': Expr, e'': Expr)
    requires Differ(op, l, e, l', e') && Differ(op, r, e', r', e'')
    ensures Differ(op, Bin(op, l, r), e, Bin(op, l', r'), e'')
  {
    ChainOperands(op, l, r);
    ChainOperands(op, l', r');
    MinusTwice(OperandsOf(op, e), OperandsOf(op, l), OperandsOf(op, r));
  }

  lemma DifferSwap(op: Op, e1: Expr, e2: Expr, r1: Expr, r2: Expr)
    ensures Differ(op, e1, e2, r1, r2) <==> Differ(op, e2, e1, r2, r1)
  {
  }

  // The same with the parts on the other side.
  lemma DifferTwiceRight(op: Op, e: Expr, l: Expr, r: Expr, e': Expr, l': Expr, e'': Expr, r': Expr)
    requires Differ(op, e, l, e', l') && Differ(op, e', r, e'', r')
    ensures Differ(op, e, Bin(op, l, r), e'', Bin(op, l', r'))
  {
    DifferSwap(op, e, l, e', l');
    DifferSwap(op, e', r, e'', r');
    DifferTwice(op, l, r, e, l', e', r', e'');
    DifferSwap(op, e, Bin(op, l, r), e'', Bin(op, l', r'));
  }

  lemma CancelLeft(op: Op, e1: Expr, e2: Expr)
    requires Is(op, e1)
    ensures var l := CancelOp(op, e1.left, e2);
      var r := CancelOp(op, e1.right, l.1);
      CancelOp(op, e1, e2) == (Bin(op, l.0, r.0), r.1)
  {
  }

  lemma CancelRight(op: Op, e1: Expr, e2: Expr)
    requires !Is(op, e1) && Is(op, e2)
    ensures var l := CancelOp(op, e1, e2.left);
      var r := CancelOp(op, l.0, e2.right);
      CancelOp(op, e1, e2) == (r.0, Bin(op, l.1, r.1))
  {
  }

  // Cancelling leaves on each side the operands that the other side does not have.
  lemma {:induction false} CancelExact(op: Op, e1: Expr, e2: Expr)
    requires Cancelled(op, e1) && Cancelled(op, e2)
    ensures Differ(op, e1, e2, CancelOp(op, e1, e2).0, CancelOp(op, e1, e2).1)
    decreases Size(e1) + Size(e2), if Is(op, e1) || Is(op, e2) then 0 else 3
  {
    if Is(op, e1) {
      var l := CancelOp(op, e1.left, e2);
      var r := CancelOp(op, e1.right, l.1);
      CancelExact(op, e1.left, e2);
      CancelExact(op, e1.right, l.1);
      CancelLeft(op, e1, e2);
      DifferTwice(op, e1.left, e1.right, e2, l.0, l.1, r.0, r.1);
    } else if Is(op, e2) {
      var l := CancelOp(op, e1, e2.left);
      var r := CancelOp(op, l.0, e2.right);
      CancelExact(op, e1, e2.left);
      CancelExact(op, l.0, e2.right);
      CancelRight(op, e1, e2);
      DifferTwiceRight(op, e1, e2.left, e2.right, l.0, l.1, r.0, r.1);
    } else {
      if !IsYN(e1) && !IsYN(e2) {
        ExprEqExact(e1, e2);
      }
      CancelOperands(op, e1, e2);
    }
  }

  // Two operands, given what expr_eq says of them.
  lemma CancelOperands(op: Op, e1: Expr, e2: Expr)
    requires Cancelled(op, e1) && Cancelled(op, e2) && !Is(op, e1) && !Is(op, e2)
    requires !IsYN(e1) && !IsYN(e2) ==> (ExprEq(e1, e2) <==> CanonOf(e1) == CanonOf(e2))
    ensures Differ(op, e1, e2, CancelOp(op, e1, e2).0, CancelOp(op, e1, e2).1)
  {
    if IsYN(e1) || IsYN(e2) {
      CancelYN(op, e1, e2);
    } else {
      CancelTwo(op, e1, e2);
      CancelPair(op, e1, e2);
    }
  }

  lemma CancelPair(op: Op, e1: Expr, e2: Expr)
    requires Cancelled(op, e1) && Cancelled(op, e2) && !Is(op, e1) && !Is(op, e2) && !IsYN(e1) && !IsYN(e2)
    ensures if CanonOf(e1) == CanonOf(e2) then Differ(op, e1, e2, Unit(op), Unit(op)) else Differ(op, e1, e2, e1, e2)
  {
    Singles(CanonOf(e1), CanonOf(e2));
  }

  lemma CancelTwo(op: Op, e1: Expr, e2: Expr)
    requires !Is(op, e1) && !Is(op, e2) && !IsYN(e1)
    ensures CancelOp(op, e1, e2) == if ExprEq(e1, e2) then (Unit(op), Unit(op)) else (e1, e2)
  {
  }

  lemma Singles(c: Canon, d: Canon)
    ensures multiset{c} - multiset{d} == if c == d then multiset{} else multiset{c}
    ensures multiset{d} - multiset{c} == if c == d then multiset{} else multiset{d}
  {
  }

  // Folding what is left of a chain: neutral if nothing is, and a symbol only if that was the
  // one operand left.
  lemma {:induction false} FoldCancelled(op: Op, e: Expr)
    requires Cancelled(op, e)
    ensures EliminateYn(e) == Unit(op) <==> OperandsOf(op, e) == multiset{}
    ensures EliminateYn(e) != Zero(op)
    ensures EliminateYn(e).Sym? && EliminateYn(e) != Unit(op) ==> OperandsOf(op, e) == multiset{CanonOf(EliminateYn(e))}
  {
    if Is(op, e) {
      FoldCancelled(op, e.left);
      FoldCancelled(op, e.right);
    } else {
      TidyFolds(e);
    }
  }

  lemma {:induction false} TidyFolds(e: Expr)
    requires Tidy(e)
    ensures EliminateYn(e) == e
  {
    if e.Bin? {
      TidyFolds(e.left);
      TidyFolds(e.right);
    }
  }

  // Without y and n as operands, expr_eq accepts exactly the expressions that are the same up
  // to the order and the grouping of operands.
  lemma {:induction false} ExprEqExact(e1: Expr, e2: Expr)
    requires Tidy(e1) && Tidy(e2)
    ensures ExprEq(e1, e2) <==> CanonOf(e1) == CanonOf(e2)
    decreases Size(e1) + Size(e2), 2
  {
    match (e1, e2)
    case (Not(a1), Not(a2)) => ExprEqExact(a1, a2);
    case (Bin(op1, _, _), Bin(op2, _, _)) =>
      if op1 == op2 { ChainEqExact(op1, e1, e2); }
    case _ =>
  }

  lemma {:induction false} ChainEqExact(op: Op, e1: Expr, e2: Expr)
    requires Tidy(e1) && Tidy(e2) && Is(op, e1) && Is(op, e2)
    ensures ExprEq(e1, e2) <==> OperandsOf(op, e1) == OperandsOf(op, e2)
    decreases Size(e1) + Size(e2), 1
  {
    TidyIsCancelled(op, e1);
    TidyIsCancelled(op, e2);
    CancelExact(op, e1, e2);
    var r := CancelOp(op, e1, e2);
    FoldCancelled(op, r.0);
    FoldCancelled(op, r.1);
    ChainEq(op, e1, e2);
    FoldedAlike(op, EliminateYn(r.0), EliminateYn(r.1), OperandsOf(op, e1), OperandsOf(op, e2));
  }

  // What expr_eq does with two chains of one operator.
  lemma ChainEq(op: Op, e1: Expr, e2: Expr)
    requires Is(op, e1) && Is(op, e2)
    ensures var r := CancelOp(op, e1, e2);
      ExprEq(e1, e2) <==> EliminateYn(r.0).Sym? && EliminateYn(r.0) == EliminateYn(r.1)
  {
    CancelKeepsChains(op, e1, e2);
  }

  lemma {:induction false} CancelKeepsChains(op: Op, e1: Expr, e2: Expr)
    ensures Is(op, e1) ==> Is(op, CancelOp(op, e1, e2).0)
    ensures Is(op, e2) ==> Is(op, CancelOp(op, e1, e2).1)
    decreases e1
  {
    if Is(op, e1) {
      CancelLeft(op, e1, e2);
      CancelKeepsChains(op, e1.left, e2);
      CancelKeepsChains(op, e1.right, CancelOp(op, e1.left, e2).1);
    } else if Is(op, e2) {
      CancelRight(op, e1, e2);
    }
  }

  lemma FoldedAlike(op: Op, f1: Expr, f2: Expr, a: multiset<Canon>, b: multiset<Canon>)
    requires f1 == Unit(op) <==> a - b == multiset{}
    requires f2 == Unit(op) <==> b - a == multiset{}
    requires f1.Sym? && f1 != Unit(op) ==> a - b == multiset{CanonOf(f1)}
    requires f2.Sym? && f2 != Unit(op) ==> b - a == multiset{CanonOf(f2)}
    ensures f1.Sym? && f1 == f2 <==> a == b
  {
    Differences(a, b, CanonOf(f1));
  }

  lemma Differences(a: multiset<Canon>, b: multiset<Canon>, c: Canon)
    ensures a - b == multiset{} && b - a == multiset{} <==> a == b
    ensures !(a - b == multiset{c} && b - a == multiset{c})
  {
    if a - b == multiset{} && b - a == multiset{} {
      forall x: Canon ensures a[x] == b[x] {
        assert (a - b)[x] == 0 && (b - a)[x] == 0;
      }
      assert a == b;
    }
    assert (a - b)[c] == 0 || (b - a)[c] == 0;
  }

  // Hence it does not look at the order in which operands are written.
  lemma ExprEqReordered(op: Op, a: Expr, b: Expr)
    requires Tidy(Bin(op, a, b))
    ensures ExprEq(Bin(op, a, b), Bin(op, b, a))
  {
    ExprEqExact(Bin(op, a, b), Bin(op, b, a));
  }

  // ----- Extracting common operands -----

  lemma ExtractLeft(op: Op, common: Option<Expr>, e1: Expr, e2: Expr)
    requires Is(op, e1)
    ensures var x := ExtractEq(op, common, e1.left, e2);
      var y := ExtractEq(op, x.common, e1.right, x.right);
      ExtractEq(op, common, e1, e2) == Extraction(y.common, Bin(op, x.left, y.left), y.right)
  {
  }

  lemma ExtractRight(op: Op, common: Option<Expr>, e1: Expr, e2: Expr)
    requires !Is(op, e1) && Is(op, e2)
    ensures var x := ExtractEq(op, common, e1, e2.left);
      var y := ExtractEq(op, x.common, x.left, e2.right);
      ExtractEq(op, common, e1, e2) == Extraction(y.common, y.left, Bin(op, x.right, y.right))
  {
  }

  lemma ExtractLeftExact(op: Op, common: Option<Expr>, e1: Expr, e2: Expr, x: Extraction, y: Extraction)
    requires Is(op, e1)
    requires x == ExtractEq(op, common, e1.left, e2) && Differ(op, e1.left, e2, x.left, x.right)
    requires y == ExtractEq(op, x.common, e1.right, x.right) && Differ(op, e1.right, x.right, y.left, y.right)
    ensures Differ(op, e1, e2, ExtractEq(op, common, e1, e2).left, ExtractEq(op, common, e1, e2).right)
  {
    ExtractLeft(op, common, e1, e2);
    DifferTwice(op, e1.left, e1.right, e2, x.left, x.right, y.left, y.right);
  }

  lemma ExtractRightExact(op: Op, common: Option<Expr>, e1: Expr, e2: Expr, x: Extraction, y: Extraction)
    requires !Is(op, e1) && Is(op, e2)
    requires x == ExtractEq(op, common, e1, e2.left) && Differ(op, e1, e2.left, x.left, x.right)
    requires y == ExtractEq(op, x.common, x.left, e2.right) && Differ(op, x.left, e2.right, y.left, y.right)
    ensures Differ(op, e1, e2, ExtractEq(op, common, e1, e2).left, ExtractEq(op, common, e1, e2).right)
  {
    ExtractRight(op, common, e1, e2);
    DifferTwiceRight(op, e1, e2.left, e2.right, x.left, x.right, y.left, y.right);
  }

  lemma PartsCancelled(op: Op, e: Expr)
    requires Is(op, e) && Cancelled(op, e)
    ensures Cancelled(op, e.left) && Cancelled(op, e.right) && Size(e) == 1 + Size(e.left) + Size(e.right)
  {
  }

  // Extracting leaves on each side the operands that the other side does not have.
  lemma {:induction false} ExtractExact(op: Op, common: Option<Expr>, e1: Expr, e2: Expr)
    requires Cancelled(op, e1) && Cancelled(op, e2)
    ensures Differ(op, e1, e2, ExtractEq(op, common, e1, e2).left, ExtractEq(op, common, e1, e2).right)
    decreases Size(e1) + Size(e2), 1
  {
    if Is(op, e1) {
      ExtractFirst(op, common, e1, e2);
    } else if Is(op, e2) {
      ExtractSecond(op, common, e1, e2);
    } else {
      ExtractOperands(op, common, e1, e2);
    }
  }

  lemma {:induction false} ExtractFirst(op: Op, common: Option<Expr>, e1: Expr, e2: Expr)
    requires Is(op, e1) && Cancelled(op, e1) && Cancelled(op, e2)
    ensures Differ(op, e1, e2, ExtractEq(op, common, e1, e2).left, ExtractEq(op, common, e1, e2).right)
    decreases Size(e1) + Size(e2), 0
  {
    PartsCancelled(op, e1);
    var x := ExtractEq(op, common, e1.left, e2);
    var y := ExtractEq(op, x.common, e1.right, x.right);
    ExtractExact(op, common, e1.left, e2);
    ExtractExact(op, x.common, e1.right, x.right);
    ExtractLeftExact(op, common, e1, e2, x, y);
  }

  lemma {:induction false} ExtractSecond(op: Op, common: Option<Expr>, e1: Expr, e2: Expr)
    requires !Is(op, e1) && Is(op, e2) && Cancelled(op, e1) && Cancelled(op, e2)
    ensures Differ(op, e1, e2, ExtractEq(op, common, e1, e2).left, ExtractEq(op, common, e1, e2).right)
    decreases Size(e1) + Size(e2), 0
  {
    PartsCancelled(op, e2);
    var x := ExtractEq(op, common, e1, e2.left);
    var y := ExtractEq(op, x.common, x.left, e2.right);
    ExtractExact(op, common, e1, e2.left);
    ExtractExact(op, x.common, x.left, e2.right);
    ExtractRightExact(op, common, e1, e2, x, y);
  }

  lemma ExtractOperands(op: Op, common: Option<Expr>, e1: Expr, e2: Expr)
    requires Cancelled(op, e1) && Cancelled(op, e2) && !Is(op, e1) && !Is(op, e2)
    ensures Differ(op, e1, e2, ExtractEq(op, common, e1, e2).left, ExtractEq(op, common, e1, e2).right)
  {
    ExtractTwo(op, common, e1, e2);
    if !IsYN(e1) && !IsYN(e2) {
      ExprEqExact(e1, e2);
      CancelPair(op, e1, e2);
    } else {
      ExprEqYN(e1, e2);
    }
  }

  lemma ExprEqYN(e1: Expr, e2: Expr)
    requires IsYN(e1) || IsYN(e2)
    ensures ExprEq(e1, e2) <==> e1 == e2
  {
  }

  lemma ExtractTwo(op: Op, common: Option<Expr>, e1: Expr, e2: Expr)
    requires !Is(op, e1) && !Is(op, e2)
    ensures var x := ExtractEq(op, common, e1, e2);
      if ExprEq(e1, e2) then x.left == x.right == Unit(op) else x.left == e1 && x.right == e2
  {
  }

  // What has been extracted stays; if nothing has been, both sides are as they were.
  lemma {:induction false} ExtractNone(op: Op, common: Option<Expr>, e1: Expr, e2: Expr)
    ensures var x := ExtractEq(op, common, e1, e2);
      x.common.None? ==> common.None? && x.left == e1 && x.right == e2
    decreases Size(e1) + Size(e2)
  {
    if Is(op, e1) {
      var x := ExtractEq(op, common, e1.left, e2);
      ExtractLeft(op, common, e1, e2);
      ExtractNone(op, common, e1.left, e2);
      ExtractNone(op, x.common, e1.right, x.right);
    } else if Is(op, e2) {
      var x := ExtractEq(op, common, e1, e2.left);
      ExtractRight(op, common, e1, e2);
      ExtractNone(op, common, e1, e2.left);
      ExtractNone(op, x.common, x.left, e2.right);
    }
  }

  // Nothing of the first expression is left exactly if all its operands are among those of the
  // second, as often as they occur.
  lemma ExtractCommonExact(op: Op, e1: Expr, e2: Expr)
    requires Tidy(e1) && Tidy(e2) && !IsYN(e1) && !IsYN(e2)
    ensures ExtractCommon(op, e1, e2).left == Unit(op) <==> OperandsOf(op, e1) <= OperandsOf(op, e2)
  {
    TidyIsCancelled(op, e1);
    TidyIsCancelled(op, e2);
    ExtractExact(op, None, e1, e2);
    ExtractNone(op, None, e1, e2);
    FoldCancelled(op, ExtractEq(op, None, e1, e2).left);
    FoldCancelled(op, e1);
    TidyFolds(e1);
    NothingLeft(OperandsOf(op, e1), OperandsOf(op, e2));
  }

  lemma NothingLeft(a: multiset<Canon>, b: multiset<Canon>)
    ensures a - b == multiset{} <==> a <= b
  {
    if a - b == multiset{} {
      forall x: Canon ensures a[x] <= b[x] {
        assert (a - b)[x] == 0;
      }
    }
  }

  // ----- What expr_eliminate_eq cancels -----

  // If one of two expressions is a chain of `op`, and neither a chain of the other operator, a
  // side vanishes exactly if all its operands are among those of the other.
  lemma EliminateEqExact(op: Op, e1: Expr, e2: Expr)
    requires Tidy(e1) && Tidy(e2) && !IsYN(e1) && !IsYN(e2)
    requires (Is(op, e1) || Is(op, e2)) && !Is(Dual(op), e1) && !Is(Dual(op), e2)
    ensures EliminateEq(e1, e2).0 == Unit(op) <==> OperandsOf(op, e1) <= OperandsOf(op, e2)
    ensures EliminateEq(e1, e2).1 == Unit(op) <==> OperandsOf(op, e2) <= OperandsOf(op, e1)
  {
    var r := CancelOp(op, e1, e2);
    TidyIsCancelled(op, e1);
    TidyIsCancelled(op, e2);
    CancelExact(op, e1, e2);
    FoldCancelled(op, r.0);
    FoldCancelled(op, r.1);
    NothingLeft(OperandsOf(op, e1), OperandsOf(op, e2));
    NothingLeft(OperandsOf(op, e2), OperandsOf(op, e1));
    OnePass(op, e1, e2);
  }

  // Only one of the two passes finds something to do.
  lemma OnePass(op: Op, e1: Expr, e2: Expr)
    requires (Is(op, e1) || Is(op, e2)) && !Is(Dual(op), e1) && !Is(Dual(op), e2)
    ensures var r := CancelOp(op, e1, e2); EliminateEq(e1, e2) == (EliminateYn(r.0), EliminateYn(r.1))
  {
    CancelKeepsChains(op, e1, e2);
    if !Is(op, e2) {
      CancelLeavesOperand(op, e1, e2);
    }
  }

  lemma {:induction false} CancelLeavesOperand(op: Op, e1: Expr, e2: Expr)
    requires !Is(op, e2) && !Is(Dual(op), e2)
    ensures !CancelOp(op, e1, e2).1.Bin?
    decreases e1
  {
    if Is(op, e1) {
      CancelLeft(op, e1, e2);
      CancelLeavesOperand(op, e1.left, e2);
      CancelLeavesOperand(op, e1.right, CancelOp(op, e1.left, e2).1);
    }
  }

  lemma {:induction false} CancelAgainstYN(op: Op, e: Expr, x: Expr)
    requires IsYN(x)
    ensures CancelOp(op, e, x).1 == x
    decreases e
  {
    if Is(op, e) {
      CancelLeft(op, e, x);
      CancelAgainstYN(op, e.left, x);
      CancelAgainstYN(op, e.right, x);
    }
  }

  // y and n are never cancelled.
  lemma EliminateEqYN(e: Expr, x: Expr)
    requires IsYN(x)
    ensures EliminateEq(e, x).1 == x
  {
    if e.Bin? {
      CancelAgainstYN(e.op, e, x);
    }
  }

  // Between two expressions that are not chains nothing is cancelled, even if they are equal.
  lemma EliminateEqOperands(e1: Expr, e2: Expr)
    requires !e1.Bin? && !e2.Bin?
    ensures EliminateEq(e1, e2) == (e1, e2)
  {
  }

  // ----- With y and n among the operands, the order matters -----

  const FOO := Sym(Named(0, TristateType))
  const BAR := Sym(Named(1, TristateType))

  // Three spellings of BAR && FOO: the second is equal to the others, which differ.
  const SPELT1 := Bin(AndOp, BAR, Bin(OrOp, FOO, Sym(SYMBOL_NO)))
  const SPELT2 := Bin(AndOp, BAR, FOO)
  const SPELT3 := Bin(AndOp, Bin(OrOp, BAR, Sym(SYMBOL_NO)), FOO)

  // Cancelling two chains of two operands.
  lemma CancelFour(op: Op, a: Expr, b: Expr, x: Expr, y: Expr)
    requires !Is(op, a) && !Is(op, b) && !Is(op, x) && !Is(op, y)
    ensures var (a1, x1) := CancelOp(op, a, x);
      var (a2, y1) := CancelOp(op, a1, y);
      var (b1, x2) := CancelOp(op, b, x1);
      var (b2, y2) := CancelOp(op, b1, y1);
      CancelOp(op, Bin(op, a, b), Bin(op, x, y)) == (Bin(op, a2, b2), Bin(op, x2, y2))
  {
  }

  lemma FirstTwo(a: Expr, b: Expr)
    requires a == SPELT1 && b == SPELT2
    ensures ExprEq(a, b)
  {
    CancelFour(AndOp, BAR, Bin(OrOp, FOO, Sym(SYMBOL_NO)), BAR, FOO);
    ChainEq(AndOp, a, b);
  }

  lemma LastTwo(b: Expr, c: Expr)
    requires b == SPELT2 && c == SPELT3
    ensures ExprEq(b, c)
  {
    CancelFour(AndOp, BAR, FOO, Bin(OrOp, BAR, Sym(SYMBOL_NO)), FOO);
    ChainEq(AndOp, b, c);
  }

  lemma OuterTwo(c: Expr, a: Expr)
    requires c == SPELT3 && a == SPELT1
    ensures !ExprEq(c, a)
  {
    CancelFour(AndOp, Bin(OrOp, BAR, Sym(SYMBOL_NO)), FOO, BAR, Bin(OrOp, FOO, Sym(SYMBOL_NO)));
    ChainEq(AndOp, c, a);
  }

  lemma FoldsToChain(c: Expr)
    requires c == SPELT3
    ensures EliminateYn(c) == Bin(AndOp, BAR, FOO)
  {
  }

  // The first operand is cancelled with the wrong partner ...
  lemma CancelFirst(op: Op, a: Expr, b: Expr, c: Expr)
    requires !Is(op, a) && !Is(op, b) && !Is(op, c) && !IsYN(a) && ExprEq(a, b)
    ensures CancelOp(op, a, Bin(op, Bin(op, b, c), a)) == (Unit(op), Bin(op, Bin(op, Unit(op), c), a))
  {
    CancelYN(op, Unit(op), c);
    CancelYN(op, Unit(op), a);
    CancelRight(op, a, Bin(op, b, c));
    CancelRight(op, a, Bin(op, Bin(op, b, c), a));
  }

  // ... which then takes the next one ...
  lemma CancelNext(op: Op, a: Expr, b: Expr, c: Expr)
    requires !Is(op, a) && !Is(op, b) && !Is(op, c) && !IsYN(b) && ExprEq(b, c)
    ensures CancelOp(op, b, Bin(op, Bin(op, Unit(op), c), a)) == (Unit(op), Bin(op, Bin(op, Unit(op), Unit(op)), a))
  {
    CancelYN(op, b, Unit(op));
    CancelYN(op, Unit(op), a);
    CancelRight(op, b, Bin(op, Unit(op), c));
    CancelRight(op, b, Bin(op, Bin(op, Unit(op), c), a));
  }

  // ... and two are left that are not equal.
  lemma CancelLast(op: Op, a: Expr, c: Expr)
    requires !Is(op, a) && !Is(op, c) && !IsYN(c) && !ExprEq(c, a)
    ensures CancelOp(op, c, Bin(op, Bin(op, Unit(op), Unit(op)), a)) == (c, Bin(op, Bin(op, Unit(op), Unit(op)), a))
  {
    CancelYN(op, c, Bin(op, Unit(op), Unit(op)));
    CancelRight(op, c, Bin(op, Bin(op, Unit(op), Unit(op)), a));
  }

  lemma CancelReordered(op: Op, a: Expr, b: Expr, c: Expr)
    requires !Is(op, a) && !Is(op, b) && !Is(op, c) && !IsYN(a) && !IsYN(b) && !IsYN(c)
    requires ExprEq(a, b) && ExprEq(b, c) && !ExprEq(c, a)
    ensures CancelOp(op, Bin(op, a, Bin(op, b, c)), Bin(op, Bin(op, b, c), a))
      == (Bin(op, Unit(op), Bin(op, Unit(op), c)), Bin(op, Bin(op, Unit(op), Unit(op)), a))
  {
    CancelFirst(op, a, b, c);
    CancelNext(op, a, b, c);
    CancelLast(op, a, c);
    CancelLeft(op, Bin(op, b, c), Bin(op, Bin(op, Unit(op), c), a));
    CancelLeft(op, Bin(op, a, Bin(op, b, c)), Bin(op, Bin(op, b, c), a));
  }

  // Hence, where equality is not transitive, a chain need not equal its reordering.
  lemma ReorderedFails(op: Op, a: Expr, b: Expr, c: Expr)
    requires !Is(op, a) && !Is(op, b) && !Is(op, c) && !IsYN(a) && !IsYN(b)
    requires ExprEq(a, b) && ExprEq(b, c) && !ExprEq(c, a) && !EliminateYn(c).Sym?
    ensures !ExprEq(Bin(op, a, Bin(op, b, c)), Bin(op, Bin(op, b, c), a))
  {
    CancelReordered(op, a, b, c);
    ChainEq(op, Bin(op, a, Bin(op, b, c)), Bin(op, Bin(op, b, c), a));
  }

  // A chain of the three compared with itself, its first operand written last.
  lemma ReorderedNotEqual(a: Expr, b: Expr, c: Expr)
    requires a == SPELT1 && b == SPELT2 && c == SPELT3
    ensures !ExprEq(Bin(OrOp, a, Bin(OrOp, b, c)), Bin(OrOp, Bin(OrOp, b, c), a))
  {
    FirstTwo(a, b);
    LastTwo(b, c);
    OuterTwo(c, a);
    FoldsToChain(c);
    ReorderedFails(OrOp, a, b, c);
  }
}
