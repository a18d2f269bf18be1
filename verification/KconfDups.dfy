/**
  Duplicate elimination: expr_join_or, expr_join_and, expr_eliminate_dups1,
  expr_eliminate_dups2 and the fixpoint loop of expr_eliminate_dups (expr.c).
 */
module KconfDups {
  import opened KconfExpr
  import opened KconfEq
  import opened KconfSlots
  import opened KconfTransform

  // ----- Joining two operands -----

  // The symbol the first operand talks about.
  function FirstSymbol(e: Expr): Option<Symbol> {
    match e
    case Sym(s) => Some(s)
    case Equal(a, _) => Some(a)
    case Unequal(a, _) => Some(a)
    case Not(Sym(s)) => Some(s)
    case Not(Equal(a, _)) => Some(a)
    case Not(Unequal(a, _)) => Some(a)
    case _ => None
  }

  // The second operand may be negated only directly above a symbol.
  function SecondSymbol(e: Expr): Option<Symbol> {
    if e.Not? && !e.arg.Sym? then None else FirstSymbol(e)
  }

  // The common symbol of two operands that may be joined.
  function SharedSymbol(e1: Expr, e2: Expr): Option<Symbol> {
    var s1 := FirstSymbol(e1);
    if s1.Some? && s1 == SecondSymbol(e2) && (HasType(s1.value, BooleanType) || HasType(s1.value, TristateType))
    then s1 else None
  }

  predicate Are(a: Symbol, b: Symbol, x: Symbol, y: Symbol) {
    (a == x && b == y) || (a == y && b == x)
  }

  predicate NegatedSymbol(e: Expr) {
    e.Not? && e.arg.Sym?
  }

  // expr_join_or
  function JoinOr(e1: Expr, e2: Expr): Option<Expr> {
    if ExprEq(e1, e2) then Some(e1)
    else
      var shared := SharedSymbol(e1, e2);
      if shared.None? then None
      else
        var s := shared.value;
        if HasType(s, TristateType) then
          if e1.Equal? && e2.Equal? then
            if Are(e1.rhs, e2.rhs, SYMBOL_YES, SYMBOL_MOD) then Some(Unequal(s, SYMBOL_NO))
            else if Are(e1.rhs, e2.rhs, SYMBOL_YES, SYMBOL_NO) then Some(Unequal(s, SYMBOL_MOD))
            else if Are(e1.rhs, e2.rhs, SYMBOL_MOD, SYMBOL_NO) then Some(Unequal(s, SYMBOL_YES))
            else None
          else None
        else if (NegatedSymbol(e1) && e2.Sym?) || (NegatedSymbol(e2) && e1.Sym?) then Some(Sym(SYMBOL_YES))
        else None
  }

  // One operand is the symbol itself, the other compares it with `c`.
  predicate SymbolEqual(e1: Expr, e2: Expr, c: Symbol) {
    (e1.Sym? && e2.Equal? && e2.rhs == c) || (e2.Sym? && e1.Equal? && e1.rhs == c)
  }

  predicate SymbolUnequal(e1: Expr, e2: Expr, c: Symbol) {
    (e1.Sym? && e2.Unequal? && e2.rhs == c) || (e2.Sym? && e1.Unequal? && e1.rhs == c)
  }

  // (a='b') && (a!='c') for constants b and c
  function JoinEqualUnequal(s: Symbol, b: Symbol, c: Symbol): Expr {
    if b != c then Equal(s, b) else Sym(SYMBOL_NO)
  }

  // expr_join_and
  function JoinAnd(e1: Expr, e2: Expr): Option<Expr> {
    if ExprEq(e1, e2) then Some(e1)
    else
      var shared := SharedSymbol(e1, e2);
      if shared.None? then None
      else
        var s := shared.value;
        if SymbolEqual(e1, e2, SYMBOL_YES) then Some(Equal(s, SYMBOL_YES))
        else if SymbolUnequal(e1, e2, SYMBOL_NO) then Some(Sym(s))
        else if SymbolUnequal(e1, e2, SYMBOL_MOD) then Some(Equal(s, SYMBOL_YES))
        else if !HasType(s, TristateType) then None
        else if e1.Equal? && e2.Unequal? && e1.rhs.Const? && e2.rhs.Const? then
          Some(JoinEqualUnequal(s, e1.rhs, e2.rhs))
        else if e1.Unequal? && e2.Equal? && e1.rhs.Const? && e2.rhs.Const? then
          Some(JoinEqualUnequal(s, e2.rhs, e1.rhs))
        else if e1.Unequal? && e2.Unequal? then
          if Are(e1.rhs, e2.rhs, SYMBOL_YES, SYMBOL_NO) then Some(Equal(s, SYMBOL_MOD))
          else if Are(e1.rhs, e2.rhs, SYMBOL_YES, SYMBOL_MOD) then Some(Equal(s, SYMBOL_NO))
          else if Are(e1.rhs, e2.rhs, SYMBOL_MOD, SYMBOL_NO) then Some(Equal(s, SYMBOL_YES))
          else None
        else None
  }

  function Join(op: Op, e1: Expr, e2: Expr): Option<Expr> {
    if op == OrOp then JoinOr(e1, e2) else JoinAnd(e1, e2)
  }

  // A joined operand means the same as the two it replaces, on every valuation, and is no
  // larger, no deeper and no `op` chain of its own.
  lemma {:induction false} JoinSound(op: Op, e1: Expr, e2: Expr)
    requires Join(op, e1, e2).Some? && !Is(op, e1)
    ensures var j := Join(op, e1, e2).value;
      && Equivalent(j, Bin(op, e1, e2))
      && !Is(op, j) && Size(j) <= Size(e1) && Depth(op, j) <= Depth(op, e1)
      && (Normal(e1) && Normal(e2) ==> Normal(j))
  {
    var j := Join(op, e1, e2).value;
    if ExprEq(e1, e2) {
      ExprEqSound(e1, e2);
    } else {
      forall v: Valuation | Legal(v)
        ensures Eval(j, v) == Eval(Bin(op, e1, e2), v)
      {
        JoinComparisons(op, e1, e2, v);
      }
    }
  }

  lemma JoinComparisons(op: Op, e1: Expr, e2: Expr, v: Valuation)
    requires Join(op, e1, e2).Some? && !ExprEq(e1, e2) && Legal(v)
    ensures Eval(Join(op, e1, e2).value, v) == Apply(op, Eval(e1, v), Eval(e2, v))
  {
    if op == OrOp {
      JoinOrComparisons(e1, e2, SharedSymbol(e1, e2).value, v);
    } else {
      JoinAndComparisons(e1, e2, SharedSymbol(e1, e2).value, v);
    }
  }

  // What the strings of a shared symbol and of the constants it is compared with can be.
  lemma ComparedValues(s: Symbol, v: Valuation)
    requires Legal(v)
    ensures v(SYMBOL_YES) == Value(YES, "y") && v(SYMBOL_MOD) == Value(MOD, "m") && v(SYMBOL_NO) == Value(NO, "n")
    ensures HasType(s, BooleanType) ==> v(s).tri != MOD
    ensures IsTri(s) ==>
      && (v(s).str == "y" <==> v(s).tri == YES) && (v(s).str == "m" <==> v(s).tri == MOD) && (v(s).str == "n" <==> v(s).tri == NO)
  {
    BooleanComparison(s, SYMBOL_YES, v);
    BooleanComparison(s, SYMBOL_MOD, v);
    BooleanComparison(s, SYMBOL_NO, v);
  }

  lemma JoinOrComparisons(e1: Expr, e2: Expr, s: Symbol, v: Valuation)
    requires JoinOr(e1, e2).Some? && !ExprEq(e1, e2) && Legal(v) && SharedSymbol(e1, e2) == Some(s)
    ensures Eval(JoinOr(e1, e2).value, v) == Apply(OrOp, Eval(e1, v), Eval(e2, v))
  {
    ComparedValues(s, v);
  }

  lemma JoinAndComparisons(e1: Expr, e2: Expr, s: Symbol, v: Valuation)
    requires JoinAnd(e1, e2).Some? && !ExprEq(e1, e2) && Legal(v) && SharedSymbol(e1, e2) == Some(s)
    ensures Eval(JoinAnd(e1, e2).value, v) == Apply(AndOp, Eval(e1, v), Eval(e2, v))
  {
    ComparedValues(s, v);
    if e1.Equal? { assert LegalValue(e1.rhs, v(e1.rhs)); }
    if e1.Unequal? { assert LegalValue(e1.rhs, v(e1.rhs)); }
    if e2.Equal? { assert LegalValue(e2.rhs, v(e2.rhs)); }
    if e2.Unequal? { assert LegalValue(e2.rhs, v(e2.rhs)); }
  }

  // ----- expr_eliminate_dups1 -----

  // The rewritten tree and how far trans_count has advanced.
  datatype Pass = Pass(tree: Expr, count: nat)

  // What the recursion over slots needs to know about the tree it hands on.
  ghost predicate Keeps(op: Op, root: Expr, tree: Expr) {
    ShapeOf(op, tree) == ShapeOf(op, root) && Depth(op, tree) <= Depth(op, root)
  }

  function Dups1(op: Op, root: Expr, p1: Path, p2: Path): (r: Pass)
    requires Slot(op, root, p1) && Slot(op, root, p2)
    ensures Keeps(op, root, r.tree)
    decreases Depth(op, root), Nodes(op, At(op, root, p1)) + Nodes(op, At(op, root, p2)), 2
  {
    if Is(op, At(op, root, p1)) then
      AtChild(op, root, p1, Left); AtChild(op, root, p1, Right);
      var a := Dups1(op, root, p1 + [Left], p2);
      SlotsAfter(op, root, a.tree, p1 + [Right]); SlotsAfter(op, root, a.tree, p2);
      var b := Dups1(op, a.tree, p1 + [Right], p2);
      Pass(b.tree, a.count + b.count)
    else if Is(op, At(op, root, p2)) then
      AtChild(op, root, p2, Left); AtChild(op, root, p2, Right);
      var a := Dups1(op, root, p1, p2 + [Left]);
      SlotsAfter(op, root, a.tree, p1); SlotsAfter(op, root, a.tree, p2 + [Right]);
      var b := Dups1(op, a.tree, p1, p2 + [Right]);
      Pass(b.tree, a.count + b.count)
    else if p1 == p2 then
      Pass(root, 0)
    else
      Dups1Operands(op, root, p1, p2)
  }

  // The chain inside an operand is cleaned before the operand is compared.
  function Inner1(e: Expr): (r: Pass)
    ensures if e.Bin? then Keeps(e.op, e, r.tree) else r == Pass(e, 0)
    decreases if e.Bin? then Depth(e.op, e) else 0, if e.Bin? then 2 * Nodes(e.op, e) else 0, if e.Bin? then 3 else 0
  {
    if e.Bin? then Dups1(e.op, e, [], []) else Pass(e, 0)
  }

  // Two different operands: first the chain below the first one, then the join.
  function Dups1Operands(op: Op, root: Expr, p1: Path, p2: Path): (r: Pass)
    requires Operand(op, root, p1) && Operand(op, root, p2) && p1 != p2
    ensures Keeps(op, root, r.tree)
    decreases Depth(op, root), Nodes(op, At(op, root, p1)) + Nodes(op, At(op, root, p2)), 1
  {
    var e1 := At(op, root, p1);
    PutOperand(op, root, p1, e1);
    var inner := Inner1(e1);
    PutOperand(op, root, p1, inner.tree);
    match Join(op, inner.tree, At(op, root, p2))
    case None => Pass(Put(op, root, p1, inner.tree), inner.count)
    case Some(joined) =>
      JoinSound(op, inner.tree, At(op, root, p2));
      PutOperand(op, root, p2, joined); PutOther(op, root, p2, p1, joined);
      PutOperand(op, Put(op, root, p2, joined), p1, Unit(op));
      Pass(Put(op, Put(op, root, p2, joined), p1, Unit(op)), inner.count + 1)
  }

  lemma SlotsAfter(op: Op, root: Expr, tree: Expr, p: Path)
    requires ShapeOf(op, tree) == ShapeOf(op, root) && Slot(op, root, p)
    ensures Slot(op, tree, p) && Nodes(op, At(op, tree, p)) == Nodes(op, At(op, root, p))
    ensures Is(op, At(op, tree, p)) == Is(op, At(op, root, p))
  {
    SameShapeSlot(op, root, tree, p);
    SameShapeNodes(op, At(op, root, p), At(op, tree, p));
  }

  // A pass never grows the tree, keeps negation normal form, changes nothing if it counts
  // nothing, and otherwise leaves a constant for expr_eliminate_yn to fold.
  ghost predicate Progress(root: Expr, r: Pass) {
    && Size(r.tree) <= Size(root)
    && (Normal(root) ==> Normal(r.tree))
    && (r.count == 0 ==> r.tree == root)
    && (r.count > 0 || Foldable(root) ==> Foldable(r.tree))
  }

  // Two passes in a row.
  lemma ProgressTwice(root: Expr, a: Pass, b: Pass)
    requires Progress(root, a) && Progress(a.tree, b)
    ensures Progress(root, Pass(b.tree, a.count + b.count))
  {
  }

  lemma Dups1OperandsValue(op: Op, root: Expr, p1: Path, p2: Path, v: Valuation)
    requires Operand(op, root, p1) && Operand(op, root, p2) && p1 != p2 && Legal(v)
    requires Eval(Inner1(At(op, root, p1)).tree, v) == Eval(At(op, root, p1), v)
    ensures Eval(Dups1Operands(op, root, p1, p2).tree, v) == Eval(root, v)
  {
    var e1, e2 := At(op, root, p1), At(op, root, p2);
    var inner := Inner1(e1);
    match Join(op, inner.tree, e2)
    case None =>
      PutValue(op, root, p1, inner.tree, v);
    case Some(joined) =>
      JoinSound(op, inner.tree, e2);
      UnitAndZero(op, v);
      assert Eval(joined, v) == Eval(Bin(op, inner.tree, e2), v);
      PutOperand(op, root, p2, joined); PutOther(op, root, p2, p1, joined);
      PutTwoValue(op, root, p2, p1, joined, Unit(op), v);
  }

  lemma Dups1OperandsProgress(op: Op, root: Expr, p1: Path, p2: Path)
    requires Operand(op, root, p1) && Operand(op, root, p2) && p1 != p2
    requires Progress(At(op, root, p1), Inner1(At(op, root, p1)))
    ensures Progress(root, Dups1Operands(op, root, p1, p2))
  {
    var e1, e2 := At(op, root, p1), At(op, root, p2);
    var inner := Inner1(e1);
    match Join(op, inner.tree, e2)
    case None =>
      PutOperand(op, root, p1, inner.tree);
      PutFoldable(op, root, p1, inner.tree);
      PutNormal(op, root, p1, inner.tree);
      PutSame(op, root, p1);
    case Some(joined) =>
      JoinSound(op, inner.tree, e2);
      PutOperand(op, root, p2, joined); PutOther(op, root, p2, p1, joined);
      PutOperand(op, Put(op, root, p2, joined), p1, Unit(op));
      PutFoldable(op, Put(op, root, p2, joined), p1, Unit(op));
      PutNormal(op, root, p1, inner.tree); PutNormal(op, root, p2, joined);
      PutNormal(op, Put(op, root, p2, joined), p1, Unit(op));
  }

  lemma {:induction false} PutNormal(op: Op, e: Expr, p: Path, x: Expr)
    requires Slot(op, e, p)
    ensures Normal(e) ==> Normal(At(op, e, p))
    ensures Normal(e) && Normal(x) ==> Normal(Put(op, e, p, x))
  {
    if p != [] {
      PutNormal(op, Child(e, p[0]), p[1..], x);
    }
  }

  // The first pass keeps the value on every valuation, and makes progress.
  lemma {:induction false} Dups1Correct(op: Op, root: Expr, p1: Path, p2: Path, v: Valuation)
    requires Slot(op, root, p1) && Slot(op, root, p2) && Legal(v)
    ensures Eval(Dups1(op, root, p1, p2).tree, v) == Eval(root, v)
    ensures Progress(root, Dups1(op, root, p1, p2))
    decreases Depth(op, root), Nodes(op, At(op, root, p1)) + Nodes(op, At(op, root, p2)), 2
  {
    if Is(op, At(op, root, p1)) {
      AtChild(op, root, p1, Left); AtChild(op, root, p1, Right);
      var a := Dups1(op, root, p1 + [Left], p2);
      SlotsAfter(op, root, a.tree, p1 + [Right]); SlotsAfter(op, root, a.tree, p2);
      Dups1Correct(op, root, p1 + [Left], p2, v);
      Dups1Correct(op, a.tree, p1 + [Right], p2, v);
      ProgressTwice(root, a, Dups1(op, a.tree, p1 + [Right], p2));
    } else if Is(op, At(op, root, p2)) {
      AtChild(op, root, p2, Left); AtChild(op, root, p2, Right);
      var a := Dups1(op, root, p1, p2 + [Left]);
      SlotsAfter(op, root, a.tree, p1); SlotsAfter(op, root, a.tree, p2 + [Right]);
      Dups1Correct(op, root, p1, p2 + [Left], v);
      Dups1Correct(op, a.tree, p1, p2 + [Right], v);
      ProgressTwice(root, a, Dups1(op, a.tree, p1, p2 + [Right]));
    } else if p1 != p2 {
      Dups1HereCorrect(op, root, p1, p2, v);
    }
  }

  lemma {:induction false} Dups1HereCorrect(op: Op, root: Expr, p1: Path, p2: Path, v: Valuation)
    requires Operand(op, root, p1) && Operand(op, root, p2) && p1 != p2 && Legal(v)
    ensures Eval(Dups1(op, root, p1, p2).tree, v) == Eval(root, v)
    ensures Progress(root, Dups1(op, root, p1, p2))
    decreases Depth(op, root), Nodes(op, At(op, root, p1)) + Nodes(op, At(op, root, p2)), 1
  {
    var e1 := At(op, root, p1);
    PutOperand(op, root, p1, e1);
    if e1.Bin? { Dups1Correct(e1.op, e1, [], [], v); }
    Dups1OperandsValue(op, root, p1, p2, v);
    Dups1OperandsProgress(op, root, p1, p2);
  }

  // ----- expr_eliminate_dups2 -----

  // Unlike the first pass, after visiting the operands of a chain in the second slot this
  // pass goes on to compare with that chain as a whole.
  function Dups2(op: Op, root: Expr, p1: Path, p2: Path): (r: Pass)
    requires Slot(op, root, p1) && Slot(op, root, p2)
    ensures Keeps(op, root, r.tree)
    decreases Depth(op, root), Nodes(op, At(op, root, p1)) + Nodes(op, At(op, root, p2)), 2
  {
    if Is(op, At(op, root, p1)) then
      AtChild(op, root, p1, Left); AtChild(op, root, p1, Right);
      var a := Dups2(op, root, p1 + [Left], p2);
      SlotsAfter(op, root, a.tree, p1 + [Right]); SlotsAfter(op, root, a.tree, p2);
      var b := Dups2(op, a.tree, p1 + [Right], p2);
      Pass(b.tree, a.count + b.count)
    else
      var below := Dups2Below(op, root, p1, p2);
      if p1 == p2 then below
      else
        SlotsAfter(op, root, below.tree, p1); SlotsAfter(op, root, below.tree, p2);
        var here := Dups2Operand(op, below.tree, p1, p2);
        Pass(here.tree, below.count + here.count)
  }

  function Dups2Below(op: Op, root: Expr, p1: Path, p2: Path): (r: Pass)
    requires Operand(op, root, p1) && Slot(op, root, p2)
    ensures Keeps(op, root, r.tree)
    decreases Depth(op, root), Nodes(op, At(op, root, p1)) + Nodes(op, At(op, root, p2)), 1
  {
    if Is(op, At(op, root, p2)) then
      AtChild(op, root, p2, Left); AtChild(op, root, p2, Right);
      var a := Dups2(op, root, p1, p2 + [Left]);
      SlotsAfter(op, root, a.tree, p1); SlotsAfter(op, root, a.tree, p2 + [Right]);
      var b := Dups2(op, a.tree, p1, p2 + [Right]);
      Pass(b.tree, a.count + b.count)
    else
      Pass(root, 0)
  }

  function Inner2(e: Expr): (r: Pass)
    ensures if e.Bin? then Keeps(e.op, e, r.tree) else r == Pass(e, 0)
    decreases if e.Bin? then Depth(e.op, e) else 0, if e.Bin? then 2 * Nodes(e.op, e) else 0, if e.Bin? then 3 else 0
  {
    if e.Bin? then Dups2(e.op, e, [], []) else Pass(e, 0)
  }

  // The operand in slot p1 contradicts slot p2: all of its negation is found there.
  predicate Contradicts(op: Op, e1: Expr, e2: Expr) {
    ExtractCommon(op, Transform(Not(e1)), e2).left == Unit(op)
  }

  function Dups2Operand(op: Op, root: Expr, p1: Path, p2: Path): (r: Pass)
    requires Operand(op, root, p1) && Slot(op, root, p2) && p1 != p2
    ensures Keeps(op, root, r.tree)
    decreases Depth(op, root), Nodes(op, At(op, root, p1)) + Nodes(op, At(op, root, p2)), 1
  {
    var e1 := At(op, root, p1);
    if !e1.Bin? then Pass(root, 0)
    else
      PutOperand(op, root, p1, e1);
      var inner := Inner2(e1);
      PutOperand(op, root, p1, inner.tree);
      var tree := Put(op, root, p1, inner.tree);
      SlotsAfter(op, root, tree, p2);
      if Contradicts(op, inner.tree, At(op, tree, p2)) then
        PutOperand(op, tree, p1, Zero(op));
        Pass(Put(op, tree, p1, Zero(op)), inner.count + 1)
      else
        Pass(tree, inner.count)
  }

  // y is at least as definite as x: a value other than m is kept.
  predicate Settles(x: Tristate, y: Tristate) {
    x == MOD || y == x
  }

  lemma SettlesPut(op: Op, root: Expr, p: Path, x: Expr, v: Valuation)
    requires Slot(op, root, p) && Legal(v)
    requires Settles(Eval(At(op, root, p), v), Eval(x, v))
    ensures Settles(Eval(root, v), Eval(Put(op, root, p, x), v))
  {
    PutValue(op, root, p, x, v);
  }

  // The rule behind the second pass, exactly: replacing the contradicted operand keeps the
  // value of the chain if and only if that value is not m.
  lemma ContradictionExact(op: Op, root: Expr, p1: Path, p2: Path, v: Valuation)
    requires Slot(op, root, p1) && Slot(op, root, p2) && Legal(v)
    requires Contradicts(op, At(op, root, p1), At(op, root, p2))
    ensures Eval(Put(op, root, p1, Zero(op)), v) == Eval(root, v) <==> Eval(root, v) != MOD
  {
    var e1, e2 := At(op, root, p1), At(op, root, p2);
    PutValue(op, root, p1, Zero(op), v);
    PutValue(op, root, p2, e2, v);
    UnitAndZero(op, v);
    var x := ExtractCommon(op, Transform(Not(e1)), e2);
    ExtractCommonFactors(op, Transform(Not(e1)), e2);
    TransformValue(Not(e1), v);
    var common := Eval(CommonPart(op, x.common), v);
    assert 2 - Eval(e1, v) == Apply(op, Eval(Unit(op), v), common);
    assert Eval(e2, v) == Apply(op, Eval(x.right, v), common);
  }

  lemma Dups2OperandCorrect(op: Op, root: Expr, p1: Path, p2: Path, v: Valuation)
    requires Operand(op, root, p1) && Slot(op, root, p2) && p1 != p2 && Legal(v)
    requires var e1 := At(op, root, p1);
      Settles(Eval(e1, v), Eval(Inner2(e1).tree, v)) && Progress(e1, Inner2(e1))
    ensures Settles(Eval(root, v), Eval(Dups2Operand(op, root, p1, p2).tree, v))
    ensures Progress(root, Dups2Operand(op, root, p1, p2))
  {
    var e1 := At(op, root, p1);
    if e1.Bin? {
      var inner := Inner2(e1);
      var tree := Put(op, root, p1, inner.tree);
      PutOperand(op, root, p1, inner.tree);
      SettlesPut(op, root, p1, inner.tree, v);
      PutFoldable(op, root, p1, inner.tree);
      PutNormal(op, root, p1, inner.tree);
      PutSame(op, root, p1);
      SlotsAfter(op, root, tree, p2);
      if Contradicts(op, inner.tree, At(op, tree, p2)) {
        ContradictionExact(op, tree, p1, p2, v);
        PutOperand(op, tree, p1, Zero(op));
        PutFoldable(op, tree, p1, Zero(op));
        PutNormal(op, tree, p1, Zero(op));
      }
    }
  }

  // The second pass keeps every value other than m, and makes progress.
  lemma {:induction false} Dups2Correct(op: Op, root: Expr, p1: Path, p2: Path, v: Valuation)
    requires Slot(op, root, p1) && Slot(op, root, p2) && Legal(v)
    ensures Settles(Eval(root, v), Eval(Dups2(op, root, p1, p2).tree, v))
    ensures Progress(root, Dups2(op, root, p1, p2))
    decreases Depth(op, root), Nodes(op, At(op, root, p1)) + Nodes(op, At(op, root, p2)), 3
  {
    if Is(op, At(op, root, p1)) {
      AtChild(op, root, p1, Left); AtChild(op, root, p1, Right);
      var a := Dups2(op, root, p1 + [Left], p2);
      SlotsAfter(op, root, a.tree, p1 + [Right]); SlotsAfter(op, root, a.tree, p2);
      Dups2Correct(op, root, p1 + [Left], p2, v);
      Dups2Correct(op, a.tree, p1 + [Right], p2, v);
      ProgressTwice(root, a, Dups2(op, a.tree, p1 + [Right], p2));
    } else {
      Dups2HereCorrect(op, root, p1, p2, v);
    }
  }

  lemma {:induction false} Dups2HereCorrect(op: Op, root: Expr, p1: Path, p2: Path, v: Valuation)
    requires Operand(op, root, p1) && Slot(op, root, p2) && Legal(v)
    ensures Settles(Eval(root, v), Eval(Dups2(op, root, p1, p2).tree, v))
    ensures Progress(root, Dups2(op, root, p1, p2))
    decreases Depth(op, root), Nodes(op, At(op, root, p1)) + Nodes(op, At(op, root, p2)), 2
  {
    Dups2BelowCorrect(op, root, p1, p2, v);
    if p1 != p2 {
      var below := Dups2Below(op, root, p1, p2);
      SlotsAfter(op, root, below.tree, p1); SlotsAfter(op, root, below.tree, p2);
      var e1 := At(op, below.tree, p1);
      PutOperand(op, below.tree, p1, e1);
      if e1.Bin? { Dups2Correct(e1.op, e1, [], [], v); }
      Dups2OperandCorrect(op, below.tree, p1, p2, v);
      ProgressTwice(root, below, Dups2Operand(op, below.tree, p1, p2));
    }
  }

  lemma {:induction false} Dups2BelowCorrect(op: Op, root: Expr, p1: Path, p2: Path, v: Valuation)
    requires Operand(op, root, p1) && Slot(op, root, p2) && Legal(v)
    ensures Settles(Eval(root, v), Eval(Dups2Below(op, root, p1, p2).tree, v))
    ensures Progress(root, Dups2Below(op, root, p1, p2))
    decreases Depth(op, root), Nodes(op, At(op, root, p1)) + Nodes(op, At(op, root, p2)), 1
  {
    if Is(op, At(op, root, p2)) {
      AtChild(op, root, p2, Left); AtChild(op, root, p2, Right);
      var a := Dups2(op, root, p1, p2 + [Left]);
      SlotsAfter(op, root, a.tree, p1); SlotsAfter(op, root, a.tree, p2 + [Right]);
      Dups2Correct(op, root, p1, p2 + [Left], v);
      Dups2Correct(op, a.tree, p1, p2 + [Right], v);
    }
  }

  // ----- expr_eliminate_dups -----

  // One iteration of the loop, before folding.
  function Round(e: Expr): Pass {
    if e.Bin? then
      var first := Dups1(e.op, e, [], []);
      var second := Dups2(e.op, first.tree, [], []);
      Pass(second.tree, first.count + second.count)
    else
      Pass(e, 0)
  }

  lemma {:induction false} EliminateYnKeepsNormal(e: Expr)
    requires Normal(e)
    ensures Normal(EliminateYn(e))
  {
    match e
    case Bin(_, l, r) => EliminateYnKeepsNormal(l); EliminateYnKeepsNormal(r);
    case _ =>
  }

  // A counted round shrinks the tree once it is folded, so the loop ends.
  lemma RoundCorrect(e: Expr, v: Valuation)
    requires Legal(v)
    ensures Settles(Eval(e, v), Eval(Round(e).tree, v))
    ensures Round(e).count == 0 ==> Round(e).tree == e
    ensures Round(e).count > 0 ==> Size(EliminateYn(Round(e).tree)) < Size(e)
    ensures Normal(e) ==> Normal(EliminateYn(Round(e).tree))
  {
    if e.Bin? {
      var first := Dups1(e.op, e, [], []);
      Dups1Correct(e.op, e, [], [], v);
      Dups2Correct(e.op, first.tree, [], [], v);
      EliminateYnNormal(Round(e).tree);
      if Normal(e) { EliminateYnKeepsNormal(Round(e).tree); }
    }
  }

  ghost const SOME_VALUATION: Valuation :=
    (s: Symbol) => if s.Const? then Value(if s.name == "y" then YES else if s.name == "m" then MOD else NO, s.name)
                   else Value(NO, "n")

  // The result of expr_eliminate_dups.
  function Simplified(e: Expr): Expr
    decreases Size(e)
  {
    var round := Round(e);
    RoundCorrect(e, SOME_VALUATION);
    if round.count == 0 then round.tree else Simplified(EliminateYn(round.tree))
  }

  // expr_eliminate_dups keeps every value other than m and negation normal form, never grows
  // its argument, and returns a tree on which another round finds nothing to do.
  lemma {:induction false} SimplifiedSettles(e: Expr, v: Valuation)
    requires Legal(v)
    ensures Settles(Eval(e, v), Eval(Simplified(e), v))
    ensures Size(Simplified(e)) <= Size(e)
    ensures Normal(e) ==> Normal(Simplified(e))
    ensures Round(Simplified(e)) == Pass(Simplified(e), 0)
    decreases Size(e)
  {
    RoundCorrect(e, v);
    if Round(e).count != 0 {
      EliminateYnValue(Round(e).tree, v);
      SimplifiedSettles(EliminateYn(Round(e).tree), v);
    }
  }

  // Every symbol used as a value, rather than compared, satisfies P.
  ghost predicate Operands(e: Expr, P: Symbol -> bool) {
    match e
    case Sym(s) => P(s)
    case Not(a) => Operands(a, P)
    case Bin(_, l, r) => Operands(l, P) && Operands(r, P)
    case _ => true
  }

  lemma {:induction false} NoModOperands(e: Expr, v: Valuation)
    requires Operands(e, s => v(s).tri != MOD)
    ensures Eval(e, v) != MOD
  {
    match e
    case Not(a) => NoModOperands(a, v);
    case Bin(_, l, r) => NoModOperands(l, v); NoModOperands(r, v);
    case _ =>
  }

  // Hence it preserves meaning wherever no operand is m.
  lemma SimplifiedValue(e: Expr, v: Valuation)
    requires Legal(v) && Operands(e, s => v(s).tri != MOD)
    ensures Eval(Simplified(e), v) == Eval(e, v)
  {
    NoModOperands(e, v);
    SimplifiedSettles(e, v);
  }

  // The loop of expr_eliminate_dups.
  method EliminateDups(e: Expr) returns (r: Expr)
    ensures r == Simplified(e)
  {
    r := e;
    var transCount := 1;
    while transCount != 0
      invariant Simplified(r) == Simplified(e)
      invariant transCount == 0 ==> r == Simplified(e)
      decreases transCount != 0, Size(r)
    {
      RoundCorrect(r, SOME_VALUATION);
      transCount := 0;
      if r.Bin? {
        var first := Dups1(r.op, r, [], []);
        var second := Dups2(r.op, first.tree, [], []);
        r, transCount := second.tree, first.count + second.count;
      }
      if transCount != 0 {
        r := EliminateYn(r);
      }
    }
  }
}
