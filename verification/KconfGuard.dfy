/**
  Prompts of choice members (menu_finalize in menu.c): each depends on the choice, and
  simplifying the prompt does not lose that.
 */
module KconfGuard {
  import opened KconfExpr
  import opened KconfEq
  import opened KconfSlots
  import opened KconfTransform
  import opened KconfDups
  import opened KconfCompare

  // ----- What simplifying keeps of an && chain -----

  // The && chain without its || operands.
  function Strip(e: Expr): Expr {
    match e
    case Bin(AndOp, l, r) => Bin(AndOp, Strip(l), Strip(r))
    case Bin(OrOp, _, _) => Sym(SYMBOL_YES)
    case _ => e
  }

  // The conjuncts that are not disjunctions bound the value.
  function Cap(e: Expr, v: Valuation): Tristate {
    Eval(Strip(e), v)
  }

  lemma {:induction false} CapBounds(e: Expr, v: Valuation)
    requires Legal(v)
    ensures Eval(e, v) <= Cap(e, v)
  {
    ConstantValues(v);
    match e
    case Bin(AndOp, l, r) => CapBounds(l, v); CapBounds(r, v);
    case _ =>
  }

  lemma {:induction false} StripShape(e: Expr)
    ensures ShapeOf(AndOp, Strip(e)) == ShapeOf(AndOp, e)
  {
    match e
    case Bin(AndOp, l, r) => StripShape(l); StripShape(r);
    case _ =>
  }

  lemma {:induction false} StripPut(e: Expr, p: Path, x: Expr)
    requires Slot(AndOp, e, p)
    ensures Slot(AndOp, Strip(e), p) && At(AndOp, Strip(e), p) == Strip(At(AndOp, e, p))
    ensures Strip(Put(AndOp, e, p, x)) == Put(AndOp, Strip(e), p, Strip(x))
  {
    if p != [] {
      StripPut(Child(e, p[0]), p[1..], x);
    }
  }

  lemma {:induction false} YnCap(e: Expr, v: Valuation)
    requires Legal(v)
    ensures Cap(EliminateYn(e), v) <= Cap(e, v)
  {
    match e
    case Bin(op, l, r) =>
      YnCap(l, v);
      YnCap(r, v);
      FoldCap(op, EliminateYn(l), EliminateYn(r), EliminateYn(e), v);
    case _ =>
  }

  // Folding one operator over folded operands.
  lemma FoldCap(op: Op, l: Expr, r: Expr, e: Expr, v: Valuation)
    requires Legal(v)
    requires e == (if l == Zero(op) then l else if l == Unit(op) then r else if r == Zero(op) then r else if r == Unit(op) then l
                   else Bin(op, l, r))
    ensures op == AndOp ==> Cap(e, v) <= Cap(l, v) && Cap(e, v) <= Cap(r, v)
  {
    ConstantValues(v);
  }

  // Lowering one operand lowers the cap.
  lemma PutCap(e: Expr, p: Path, x: Expr, v: Valuation)
    requires Slot(AndOp, e, p) && Legal(v) && Cap(x, v) <= Cap(At(AndOp, e, p), v)
    ensures Cap(Put(AndOp, e, p, x), v) <= Cap(e, v)
  {
    StripPut(e, p, x);
    PutValue(AndOp, Strip(e), p, Strip(x), v);
  }

  // Equal operands of a chain are both disjunctions or neither.
  lemma JoinCap(e1: Expr, e2: Expr, v: Valuation)
    requires Join(AndOp, e1, e2).Some? && !Is(AndOp, e1) && !Is(AndOp, e2) && Legal(v)
    ensures var j := Join(AndOp, e1, e2).value;
      !Is(AndOp, j) && Cap(j, v) == Apply(AndOp, Cap(e1, v), Cap(e2, v))
  {
    JoinSound(AndOp, e1, e2);
    var j := Join(AndOp, e1, e2).value;
    assert Eval(j, v) == Eval(Bin(AndOp, e1, e2), v);
    if ExprEq(e1, e2) {
      assert e1.Bin? == e2.Bin?;
    } else {
      assert !e1.Bin? && !e2.Bin? && !j.Bin?;
    }
  }

  // Cleaning the chain inside a disjunction leaves a disjunction.
  lemma InnerCap(e: Expr, tree: Expr, v: Valuation)
    requires !Is(AndOp, e) && (if e.Bin? then ShapeOf(e.op, tree) == ShapeOf(e.op, e) else tree == e)
    ensures !Is(AndOp, tree) && Cap(tree, v) == Cap(e, v)
  {
  }

  lemma Dups1OperandsCap(root: Expr, p1: Path, p2: Path, v: Valuation)
    requires Operand(AndOp, root, p1) && Operand(AndOp, root, p2) && p1 != p2 && Legal(v)
    ensures Cap(Dups1Operands(AndOp, root, p1, p2).tree, v) <= Cap(root, v)
  {
    var e1, e2 := At(AndOp, root, p1), At(AndOp, root, p2);
    PutOperand(AndOp, root, p1, e1);
    var inner := Inner1(e1).tree;
    InnerCap(e1, inner, v);
    PutOperand(AndOp, root, p1, inner);
    if Join(AndOp, inner, e2).None? {
      PutCap(root, p1, inner, v);
    } else {
      JoinedCap(root, p1, p2, inner, Join(AndOp, inner, e2).value, v);
    }
  }

  // The joined operand goes to one slot and y to the other.
  lemma JoinedCap(root: Expr, p1: Path, p2: Path, inner: Expr, joined: Expr, v: Valuation)
    requires Operand(AndOp, root, p1) && Operand(AndOp, root, p2) && p1 != p2 && Legal(v)
    requires !Is(AndOp, inner) && Cap(inner, v) == Cap(At(AndOp, root, p1), v)
    requires Join(AndOp, inner, At(AndOp, root, p2)) == Some(joined)
    ensures Slot(AndOp, Put(AndOp, root, p2, joined), p1)
    ensures Cap(Put(AndOp, Put(AndOp, root, p2, joined), p1, Sym(SYMBOL_YES)), v) == Cap(root, v)
  {
    var e2 := At(AndOp, root, p2);
    JoinCap(inner, e2, v);
    PutOperand(AndOp, root, p2, joined);
    PutOther(AndOp, root, p2, p1, joined);
    ConstantValues(v);
    StripPut(root, p1, joined);
    StripPut(root, p2, joined);
    StripPut(Put(AndOp, root, p2, joined), p1, Sym(SYMBOL_YES));
    StripOperands(root, p1);
    StripOperands(root, p2);
    PutTwoValue(AndOp, Strip(root), p2, p1, Strip(joined), Sym(SYMBOL_YES), v);
  }

  lemma StripOperands(root: Expr, p: Path)
    requires Operand(AndOp, root, p)
    ensures Operand(AndOp, Strip(root), p)
  {
    StripPut(root, p, root);
  }

  lemma {:induction false} Dups1Cap(root: Expr, p1: Path, p2: Path, v: Valuation)
    requires Slot(AndOp, root, p1) && Slot(AndOp, root, p2) && Legal(v)
    ensures Cap(Dups1(AndOp, root, p1, p2).tree, v) <= Cap(root, v)
    decreases Nodes(AndOp, At(AndOp, root, p1)) + Nodes(AndOp, At(AndOp, root, p2))
  {
    if Is(AndOp, At(AndOp, root, p1)) {
      AtChild(AndOp, root, p1, Left); AtChild(AndOp, root, p1, Right);
      var a := Dups1(AndOp, root, p1 + [Left], p2);
      SlotsAfter(AndOp, root, a.tree, p1 + [Right]); SlotsAfter(AndOp, root, a.tree, p2);
      Dups1Cap(root, p1 + [Left], p2, v);
      Dups1Cap(a.tree, p1 + [Right], p2, v);
    } else if Is(AndOp, At(AndOp, root, p2)) {
      AtChild(AndOp, root, p2, Left); AtChild(AndOp, root, p2, Right);
      var a := Dups1(AndOp, root, p1, p2 + [Left]);
      SlotsAfter(AndOp, root, a.tree, p1); SlotsAfter(AndOp, root, a.tree, p2 + [Right]);
      Dups1Cap(root, p1, p2 + [Left], v);
      Dups1Cap(a.tree, p1, p2 + [Right], v);
    } else if p1 != p2 {
      Dups1OperandsCap(root, p1, p2, v);
    }
  }

  lemma Dups2OperandCap(root: Expr, p1: Path, p2: Path, v: Valuation)
    requires Operand(AndOp, root, p1) && Slot(AndOp, root, p2) && p1 != p2 && Legal(v)
    ensures Cap(Dups2Operand(AndOp, root, p1, p2).tree, v) <= Cap(root, v)
  {
    var e1 := At(AndOp, root, p1);
    if e1.Bin? {
      PutOperand(AndOp, root, p1, e1);
      var inner := Inner2(e1).tree;
      InnerCap(e1, inner, v);
      PutOperand(AndOp, root, p1, inner);
      PutCap(root, p1, inner, v);
      var tree := Put(AndOp, root, p1, inner);
      SlotsAfter(AndOp, root, tree, p2);
      ConstantValues(v);
      PutCap(tree, p1, Sym(SYMBOL_NO), v);
    }
  }

  lemma {:induction false} Dups2Cap(root: Expr, p1: Path, p2: Path, v: Valuation)
    requires Slot(AndOp, root, p1) && Slot(AndOp, root, p2) && Legal(v)
    ensures Cap(Dups2(AndOp, root, p1, p2).tree, v) <= Cap(root, v)
    decreases Nodes(AndOp, At(AndOp, root, p1)) + Nodes(AndOp, At(AndOp, root, p2)), 1
  {
    if Is(AndOp, At(AndOp, root, p1)) {
      AtChild(AndOp, root, p1, Left); AtChild(AndOp, root, p1, Right);
      var a := Dups2(AndOp, root, p1 + [Left], p2);
      SlotsAfter(AndOp, root, a.tree, p1 + [Right]); SlotsAfter(AndOp, root, a.tree, p2);
      Dups2Cap(root, p1 + [Left], p2, v);
      Dups2Cap(a.tree, p1 + [Right], p2, v);
    } else {
      Dups2BelowCap(root, p1, p2, v);
      if p1 != p2 {
        var below := Dups2Below(AndOp, root, p1, p2);
        SlotsAfter(AndOp, root, below.tree, p1); SlotsAfter(AndOp, root, below.tree, p2);
        Dups2OperandCap(below.tree, p1, p2, v);
      }
    }
  }

  lemma {:induction false} Dups2BelowCap(root: Expr, p1: Path, p2: Path, v: Valuation)
    requires Operand(AndOp, root, p1) && Slot(AndOp, root, p2) && Legal(v)
    ensures Cap(Dups2Below(AndOp, root, p1, p2).tree, v) <= Cap(root, v)
    decreases Nodes(AndOp, At(AndOp, root, p1)) + Nodes(AndOp, At(AndOp, root, p2)), 0
  {
    if Is(AndOp, At(AndOp, root, p2)) {
      AtChild(AndOp, root, p2, Left); AtChild(AndOp, root, p2, Right);
      var a := Dups2(AndOp, root, p1, p2 + [Left]);
      SlotsAfter(AndOp, root, a.tree, p1); SlotsAfter(AndOp, root, a.tree, p2 + [Right]);
      Dups2Cap(root, p1, p2 + [Left], v);
      Dups2Cap(a.tree, p1, p2 + [Right], v);
    }
  }

  lemma RoundCap(e: Expr, v: Valuation)
    requires Legal(v)
    ensures Cap(Round(e).tree, v) <= Cap(e, v)
  {
    ConstantValues(v);
    if Is(AndOp, e) {
      Dups1Cap(e, [], [], v);
      Dups2Cap(Dups1(AndOp, e, [], []).tree, [], [], v);
    }
  }

  // Simplifying never raises the value above that of a conjunct, not even where it may change an m.
  lemma {:induction false} SimplifiedCap(e: Expr, v: Valuation)
    requires Legal(v)
    ensures Cap(Simplified(e), v) <= Cap(e, v)
    decreases Size(e)
  {
    RoundCorrect(e, v);
    RoundCap(e, v);
    if Round(e).count != 0 {
      YnCap(Round(e).tree, v);
      SimplifiedCap(EliminateYn(Round(e).tree), v);
    }
  }

  // ----- The guards of choice members -----

  // A member's prompt is invisible while the choice is n; while a tristate choice is m, it is
  // invisible if the member is boolean, and else not visible as y.
  ghost predicate GuardedAt(p: Option<Expr>, cs: Symbol, m: Symbol, v: Valuation) {
    && (v(cs).tri == NO ==> EvalOr(p, YES, v) == NO)
    && (HasType(cs, TristateType) && v(cs).tri == MOD ==>
          EvalOr(p, YES, v) <= if HasType(m, BooleanType) then NO else MOD)
  }

  ghost predicate Guarded(p: Option<Expr>, cs: Symbol, m: Symbol) {
    forall v: Valuation | Legal(v) :: GuardedAt(p, cs, m, v)
  }

  // The prompt menu_finalize leaves in a member: the choice, the member's dependency and the
  // prompt's own condition, simplified twice, and for a boolean member of a tristate choice
  // the condition that the choice is y.
  function MemberPrompt(cs: Symbol, m: Symbol, dep: Option<Expr>, cond: Option<Expr>): Option<Expr> {
    var visible := Inherit(Inherit(Some(Sym(cs)), dep), cond);
    var p := if HasType(m, TristateType) || visible.None? then visible else Some(TransBool(visible.value));
    if HasType(cs, TristateType) && !HasType(m, TristateType) then AllocAnd(Some(Equal(cs, SYMBOL_YES)), p) else p
  }

  lemma InheritCap(parent: Expr, dep: Option<Expr>, v: Valuation)
    requires Legal(v)
    ensures Inherit(Some(parent), dep).Some? && Cap(Inherit(Some(parent), dep).value, v) <= Cap(parent, v)
  {
    var all := if dep.None? then parent else Bin(AndOp, parent, Transform(dep.value));
    assert Inherit(Some(parent), dep) == Some(Simplified(all));
    SimplifiedCap(all, v);
  }

  lemma VisibleCapped(cs: Symbol, dep: Option<Expr>, cond: Option<Expr>, v: Valuation)
    requires Legal(v)
    ensures var visible := Inherit(Inherit(Some(Sym(cs)), dep), cond);
      visible.Some? && Normal(visible.value) && Eval(visible.value, v) <= v(cs).tri
  {
    var base := Inherit(Some(Sym(cs)), dep);
    InheritCap(Sym(cs), dep, v);
    InheritCap(base.value, cond, v);
    InheritNormal(Some(Sym(cs)), dep, v);
    InheritNormal(base, cond, v);
    CapBounds(Inherit(base, cond).value, v);
  }

  // However the dependencies simplify, the guard holds.
  lemma MemberPromptGuarded(cs: Symbol, m: Symbol, dep: Option<Expr>, cond: Option<Expr>)
    requires HasType(m, BooleanType) || HasType(m, TristateType)
    ensures Guarded(MemberPrompt(cs, m, dep, cond), cs, m)
  {
    forall v: Valuation | Legal(v)
      ensures GuardedAt(MemberPrompt(cs, m, dep, cond), cs, m, v)
    {
      MemberPromptAt(cs, m, dep, cond, v);
    }
  }

  lemma MemberPromptAt(cs: Symbol, m: Symbol, dep: Option<Expr>, cond: Option<Expr>, v: Valuation)
    requires Legal(v) && (HasType(m, BooleanType) || HasType(m, TristateType))
    ensures GuardedAt(MemberPrompt(cs, m, dep, cond), cs, m, v)
  {
    var visible := Inherit(Inherit(Some(Sym(cs)), dep), cond);
    VisibleCapped(cs, dep, cond, v);
    TransBoolVisible(visible.value, v);
    BooleanComparison(cs, SYMBOL_YES, v);
    if HasType(cs, TristateType) && !HasType(m, TristateType) {
      var p := TransBool(visible.value);
      assert MemberPrompt(cs, m, dep, cond) == Some(Bin(AndOp, Equal(cs, SYMBOL_YES), p));
      assert Eval(Equal(cs, SYMBOL_YES), v) == Truth(v(cs).tri == YES);
    }
  }

  lemma {:induction false} ConjunctBounds(e: Expr, c: Expr, v: Valuation)
    requires Conjunct(e, c)
    ensures Eval(e, v) <= Eval(c, v)
  {
    if e != c {
      if Conjunct(e.left, c) {
        ConjunctBounds(e.left, c, v);
      } else {
        ConjunctBounds(e.right, c, v);
      }
    }
  }

  // A prompt that still shows the choice as a conjunct is guarded, unless a boolean member of a
  // tristate choice needs more.
  lemma ConjunctGuarded(e: Expr, cs: Symbol, m: Symbol)
    requires Conjunct(e, Sym(cs)) && !(HasType(cs, TristateType) && HasType(m, BooleanType))
    ensures Guarded(Some(e), cs, m)
  {
    forall v: Valuation | Legal(v)
      ensures GuardedAt(Some(e), cs, m, v)
    {
      ConjunctBounds(e, Sym(cs), v);
    }
  }
}
