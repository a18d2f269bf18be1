/**
  expr_transform (expr.c): comparisons of boolean symbols become plain symbols, and
  negations are pushed down to symbols.
 */
module KconfTransform {
  import opened KconfExpr

  // A negation weighs twice its operand, so De Morgan steps lose weight.
  function Weight(e: Expr): (w: nat)
    ensures w >= 1
  {
    match e
    case Sym(_) => 1
    case Equal(_, _) => 2
    case Unequal(_, _) => 2
    case Not(a) => 2 * Weight(a)
    case Bin(_, l, r) => 1 + Weight(l) + Weight(r)
  }

  function Transform(e: Expr): (r: Expr)
    ensures Weight(r) <= Weight(e)
    decreases Weight(e)
  {
    match e
    case Sym(_) => e
    case Equal(a, b) =>
      if !HasType(a, BooleanType) then e
      else if b == SYMBOL_NO then Not(Sym(a))
      else if b == SYMBOL_MOD then Sym(SYMBOL_NO)
      else if b == SYMBOL_YES then Sym(a)
      else e
    case Unequal(a, b) =>
      if !HasType(a, BooleanType) then e
      else if b == SYMBOL_NO then Sym(a)
      else if b == SYMBOL_MOD then Sym(SYMBOL_YES)
      else if b == SYMBOL_YES then Not(Sym(a))
      else e
    case Bin(op, l, r) => Bin(op, Transform(l), Transform(r))
    case Not(a) =>
      match Transform(a)
      case Not(x) => Transform(x)
      case Equal(x, y) => Unequal(x, y)
      case Unequal(x, y) => Equal(x, y)
      case Bin(op, l, r) =>
        assert Weight(Not(l)) == 2 * Weight(l) && Weight(Not(r)) == 2 * Weight(r);
        Transform(Bin(Dual(op), Not(l), Not(r)))
      case Sym(s) =>
        if s == SYMBOL_YES then Sym(SYMBOL_NO)
        else if s == SYMBOL_MOD then Sym(SYMBOL_MOD)
        else if s == SYMBOL_NO then Sym(SYMBOL_YES)
        else Not(Sym(s))
  }

  // Negation normal form: `!` only directly above a symbol other than y, m, n, and no
  // boolean symbol compared with y, m or n.
  predicate Normal(e: Expr) {
    match e
    case Sym(_) => true
    case Equal(a, b) => HasType(a, BooleanType) ==> b !in {SYMBOL_YES, SYMBOL_MOD, SYMBOL_NO}
    case Unequal(a, b) => HasType(a, BooleanType) ==> b !in {SYMBOL_YES, SYMBOL_MOD, SYMBOL_NO}
    case Not(a) => a.Sym? && a.sym !in {SYMBOL_YES, SYMBOL_MOD, SYMBOL_NO}
    case Bin(_, l, r) => Normal(l) && Normal(r)
  }

  lemma {:induction false} TransformNormal(e: Expr)
    ensures Normal(Transform(e))
    decreases Weight(e)
  {
    match e
    case Bin(_, l, r) => TransformNormal(l); TransformNormal(r);
    case Not(a) =>
      TransformNormal(a);
      match Transform(a) {
        case Not(x) => TransformNormal(x);
        case Bin(op, l, r) =>
          assert Weight(Not(l)) == 2 * Weight(l) && Weight(Not(r)) == 2 * Weight(r);
          TransformNormal(Bin(Dual(op), Not(l), Not(r)));
        case _ =>
      }
    case _ =>
  }

  // Exactly the normal forms are left alone.
  lemma {:induction false} TransformFixesNormal(e: Expr)
    ensures Transform(e) == e <==> Normal(e)
  {
    if Normal(e) {
      match e
      case Bin(_, l, r) => TransformFixesNormal(l); TransformFixesNormal(r);
      case _ =>
    } else {
      TransformNormal(e);
    }
  }

  lemma TransformIdempotent(e: Expr)
    ensures Transform(Transform(e)) == Transform(e)
  {
    TransformNormal(e);
    TransformFixesNormal(Transform(e));
  }

  lemma {:induction false} TransformValue(e: Expr, v: Valuation)
    requires Legal(v)
    ensures Eval(Transform(e), v) == Eval(e, v)
    decreases Weight(e), 1
  {
    match e
    case Sym(_) =>
    case Equal(a, b) => BooleanComparison(a, b, v);
    case Unequal(a, b) => BooleanComparison(a, b, v);
    case Bin(_, l, r) => TransformValue(l, v); TransformValue(r, v);
    case Not(a) =>
      TransformValue(a, v);
      TransformNotValue(a, Transform(a), v);
  }

  // The negation of an operand that has already been transformed to x.
  lemma {:induction false} TransformNotValue(a: Expr, x: Expr, v: Valuation)
    requires Legal(v) && x == Transform(a) && Eval(x, v) == Eval(a, v) && Weight(x) <= Weight(a)
    ensures Eval(Transform(Not(a)), v) == 2 - Eval(a, v)
    decreases Weight(Not(a)), 0
  {
    match x
    case Not(y) => TransformValue(y, v);
    case Bin(op, l, r) =>
      assert Weight(Not(l)) == 2 * Weight(l) && Weight(Not(r)) == 2 * Weight(r);
      TransformValue(Bin(Dual(op), Not(l), Not(r)), v);
    case Sym(s) => ConstantValues(v);
    case _ =>
  }
}
