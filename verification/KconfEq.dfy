/**
  Constant folding, structural equality up to reordering, and extraction of common parts
  (expr_eliminate_yn, expr_eliminate_eq, expr_eq, expr_extract_eq in expr.c).

  The original rewrites expression slots in place; here each rewriter returns the new
  contents of its slots.
 */
module KconfEq {
  import opened KconfExpr

  // ----- expr_eliminate_yn -----

  function EliminateYn(e: Expr): Expr {
    match e
    case Bin(op, l, r) =>
      var l' := EliminateYn(l);
      var r' := EliminateYn(r);
      if l' == Zero(op) then Zero(op)
      else if l' == Unit(op) then r'
      else if r' == Zero(op) then Zero(op)
      else if r' == Unit(op) then l'
      else Bin(op, l', r')
    case _ => e
  }

  // No y or n is left as an operand of && or ||.
  predicate Folded(e: Expr) {
    e.Bin? ==> !IsYN(e.left) && !IsYN(e.right) && Folded(e.left) && Folded(e.right)
  }

  // An operand of some && or || outside a negation is y or n.
  predicate Reducible(e: Expr) {
    e.Bin? && (IsYN(e.left) || IsYN(e.right) || Reducible(e.left) || Reducible(e.right))
  }

  lemma {:induction false} EliminateYnValue(e: Expr, v: Valuation)
    requires Legal(v)
    ensures Eval(EliminateYn(e), v) == Eval(e, v)
  {
    match e
    case Bin(op, l, r) =>
      EliminateYnValue(l, v);
      EliminateYnValue(r, v);
      ConstantValues(v);
    case _ =>
  }

  // Folding reaches a normal form, and shrinks exactly the trees that have something to fold.
  lemma {:induction false} EliminateYnNormal(e: Expr)
    ensures Folded(EliminateYn(e))
    ensures if Reducible(e) then Size(EliminateYn(e)) < Size(e) else EliminateYn(e) == e
  {
    match e
    case Bin(op, l, r) =>
      EliminateYnNormal(l);
      EliminateYnNormal(r);
    case _ =>
  }

  // ----- expr_eq and expr_eliminate_eq -----

  // __expr_eliminate_eq: cancel equal operands of `op` between the two slots.
  function CancelOp(op: Op, e1: Expr, e2: Expr): (r: (Expr, Expr))
    ensures Size(r.0) <= Size(e1) && Size(r.1) <= Size(e2)
    decreases Size(e1) + Size(e2), if Is(op, e1) || Is(op, e2) then 0 else 3
  {
    if Is(op, e1) then
      var (l, e2') := CancelOp(op, e1.left, e2);
      var (r, e2'') := CancelOp(op, e1.right, e2');
      (Bin(op, l, r), e2'')
    else if Is(op, e2) then
      var (e1', l) := CancelOp(op, e1, e2.left);
      var (e1'', r) := CancelOp(op, e1', e2.right);
      (e1'', Bin(op, l, r))
    else if e1 == e2 && IsYN(e1) then
      (e1, e2)
    else if ExprEq(e1, e2) then
      (Unit(op), Unit(op))
    else
      (e1, e2)
  }

  // expr_eliminate_eq
  function EliminateEq(e1: Expr, e2: Expr): (Expr, Expr)
    decreases Size(e1) + Size(e2), 1
  {
    var (a1, a2) := if e1.Bin? then CancelOp(e1.op, e1, e2) else (e1, e2);
    var (b1, b2) := if a2.Bin? && !Is(a2.op, a1) then CancelOp(a2.op, a1, a2) else (a1, a2);
    (EliminateYn(b1), EliminateYn(b2))
  }

  // expr_eq
  predicate ExprEq(e1: Expr, e2: Expr)
    decreases Size(e1) + Size(e2), 2
  {
    match (e1, e2)
    case (Equal(a1, b1), Equal(a2, b2)) => a1 == a2 && b1 == b2
    case (Unequal(a1, b1), Unequal(a2, b2)) => a1 == a2 && b1 == b2
    case (Sym(s1), Sym(s2)) => s1 == s2
    case (Not(a1), Not(a2)) => ExprEq(a1, a2)
    case (Bin(op1, _, _), Bin(op2, _, _)) =>
      op1 == op2 &&
      var (r1, r2) := EliminateEq(e1, e2);
      r1.Sym? && r1 == r2
    case _ => false
  }

  // Regrouping of operands, used wherever two partial removals are combined.
  lemma RegroupBoth(op: Op, a: Expr, b: Expr, a': Expr, b': Expr, c1: Expr, c2: Expr)
    requires Equivalent(a, Bin(op, a', c1)) && Equivalent(b, Bin(op, b', c2))
    ensures Equivalent(Bin(op, a, b), Bin(op, Bin(op, a', b'), Bin(op, c1, c2)))
  {
    forall v: Valuation | Legal(v)
      ensures Eval(Bin(op, a, b), v) == Eval(Bin(op, Bin(op, a', b'), Bin(op, c1, c2)), v)
    {
      assert Eval(a, v) == Apply(op, Eval(a', v), Eval(c1, v));
      assert Eval(b, v) == Apply(op, Eval(b', v), Eval(c2, v));
    }
  }

  lemma RegroupChain(op: Op, a: Expr, a': Expr, a'': Expr, c1: Expr, c2: Expr)
    requires Equivalent(a, Bin(op, a', c1)) && Equivalent(a', Bin(op, a'', c2))
    ensures Equivalent(a, Bin(op, a'', Bin(op, c1, c2)))
  {
    forall v: Valuation | Legal(v)
      ensures Eval(a, v) == Eval(Bin(op, a'', Bin(op, c1, c2)), v)
    {
      assert Eval(a, v) == Apply(op, Eval(a', v), Eval(c1, v));
      assert Eval(a', v) == Apply(op, Eval(a'', v), Eval(c2, v));
    }
  }

  lemma AppendChain(op: Op, a: Expr, a': Expr, a'': Expr, c1: Expr, c2: Expr)
    requires Equivalent(a', Bin(op, a, c1)) && Equivalent(a'', Bin(op, a', c2))
    ensures Equivalent(a'', Bin(op, a, Bin(op, c1, c2)))
  {
    forall v: Valuation | Legal(v)
      ensures Eval(a'', v) == Eval(Bin(op, a, Bin(op, c1, c2)), v)
    {
      assert Eval(a', v) == Apply(op, Eval(a, v), Eval(c1, v));
      assert Eval(a'', v) == Apply(op, Eval(a', v), Eval(c2, v));
    }
  }

  lemma UnitNeutral(op: Op, e: Expr)
    ensures Equivalent(e, Bin(op, e, Unit(op))) && Equivalent(e, Bin(op, Unit(op), e))
  {
    forall v: Valuation | Legal(v)
      ensures Eval(Bin(op, e, Unit(op)), v) == Eval(e, v) == Eval(Bin(op, Unit(op), e), v)
    {
      UnitAndZero(op, v);
    }
  }

  // Cancelling removes one common part from both sides: e1 = op(e1', c) and e2 = op(e2', c).
  lemma {:induction false} CancelOpFactors(op: Op, e1: Expr, e2: Expr) returns (c: Expr)
    ensures Equivalent(e1, Bin(op, CancelOp(op, e1, e2).0, c))
    ensures Equivalent(e2, Bin(op, CancelOp(op, e1, e2).1, c))
    decreases Size(e1) + Size(e2), if Is(op, e1) || Is(op, e2) then 0 else 3
  {
    if Is(op, e1) {
      var (l, e2') := CancelOp(op, e1.left, e2);
      var (r, e2'') := CancelOp(op, e1.right, e2');
      var c1 := CancelOpFactors(op, e1.left, e2);
      var c2 := CancelOpFactors(op, e1.right, e2');
      c := Bin(op, c1, c2);
      RegroupBoth(op, e1.left, e1.right, l, r, c1, c2);
      RegroupChain(op, e2, e2', e2'', c1, c2);
    } else if Is(op, e2) {
      var (e1', l) := CancelOp(op, e1, e2.left);
      var (e1'', r) := CancelOp(op, e1', e2.right);
      var c1 := CancelOpFactors(op, e1, e2.left);
      var c2 := CancelOpFactors(op, e1', e2.right);
      c := Bin(op, c1, c2);
      RegroupBoth(op, e2.left, e2.right, l, r, c1, c2);
      RegroupChain(op, e1, e1', e1'', c1, c2);
    } else if !(e1 == e2 && IsYN(e1)) && ExprEq(e1, e2) {
      c := e1;
      ExprEqSound(e1, e2);
      UnitNeutral(op, e1);
    } else {
      c := Unit(op);
      UnitNeutral(op, e1);
      UnitNeutral(op, e2);
    }
  }

  // What remains after the two passes determines the order of the original values.
  lemma {:induction false} EliminateEqOrder(e1: Expr, e2: Expr, v: Valuation)
    requires Legal(v)
    ensures var (r1, r2) := EliminateEq(e1, e2);
      (Eval(r1, v) <= Eval(r2, v) ==> Eval(e1, v) <= Eval(e2, v)) &&
      (Eval(r2, v) <= Eval(r1, v) ==> Eval(e2, v) <= Eval(e1, v))
    decreases Size(e1) + Size(e2), 1
  {
    var a1, a2 := e1, e2;
    if e1.Bin? {
      var _ := CancelOpFactors(e1.op, e1, e2);
      a1, a2 := CancelOp(e1.op, e1, e2).0, CancelOp(e1.op, e1, e2).1;
    }
    var b1, b2 := a1, a2;
    if a2.Bin? && !Is(a2.op, a1) {
      var _ := CancelOpFactors(a2.op, a1, a2);
      b1, b2 := CancelOp(a2.op, a1, a2).0, CancelOp(a2.op, a1, a2).1;
    }
    EliminateYnValue(b1, v);
    EliminateYnValue(b2, v);
  }

  // expr_eq is sound for three-valued logic.
  lemma {:induction false} ExprEqSound(e1: Expr, e2: Expr)
    requires ExprEq(e1, e2)
    ensures Equivalent(e1, e2)
    decreases Size(e1) + Size(e2), 2
  {
    match (e1, e2)
    case (Not(a1), Not(a2)) => ExprEqSound(a1, a2);
    case (Bin(_, _, _), Bin(_, _, _)) =>
      forall v: Valuation | Legal(v)
        ensures Eval(e1, v) == Eval(e2, v)
      {
        EliminateEqOrder(e1, e2, v);
      }
    case _ =>
  }

  // The test of menu_finalize: if everything in e2 cancels, e2 is implied by e1.
  lemma CancelledIsImplied(e1: Expr, e2: Expr, v: Valuation)
    requires Legal(v)
    requires EliminateEq(e1, e2).1 == Sym(SYMBOL_YES)
    ensures Eval(e1, v) <= Eval(e2, v)
  {
    EliminateEqOrder(e1, e2, v);
    ConstantValues(v);
  }

  // ----- expr_extract_eq -----

  datatype Extraction = Extraction(common: Option<Expr>, left: Expr, right: Expr)

  // The expression slot `*ep`; an empty slot is the neutral constant.
  function CommonPart(op: Op, common: Option<Expr>): Expr {
    if common.None? then Unit(op) else common.value
  }

  // expr_extract_eq: move equal operands of `op` into `common`.
  function ExtractEq(op: Op, common: Option<Expr>, e1: Expr, e2: Expr): (r: Extraction)
    ensures Size(r.left) <= Size(e1) && Size(r.right) <= Size(e2)
    decreases Size(e1) + Size(e2)
  {
    if Is(op, e1) then
      var x := ExtractEq(op, common, e1.left, e2);
      var y := ExtractEq(op, x.common, e1.right, x.right);
      Extraction(y.common, Bin(op, x.left, y.left), y.right)
    else if Is(op, e2) then
      var x := ExtractEq(op, common, e1, e2.left);
      var y := ExtractEq(op, x.common, x.left, e2.right);
      Extraction(y.common, y.left, Bin(op, x.right, y.right))
    else if ExprEq(e1, e2) then
      Extraction(Some(if common.Some? then Bin(op, common.value, e1) else e1), Unit(op), Unit(op))
    else
      Extraction(common, e1, e2)
  }

  // expr_extract_eq_and, expr_extract_eq_or
  function ExtractCommon(op: Op, e1: Expr, e2: Expr): Extraction {
    var x := ExtractEq(op, None, e1, e2);
    if x.common.Some? then x.(left := EliminateYn(x.left), right := EliminateYn(x.right)) else x
  }

  // Both sides split exactly into what stays and what was moved since `common`.
  lemma {:induction false} ExtractEqFactors(op: Op, common: Option<Expr>, e1: Expr, e2: Expr)
    returns (moved: Expr)
    ensures var x := ExtractEq(op, common, e1, e2);
      && Equivalent(CommonPart(op, x.common), Bin(op, CommonPart(op, common), moved))
      && Equivalent(e1, Bin(op, x.left, moved))
      && Equivalent(e2, Bin(op, x.right, moved))
    decreases Size(e1) + Size(e2)
  {
    if Is(op, e1) {
      var x := ExtractEq(op, common, e1.left, e2);
      var m1 := ExtractEqFactors(op, common, e1.left, e2);
      var y := ExtractEq(op, x.common, e1.right, x.right);
      var m2 := ExtractEqFactors(op, x.common, e1.right, x.right);
      moved := Bin(op, m1, m2);
      RegroupBoth(op, e1.left, e1.right, x.left, y.left, m1, m2);
      RegroupChain(op, e2, x.right, y.right, m1, m2);
      AppendChain(op, CommonPart(op, common), CommonPart(op, x.common), CommonPart(op, y.common), m1, m2);
    } else if Is(op, e2) {
      var x := ExtractEq(op, common, e1, e2.left);
      var m1 := ExtractEqFactors(op, common, e1, e2.left);
      var y := ExtractEq(op, x.common, x.left, e2.right);
      var m2 := ExtractEqFactors(op, x.common, x.left, e2.right);
      moved := Bin(op, m1, m2);
      RegroupBoth(op, e2.left, e2.right, x.right, y.right, m1, m2);
      RegroupChain(op, e1, x.left, y.left, m1, m2);
      AppendChain(op, CommonPart(op, common), CommonPart(op, x.common), CommonPart(op, y.common), m1, m2);
    } else if ExprEq(e1, e2) {
      moved := e1;
      ExprEqSound(e1, e2);
      UnitNeutral(op, e1);
    } else {
      moved := Unit(op);
      UnitNeutral(op, e1);
      UnitNeutral(op, e2);
      UnitNeutral(op, CommonPart(op, common));
    }
  }

  // expr_extract_eq_and/or factor both arguments through the extracted expression.
  lemma ExtractCommonFactors(op: Op, e1: Expr, e2: Expr)
    ensures var x := ExtractCommon(op, e1, e2);
      && Equivalent(e1, Bin(op, x.left, CommonPart(op, x.common)))
      && Equivalent(e2, Bin(op, x.right, CommonPart(op, x.common)))
  {
    var x := ExtractEq(op, None, e1, e2);
    var moved := ExtractEqFactors(op, None, e1, e2);
    var y := ExtractCommon(op, e1, e2);
    forall v: Valuation | Legal(v)
      ensures Eval(e1, v) == Eval(Bin(op, y.left, CommonPart(op, y.common)), v)
      ensures Eval(e2, v) == Eval(Bin(op, y.right, CommonPart(op, y.common)), v)
    {
      EliminateYnValue(x.left, v);
      EliminateYnValue(x.right, v);
      assert Eval(CommonPart(op, x.common), v) == Eval(moved, v) by {
        UnitAndZero(op, v);
        assert Eval(CommonPart(op, x.common), v) == Apply(op, Eval(Unit(op), v), Eval(moved, v));
      }
      assert Eval(e1, v) == Apply(op, Eval(x.left, v), Eval(moved, v));
      assert Eval(e2, v) == Apply(op, Eval(x.right, v), Eval(moved, v));
    }
  }
}
