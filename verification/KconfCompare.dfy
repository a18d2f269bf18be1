/**
  Comparing a whole expression with y or n (expr_trans_compare), the boolean shortcut
  (expr_trans_bool), and the dependency tests with which menu_finalize nests entries
  (expr_contains_symbol, expr_depends_symbol; expr.c, menu.c).
 */
module KconfCompare {
  import opened KconfExpr
  import opened KconfEq
  import opened KconfEqExact
  import opened KconfTransform
  import opened KconfSlots
  import opened KconfDups
  import opened KconfDupsExact

  // ----- expr_trans_compare -----

  datatype Comparison = Eq | Ne

  function Flip(c: Comparison): Comparison {
    if c == Eq then Ne else Eq
  }

  function Compare(c: Comparison, a: Symbol, b: Symbol): Expr {
    if c == Eq then Equal(a, b) else Unequal(a, b)
  }

  function NegateIf(c: Comparison, e: Expr): Expr {
    if c == Ne then Not(e) else e
  }

  // `s` is y or n, as at both call sites; a missing expression stands for y.
  function TransCompare(e: Option<Expr>, c: Comparison, s: Symbol): Expr
    requires s == SYMBOL_YES || s == SYMBOL_NO
  {
    if e.None? then NegateIf(c, Sym(s)) else CompareExpr(e.value, c, s)
  }

  function CompareExpr(e: Expr, c: Comparison, s: Symbol): Expr
    requires s == SYMBOL_YES || s == SYMBOL_NO
  {
    match e
    case Bin(op, l, r) =>
      NegateIf(c, Bin(if s == SYMBOL_YES then op else Dual(op), CompareExpr(l, Eq, s), CompareExpr(r, Eq, s)))
    case Not(a) => CompareExpr(a, Flip(c), s)
    case Sym(t) => Compare(c, t, s)
    case _ => if (c == Eq) == (s == SYMBOL_YES) then e else Not(e)
  }

  // The two conditions under which the translation is faithful: operands that are symbols
  // have boolean-like strings, and no operand of a negation is m.
  ghost predicate NoModUnderNot(e: Expr, v: Valuation) {
    match e
    case Not(a) => Eval(a, v) != MOD && NoModUnderNot(a, v)
    case Bin(_, l, r) => NoModUnderNot(l, v) && NoModUnderNot(r, v)
    case _ => true
  }

  predicate Holds(c: Comparison, x: Tristate, y: Tristate) {
    (x == y) == (c == Eq)
  }

  // The valuation the translation really works in: comparing with y, a symbol counts as y if
  // its string is y and as n otherwise; comparing with n, as n if its string is n, else as y.
  function Rounded(v: Valuation, s: Symbol): Valuation {
    (t: Symbol) => Value(Truth(if s == SYMBOL_YES then v(t).str == "y" else v(t).str != "n"), v(t).str)
  }

  lemma {:induction false} RoundedNotMod(e: Expr, s: Symbol, v: Valuation)
    ensures Eval(e, Rounded(v, s)) != MOD
  {
    match e
    case Not(a) => RoundedNotMod(a, s, v);
    case Bin(_, l, r) => RoundedNotMod(l, s, v); RoundedNotMod(r, s, v);
    case _ =>
  }

  // Without any condition, the translation is the comparison of the rounded expression.
  lemma {:induction false} CompareRounded(e: Expr, c: Comparison, s: Symbol, v: Valuation)
    requires s == SYMBOL_YES || s == SYMBOL_NO
    requires Legal(v)
    ensures Eval(CompareExpr(e, c, s), v) == Truth(Holds(c, Eval(e, Rounded(v, s)), v(s).tri))
  {
    ConstantValues(v);
    LettersDiffer(NO, YES);
    RoundedNotMod(e, s, v);
    match e
    case Bin(op, l, r) =>
      RoundedNotMod(l, s, v);
      RoundedNotMod(r, s, v);
      CompareRounded(l, Eq, s, v);
      CompareRounded(r, Eq, s, v);
    case Not(a) =>
      RoundedNotMod(a, s, v);
      CompareRounded(a, Flip(c), s, v);
    case _ =>
  }

  // Hence it is the truth of the comparison exactly if rounding does not change whether the
  // expression has the value compared with.
  lemma CompareExact(e: Expr, c: Comparison, s: Symbol, v: Valuation)
    requires s == SYMBOL_YES || s == SYMBOL_NO
    requires Legal(v)
    ensures Eval(CompareExpr(e, c, s), v) == Truth(Holds(c, Eval(e, v), v(s).tri))
      <==> (Eval(e, Rounded(v, s)) == v(s).tri <==> Eval(e, v) == v(s).tri)
  {
    CompareRounded(e, c, s, v);
  }

  lemma {:induction false} CompareExprValue(e: Expr, c: Comparison, s: Symbol, v: Valuation)
    requires s == SYMBOL_YES || s == SYMBOL_NO
    requires Legal(v) && Operands(e, IsTri) && NoModUnderNot(e, v)
    ensures Eval(CompareExpr(e, c, s), v) == Truth(Holds(c, Eval(e, v), v(s).tri))
  {
    ConstantValues(v);
    match e
    case Bin(op, l, r) =>
      CompareExprValue(l, Eq, s, v);
      CompareExprValue(r, Eq, s, v);
    case Not(a) => CompareExprValue(a, Flip(c), s, v);
    case Sym(t) => BooleanComparison(t, s, v);
    case _ =>
  }

  // Both conditions are needed.  A negation is translated faithfully exactly if its operand
  // is not m, and a symbol that is neither boolean nor tristate exactly if its string does
  // not look like the letter of another value.
  lemma CompareNotExact(a: Expr, c: Comparison, s: Symbol, v: Valuation)
    requires s == SYMBOL_YES || s == SYMBOL_NO
    requires Legal(v) && Operands(a, IsTri) && NoModUnderNot(a, v)
    ensures Eval(CompareExpr(Not(a), c, s), v) == Truth(Holds(c, Eval(Not(a), v), v(s).tri))
      <==> Eval(a, v) != MOD
  {
    CompareExprValue(a, Flip(c), s, v);
    ConstantValues(v);
  }

  lemma CompareStringExact(t: Symbol, c: Comparison, v: Valuation)
    requires Legal(v) && !IsTri(t)
    ensures Eval(CompareExpr(Sym(t), c, SYMBOL_YES), v) == Truth(Holds(c, v(t).tri, YES)) <==> v(t).str != "y"
    ensures Eval(CompareExpr(Sym(t), c, SYMBOL_NO), v) == Truth(Holds(c, v(t).tri, NO)) <==> v(t).str == "n"
  {
    ConstantValues(v);
    assert LegalValue(t, v(t));
  }

  // ----- expr_trans_bool -----

  function TransBool(e: Expr): Expr {
    match e
    case Bin(op, l, r) => Bin(op, TransBool(l), TransBool(r))
    case Not(a) => Not(TransBool(a))
    case Unequal(a, b) => if HasType(a, TristateType) && b == SYMBOL_NO then Sym(a) else e
    case _ => e
  }

  // On negation normal form, whether the value is n does not change.
  lemma {:induction false} TransBoolVisible(e: Expr, v: Valuation)
    requires Legal(v) && Normal(e)
    ensures Eval(TransBool(e), v) == NO <==> Eval(e, v) == NO
  {
    match e
    case Bin(_, l, r) => TransBoolVisible(l, v); TransBoolVisible(r, v);
    case Unequal(a, b) => BooleanComparison(a, b, v);
    case _ =>
  }

  // Some tristate is compared with n by !=.
  predicate ComparesTristate(e: Expr) {
    match e
    case Bin(_, l, r) => ComparesTristate(l) || ComparesTristate(r)
    case Not(a) => ComparesTristate(a)
    case Unequal(a, b) => HasType(a, TristateType) && b == Const("n")
    case _ => false
  }

  // None of these comparisons is left, and an expression without one is left alone.
  lemma {:induction false} TransBoolExact(e: Expr)
    ensures !ComparesTristate(TransBool(e))
    ensures TransBool(e) == e <==> !ComparesTristate(e)
  {
    match e
    case Bin(_, l, r) => TransBoolExact(l); TransBoolExact(r);
    case Not(a) => TransBoolExact(a);
    case _ =>
  }

  // Above a rewritten comparison, a negation is kept exactly if the symbol is not m.
  lemma TransBoolNotExact(a: Symbol, v: Valuation)
    requires Legal(v) && HasType(a, TristateType)
    ensures var e := Not(Unequal(a, SYMBOL_NO));
      (Eval(TransBool(e), v) == NO <==> Eval(e, v) == NO) <==> v(a).tri != MOD
  {
    BooleanComparison(a, SYMBOL_NO, v);
    assert TransBool(Unequal(a, SYMBOL_NO)) == Sym(a);
  }

  // ----- Nesting entries below a symbol -----

  // expr_contains_symbol
  predicate ContainsSymbol(e: Option<Expr>, s: Symbol) {
    e.Some? && Mentions(e.value, s)
  }

  predicate Mentions(e: Expr, s: Symbol) {
    match e
    case Bin(_, l, r) => Mentions(l, s) || Mentions(r, s)
    case Not(a) => Mentions(a, s)
    case Sym(t) => t == s
    case Equal(a, b) => a == s || b == s
    case Unequal(a, b) => a == s || b == s
  }

  // expr_depends_symbol
  predicate DependsSymbol(e: Expr, s: Symbol) {
    match e
    case Bin(AndOp, l, r) => DependsSymbol(l, s) || DependsSymbol(r, s)
    case Sym(t) => t == s
    case Equal(a, b) => a == s && b in {SYMBOL_YES, SYMBOL_MOD}
    case Unequal(a, b) => a == s && b == SYMBOL_NO
    case _ => false
  }

  // One of the conjuncts of e is c.
  predicate Conjunct(e: Expr, c: Expr) {
    e == c || (Is(AndOp, e) && (Conjunct(e.left, c) || Conjunct(e.right, c)))
  }

  // Exactly the conditions with a conjunct that is the symbol, or compares it so that it is not n.
  lemma {:induction false} DependsSymbolExact(e: Expr, s: Symbol)
    ensures DependsSymbol(e, s) <==>
      || Conjunct(e, Sym(s)) || Conjunct(e, Unequal(s, Const("n")))
      || Conjunct(e, Equal(s, Const("y"))) || Conjunct(e, Equal(s, Const("m")))
  {
    match e
    case Bin(AndOp, l, r) => DependsSymbolExact(l, s); DependsSymbolExact(r, s);
    case _ =>
  }

  // The string of a boolean or tristate symbol is n exactly if its value is.
  lemma {:induction false} DependsSymbolSound(e: Expr, s: Symbol, v: Valuation)
    requires Legal(v) && DependsSymbol(e, s) && Eval(e, v) != NO
    ensures v(s).str != "n" && (IsTri(s) ==> v(s).tri != NO)
  {
    ConstantValues(v);
    BooleanComparison(s, SYMBOL_NO, v);
    LettersDiffer(NO, YES);
    LettersDiffer(NO, MOD);
    match e
    case Bin(AndOp, l, r) =>
      if DependsSymbol(l, s) { DependsSymbolSound(l, s, v); } else { DependsSymbolSound(r, s, v); }
    case Sym(t) => assert LegalValue(s, v(s));
    case _ =>
  }

  // "e is not n" in the simplified form both sides of the test are brought to
  function NotNo(e: Option<Expr>): Expr {
    Simplified(Transform(TransCompare(e, Ne, SYMBOL_NO)))
  }

  // The condition on which menu_finalize moves a following entry with dependency `dep`
  // below an entry for `s` whose prompt has visibility `visible`.
  predicate NestsBelow(s: Symbol, visible: Option<Expr>, dep: Option<Expr>) {
    ContainsSymbol(dep, s) &&
    (DependsSymbol(dep.value, s) || EliminateEq(NotNo(dep), NotNo(visible)).1 == Sym(SYMBOL_YES))
  }

  // Below a prompt without a condition nests every entry that mentions the symbol.
  lemma NestsUnconditional(s: Symbol, dep: Option<Expr>)
    ensures NestsBelow(s, None, dep) <==> ContainsSymbol(dep, s)
  {
    NotNoNone();
    EliminateEqYN(NotNo(dep), Sym(SYMBOL_YES));
  }

  lemma NotNoNone()
    ensures NotNo(None) == Sym(SYMBOL_YES)
  {
    assert Transform(Not(Sym(SYMBOL_NO))) == Sym(SYMBOL_YES);
  }

  // Otherwise, besides mentioning the symbol, an entry has to depend on it, or to repeat every
  // condition of the prompt among its own.  Between two single conditions that is not tried.
  lemma NestsExact(s: Symbol, visible: Option<Expr>, dep: Option<Expr>)
    requires var d, b := NotNo(dep), NotNo(visible);
      Tidy(d) && Tidy(b) && !IsYN(d) && !IsYN(b) && !Is(OrOp, d) && !Is(OrOp, b)
    ensures NestsBelow(s, visible, dep) <==>
      && ContainsSymbol(dep, s)
      && (|| DependsSymbol(dep.value, s)
          || ((NotNo(dep).Bin? || NotNo(visible).Bin?) &&
              OperandsOf(AndOp, NotNo(visible)) <= OperandsOf(AndOp, NotNo(dep))))
  {
    var d, b := NotNo(dep), NotNo(visible);
    if d.Bin? || b.Bin? {
      EliminateEqExact(AndOp, d, b);
    } else {
      EliminateEqOperands(d, b);
    }
  }

  ghost predicate Comparable(e: Option<Expr>, v: Valuation) {
    e.Some? ==> Operands(e.value, IsTri) && NoModUnderNot(e.value, v)
  }

  // The simplified form is y or n, and says whether the rounded expression is not n.
  lemma NotNoRounded(e: Option<Expr>, v: Valuation)
    requires Legal(v)
    ensures Eval(NotNo(e), v) == Truth(EvalOr(e, YES, Rounded(v, SYMBOL_NO)) != NO)
  {
    var t := TransCompare(e, Ne, SYMBOL_NO);
    ConstantValues(v);
    if e.Some? { CompareRounded(e.value, Ne, SYMBOL_NO, v); }
    TransformValue(t, v);
    SimplifiedSettles(Transform(t), v);
  }

  // So it says whether the expression is not n exactly if rounding does not change that.
  lemma NotNoExact(e: Option<Expr>, v: Valuation)
    requires Legal(v)
    ensures Eval(NotNo(e), v) == Truth(EvalOr(e, YES, v) != NO)
      <==> (EvalOr(e, YES, Rounded(v, SYMBOL_NO)) == NO <==> EvalOr(e, YES, v) == NO)
  {
    NotNoRounded(e, v);
  }

  lemma NotNoValue(e: Option<Expr>, v: Valuation)
    requires Legal(v) && Comparable(e, v)
    ensures Eval(NotNo(e), v) == Truth(EvalOr(e, YES, v) != NO)
  {
    var t := TransCompare(e, Ne, SYMBOL_NO);
    ConstantValues(v);
    if e.Some? { CompareExprValue(e.value, Ne, SYMBOL_NO, v); }
    TransformValue(t, v);
    SimplifiedSettles(Transform(t), v);
  }

  // What nesting guarantees on every valuation: an entry whose rounded condition is not n sits
  // below a symbol that is set or whose prompt has a rounded visibility other than n.
  lemma NestedBelowRounded(s: Symbol, visible: Option<Expr>, dep: Option<Expr>, v: Valuation)
    requires Legal(v) && NestsBelow(s, visible, dep)
    requires EvalOr(dep, YES, Rounded(v, SYMBOL_NO)) != NO && EvalOr(dep, YES, v) != NO
    ensures v(s).str != "n" || EvalOr(visible, YES, Rounded(v, SYMBOL_NO)) != NO
  {
    if DependsSymbol(dep.value, s) {
      DependsSymbolSound(dep.value, s, v);
    } else {
      CancelledIsImplied(NotNo(dep), NotNo(visible), v);
      NotNoRounded(dep, v);
      NotNoRounded(visible, v);
    }
  }

  // A nested entry can be visible only while the symbol above it is set or visible itself,
  // as long as neither condition has an operand m under a negation.
  lemma NestedBelowReachable(s: Symbol, visible: Option<Expr>, dep: Option<Expr>, v: Valuation)
    requires Legal(v) && Comparable(visible, v) && Comparable(dep, v)
    requires NestsBelow(s, visible, dep) && EvalOr(dep, YES, v) != NO
    ensures v(s).str != "n" || EvalOr(visible, YES, v) != NO
  {
    NotNoValue(dep, v);
    NotNoValue(visible, v);
    NotNoRounded(dep, v);
    NotNoRounded(visible, v);
    NestedBelowRounded(s, visible, dep, v);
  }

  // ----- Inherited dependencies -----

  // expr_alloc_and, where a missing expression stands for y
  function AllocAnd(a: Option<Expr>, b: Option<Expr>): Option<Expr> {
    if a.None? then b else if b.None? then a else Some(Bin(AndOp, a.value, b.value))
  }

  // The dependency menu_finalize gives an entry: what it inherits, and what it states itself.
  function Inherit(parent: Option<Expr>, dep: Option<Expr>): Option<Expr> {
    var own := if dep.None? then None else Some(Transform(dep.value));
    var all := AllocAnd(parent, own);
    if all.None? then None else Some(Simplified(all.value))
  }

  // The dependency of an entry from the conditions stated on the way down to it.
  function Inherited(path: seq<Option<Expr>>): Option<Expr> {
    if path == [] then None else Inherit(Inherited(path[..|path| - 1]), path[|path| - 1])
  }

  function AllOf(path: seq<Option<Expr>>, v: Valuation): Tristate {
    if path == [] then YES else Apply(AndOp, AllOf(path[..|path| - 1], v), EvalOr(path[|path| - 1], YES, v))
  }

  // What an entry inherits is simplified: no chain of it repeats an operand or could be joined.
  lemma InheritIrreducible(parent: Option<Expr>, dep: Option<Expr>, c: Expr, p: Path, q: Path)
    requires Inherit(parent, dep).Some? && Within(c, Inherit(parent, dep).value) && TwoOperands(c, p, q)
    ensures !ExprEq(At(c.op, c, p), At(c.op, c, q)) && !Rule(c.op, At(c.op, c, p), At(c.op, c, q))
  {
    var own := if dep.None? then None else Some(Transform(dep.value));
    SimplifiedIrreducible(AllocAnd(parent, own).value, c, p, q);
  }

  lemma InheritSettles(parent: Option<Expr>, dep: Option<Expr>, v: Valuation)
    requires Legal(v)
    ensures Settles(Apply(AndOp, EvalOr(parent, YES, v), EvalOr(dep, YES, v)), EvalOr(Inherit(parent, dep), YES, v))
  {
    var own := if dep.None? then None else Some(Transform(dep.value));
    if dep.Some? {
      TransformValue(dep.value, v);
    }
    var all := AllocAnd(parent, own);
    if all.Some? {
      SimplifiedSettles(all.value, v);
    }
  }

  // However deep the entry: unless it is m, the conjunction of all conditions stated on the
  // way down is the value of the dependency the entry ends up with.
  lemma {:induction false} InheritedValue(path: seq<Option<Expr>>, v: Valuation)
    requires Legal(v)
    ensures AllOf(path, v) != MOD ==> EvalOr(Inherited(path), YES, v) == AllOf(path, v)
    ensures Settles(AllOf(path, v), EvalOr(Inherited(path), YES, v))
  {
    if path != [] {
      InheritedValue(path[..|path| - 1], v);
      InheritSettles(Inherited(path[..|path| - 1]), path[|path| - 1], v);
    }
  }

  // ----- Property visibility -----

  // The visibility menu_finalize computes for a property of a non-tristate symbol.
  function PropertyVisible(menuDep: Option<Expr>, dep: Option<Expr>): Option<Expr> {
    var all := Inherit(menuDep, dep);
    if all.None? then None else Some(TransBool(all.value))
  }

  lemma InheritNormal(parent: Option<Expr>, dep: Option<Expr>, v: Valuation)
    requires Legal(v) && (parent.Some? ==> Normal(parent.value))
    ensures Inherit(parent, dep).Some? ==> Normal(Inherit(parent, dep).value)
  {
    if dep.Some? {
      TransformNormal(dep.value);
    }
    var own := if dep.None? then None else Some(Transform(dep.value));
    var all := AllocAnd(parent, own);
    if all.Some? {
      SimplifiedSettles(all.value, v);
    }
  }

  // With or without a menu condition and a condition of its own, the property is invisible
  // exactly if their conjunction is n, when that conjunction is not m.
  lemma PropertyVisibleCorrect(menuDep: Option<Expr>, dep: Option<Expr>, v: Valuation)
    requires Legal(v) && (menuDep.Some? ==> Normal(menuDep.value))
    ensures var both := Apply(AndOp, EvalOr(menuDep, YES, v), EvalOr(dep, YES, v));
      both != MOD ==> (EvalOr(PropertyVisible(menuDep, dep), YES, v) == NO <==> both == NO)
  {
    InheritSettles(menuDep, dep, v);
    InheritNormal(menuDep, dep, v);
    if Inherit(menuDep, dep).Some? {
      TransBoolVisible(Inherit(menuDep, dep).value, v);
    }
  }
}
