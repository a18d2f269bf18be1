/**
  Kconfig dependency expressions and their three-valued meaning (expr.h, expr.c).

  A symbol is either a constant, which the symbol table identifies by its name, or a
  declared symbol with a type.  `y`, `m` and `n` are the constants of those names.
 */
module KconfExpr {
  datatype Option<T> = None | Some(value: T)

  // ----- Tristate values -----

  type Tristate = t: int | 0 <= t <= 2

  const NO: Tristate := 0
  const MOD: Tristate := 1
  const YES: Tristate := 2

  datatype Op = AndOp | OrOp

  // EXPR_AND and EXPR_OR
  function Apply(op: Op, x: Tristate, y: Tristate): Tristate {
    match op
    case AndOp => if x < y then x else y
    case OrOp => if x > y then x else y
  }

  function Dual(op: Op): Op {
    if op == AndOp then OrOp else AndOp
  }

  function Truth(b: bool): Tristate {
    if b then YES else NO
  }

  // m becomes y for symbols that act as booleans.
  function Promoted(boolean: bool, t: Tristate): Tristate {
    if t == MOD && boolean then YES else t
  }

  function Letter(t: Tristate): string {
    if t == NO then "n" else if t == MOD then "m" else "y"
  }

  // ----- Symbols and expressions -----

  datatype SymbolType = UnknownType | BooleanType | TristateType | IntType | HexType | StringType

  datatype Symbol = Const(name: string) | Named(id: nat, kind: SymbolType)

  const SYMBOL_YES := Const("y")
  const SYMBOL_MOD := Const("m")
  const SYMBOL_NO := Const("n")

  predicate HasType(s: Symbol, kind: SymbolType) {
    s.Named? && s.kind == kind
  }

  // Symbols whose string value is the letter of their tristate value.
  predicate IsTri(s: Symbol) {
    s in {SYMBOL_YES, SYMBOL_MOD, SYMBOL_NO} || HasType(s, BooleanType) || HasType(s, TristateType)
  }

  datatype Expr =
    | Sym(sym: Symbol)
    | Not(arg: Expr)
    | Equal(lhs: Symbol, rhs: Symbol)
    | Unequal(lhs: Symbol, rhs: Symbol)
    | Bin(op: Op, left: Expr, right: Expr)

  predicate Is(op: Op, e: Expr) {
    e.Bin? && e.op == op
  }

  // The neutral and the absorbing constant of an operator.
  function Unit(op: Op): Expr {
    Sym(if op == AndOp then SYMBOL_YES else SYMBOL_NO)
  }

  function Zero(op: Op): Expr {
    Sym(if op == AndOp then SYMBOL_NO else SYMBOL_YES)
  }

  predicate IsYN(e: Expr) {
    e == Sym(SYMBOL_YES) || e == Sym(SYMBOL_NO)
  }

  function Size(e: Expr): (n: nat)
    ensures n >= 1
  {
    match e
    case Not(a) => 1 + Size(a)
    case Bin(_, l, r) => 1 + Size(l) + Size(r)
    case _ => 1
  }

  // ----- Meaning -----

  datatype Value = Value(tri: Tristate, str: string)

  type Valuation = Symbol -> Value

  // What symbol evaluation guarantees about the current value of a symbol: constants stand
  // for their own name, booleans are never m, the string of a boolean or tristate is the
  // letter of its value, and every other symbol has tristate value n.
  predicate LegalValue(s: Symbol, x: Value) {
    match s
    case Const(name) =>
      x == Value(if name == "y" then YES else if name == "m" then MOD else NO, name)
    case Named(_, kind) =>
      match kind
      case BooleanType => x.tri != MOD && x.str == Letter(x.tri)
      case TristateType => x.str == Letter(x.tri)
      case _ => x.tri == NO
  }

  ghost predicate Legal(v: Valuation) {
    forall s: Symbol :: LegalValue(s, v(s))
  }

  // expr_calc_value, over symbols whose values are already known
  function Eval(e: Expr, v: Valuation): Tristate {
    match e
    case Sym(s) => v(s).tri
    case Not(a) => 2 - Eval(a, v)
    case Equal(a, b) => Truth(v(a).str == v(b).str)
    case Unequal(a, b) => Truth(v(a).str != v(b).str)
    case Bin(op, l, r) => Apply(op, Eval(l, v), Eval(r, v))
  }

  // The value of an optional expression.
  function EvalOr(e: Option<Expr>, default: Tristate, v: Valuation): Tristate {
    if e.None? then default else Eval(e.value, v)
  }

  ghost predicate Equivalent(a: Expr, b: Expr) {
    forall v: Valuation | Legal(v) :: Eval(a, v) == Eval(b, v)
  }

  lemma ConstantValues(v: Valuation)
    requires Legal(v)
    ensures v(SYMBOL_YES) == Value(YES, "y") && v(SYMBOL_MOD) == Value(MOD, "m") && v(SYMBOL_NO) == Value(NO, "n")
  {
    assert LegalValue(SYMBOL_YES, v(SYMBOL_YES)) && LegalValue(SYMBOL_MOD, v(SYMBOL_MOD))
        && LegalValue(SYMBOL_NO, v(SYMBOL_NO));
  }

  // For a boolean or tristate symbol, comparing strings compares values.
  lemma BooleanComparison(a: Symbol, b: Symbol, v: Valuation)
    requires Legal(v)
    ensures v(SYMBOL_YES) == Value(YES, "y") && v(SYMBOL_MOD) == Value(MOD, "m") && v(SYMBOL_NO) == Value(NO, "n")
    ensures HasType(a, BooleanType) ==> v(a).tri != MOD
    ensures IsTri(a) && IsTri(b) ==> (v(a).str == v(b).str <==> v(a).tri == v(b).tri)
  {
    ConstantValues(v);
    assert LegalValue(a, v(a)) && LegalValue(b, v(b));
    LettersDiffer(v(a).tri, v(b).tri);
  }

  lemma LettersDiffer(s: Tristate, t: Tristate)
    ensures Letter(s) == Letter(t) <==> s == t
  {
    assert Letter(s)[0] == Letter(t)[0] <==> s == t;
  }

  lemma UnitAndZero(op: Op, v: Valuation)
    requires Legal(v)
    ensures Eval(Unit(op), v) == if op == AndOp then YES else NO
    ensures Eval(Zero(op), v) == if op == AndOp then NO else YES
  {
    ConstantValues(v);
  }
}
