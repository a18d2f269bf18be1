/**
  Printing an expression (expr_print, expr_compare_type in expr.c) and reading it back with
  the expression grammar (reductions 107 to 114 in zconf.tab.c).
 */
module KconfPrint {
  import opened KconfExpr

  datatype Token = TSym(s: Symbol) | TEqual | TUnequal | TOp(op: Op) | TNot | TOpen | TClose

  // enum expr_type
  datatype Kind = ENone | EOr | EAnd | ENot | EEqual | EUnequal | EList | ESymbol | ERange

  function KindOf(e: Expr): Kind {
    match e
    case Sym(_) => ESymbol
    case Not(_) => ENot
    case Equal(_, _) => EEqual
    case Unequal(_, _) => EUnequal
    case Bin(op, _, _) => OpKind(op)
  }

  function OpKind(op: Op): Kind {
    if op == AndOp then EAnd else EOr
  }

  // expr_compare_type: the cases of the original fall through.
  function CompareType(t1: Kind, t2: Kind): int {
    if t1 == t2 then 0
    else if t1 in {EEqual, EUnequal} && t2 == ENot then 1
    else if t1 in {EEqual, EUnequal, ENot} && t2 == EAnd then 1
    else if t1 in {EEqual, EUnequal, ENot, EAnd} && t2 == EOr then 1
    else if t1 in {EEqual, EUnequal, ENot, EAnd, EOr} && t2 == EList then 1
    else if t1 in {EEqual, EUnequal, ENot, EAnd, EOr, EList} && t2 == ENone then 1
    else -1
  }

  // expr_print; `prev` is the kind of the enclosing expression
  function Print(e: Expr, prev: Kind): seq<Token>
    decreases e, 1
  {
    if CompareType(prev, KindOf(e)) > 0 then [TOpen] + Bare(e) + [TClose] else Bare(e)
  }

  function Bare(e: Expr): seq<Token>
    decreases e, 0
  {
    match e
    case Sym(s) => [TSym(s)]
    case Not(a) => [TNot] + Print(a, ENot)
    case Equal(a, b) => [TSym(a), TEqual, TSym(b)]
    case Unequal(a, b) => [TSym(a), TUnequal, TSym(b)]
    case Bin(op, l, r) => Print(l, OpKind(op)) + [TOp(op)] + Print(r, OpKind(op))
  }

  // ----- The grammar -----

  datatype Parsed = Error | Parsed(e: Expr, rest: seq<Token>)

  // A chain of `op`, grouped to the left; && binds tighter than ||.
  function ParseChain(op: Op, ts: seq<Token>): (r: Parsed)
    ensures r.Parsed? ==> |r.rest| < |ts|
    decreases |ts|, if op == OrOp then 5 else 3
  {
    match ParseOperand(op, ts)
    case Error => Error
    case Parsed(e, rest) => ParseTail(op, e, rest)
  }

  function ParseOperand(op: Op, ts: seq<Token>): (r: Parsed)
    ensures r.Parsed? ==> |r.rest| < |ts|
    decreases |ts|, if op == OrOp then 4 else 2
  {
    if op == OrOp then ParseChain(AndOp, ts) else ParseUnary(ts)
  }

  function ParseTail(op: Op, acc: Expr, ts: seq<Token>): (r: Parsed)
    ensures r.Parsed? ==> |r.rest| <= |ts|
    decreases |ts|, 0
  {
    if ts != [] && ts[0] == TOp(op) then
      match ParseOperand(op, ts[1..])
      case Error => Error
      case Parsed(e, rest) => ParseTail(op, Bin(op, acc, e), rest)
    else
      Parsed(acc, ts)
  }

  function ParseUnary(ts: seq<Token>): (r: Parsed)
    ensures r.Parsed? ==> |r.rest| < |ts|
    decreases |ts|, 1
  {
    if ts == [] then Error
    else
      match ts[0]
      case TNot =>
        (match ParseUnary(ts[1..])
         case Error => Error
         case Parsed(e, rest) => Parsed(Not(e), rest))
      case TOpen =>
        (match ParseChain(OrOp, ts[1..])
         case Error => Error
         case Parsed(e, rest) => if rest != [] && rest[0] == TClose then Parsed(e, rest[1..]) else Error)
      case TSym(a) =>
        if |ts| >= 3 && ts[1] == TEqual && ts[2].TSym? then Parsed(Equal(a, ts[2].s), ts[3..])
        else if |ts| >= 3 && ts[1] == TUnequal && ts[2].TSym? then Parsed(Unequal(a, ts[2].s), ts[3..])
        else if |ts| >= 2 && ts[1] in {TEqual, TUnequal} then Error
        else Parsed(Sym(a), ts[1..])
      case _ => Error
  }

  function Parse(ts: seq<Token>): Option<Expr> {
    match ParseChain(OrOp, ts)
    case Error => None
    case Parsed(e, rest) => if rest == [] then Some(e) else None
  }

  // ----- Round trip -----

  // Chains of one operator regrouped to the left.
  function LeftAssoc(e: Expr): Expr {
    match e
    case Not(a) => Not(LeftAssoc(a))
    case Bin(op, l, r) => Graft(op, LeftAssoc(l), LeftAssoc(r))
    case _ => e
  }

  // Append the chain r to the chain l.
  function Graft(op: Op, l: Expr, r: Expr): Expr {
    if Is(op, r) then Bin(op, Graft(op, l, r.left), r.right) else Bin(op, l, r)
  }

  lemma {:induction false} GraftAssociative(op: Op, a: Expr, b: Expr, c: Expr)
    ensures Graft(op, Graft(op, a, b), c) == Graft(op, a, Graft(op, b, c))
  {
    if Is(op, c) {
      GraftAssociative(op, a, b, c.left);
    }
  }

  // The tokens that may follow an operand: no comparison, and no operator that binds tighter.
  predicate Ends(op: Op, ts: seq<Token>) {
    ts != [] ==> ts[0] !in {TEqual, TUnequal} && (op == OrOp ==> ts[0] != TOp(AndOp))
  }

  // How many levels of the grammar lie between reading a chain and the chain e itself.
  ghost function Level(op: Op, e: Expr): nat {
    if Is(op, e) then 0 else if op == AndOp || Is(AndOp, e) then 3 else 5
  }

  lemma {:induction false} ReadUnary(e: Expr, prev: Kind, ts: seq<Token>)
    requires prev == ENot || (prev == EAnd && !Is(AndOp, e))
    requires Ends(AndOp, ts)
    ensures ParseUnary(Print(e, prev) + ts) == Parsed(LeftAssoc(e), ts)
    decreases e, if Is(AndOp, e) then 4 else 1
  {
    match e
    case Sym(a) => ReadSymbol(a, ts);
    case Not(a) =>
      ReadUnary(a, ENot, ts);
      ReadNegation(Print(a, ENot) + ts, ts, LeftAssoc(a));
      PrintedNot(a, prev, ts);
    case Equal(a, b) => ReadComparison(TEqual, a, b, ts);
    case Unequal(a, b) => ReadComparison(TUnequal, a, b, ts);
    case Bin(_, _, _) =>
      ReadChain(OrOp, e, [TClose] + ts);
      ReadParentheses(e, ts);
      PrintedBlock(e, prev, ts);
  }

  lemma PrintedNot(a: Expr, prev: Kind, ts: seq<Token>)
    requires prev == ENot || prev == EAnd
    ensures Print(Not(a), prev) + ts == [TNot] + (Print(a, ENot) + ts)
  {
  }

  lemma PrintedBlock(e: Expr, prev: Kind, ts: seq<Token>)
    requires e.Bin? && (prev == ENot || (prev == EAnd && !Is(AndOp, e)))
    ensures Print(e, prev) + ts == [TOpen] + (Bare(e) + ([TClose] + ts))
  {
    assert Print(e, prev) == [TOpen] + Bare(e) + [TClose];
    Regrouped(Bare(e), ts);
  }

  lemma Regrouped(inside: seq<Token>, ts: seq<Token>)
    ensures [TOpen] + inside + [TClose] + ts == [TOpen] + (inside + ([TClose] + ts))
  {
  }

  lemma ReadSymbol(a: Symbol, ts: seq<Token>)
    requires Ends(AndOp, ts)
    ensures ParseUnary([TSym(a)] + ts) == Parsed(Sym(a), ts)
  {
    assert ([TSym(a)] + ts)[1..] == ts;
  }

  lemma ReadNegation(arg: seq<Token>, ts: seq<Token>, a: Expr)
    requires ParseUnary(arg) == Parsed(a, ts)
    ensures ParseUnary([TNot] + arg) == Parsed(Not(a), ts)
  {
    assert ([TNot] + arg)[1..] == arg;
  }

  lemma ReadComparison(c: Token, a: Symbol, b: Symbol, ts: seq<Token>)
    requires c == TEqual || c == TUnequal
    ensures ParseUnary([TSym(a), c, TSym(b)] + ts) == Parsed(if c == TEqual then Equal(a, b) else Unequal(a, b), ts)
  {
    assert ([TSym(a), c, TSym(b)] + ts)[3..] == ts;
  }

  lemma ReadParentheses(e: Expr, ts: seq<Token>)
    requires e.Bin?
    requires ParseChain(OrOp, Print(e, EOr) + ([TClose] + ts)) == ParseTail(OrOp, LeftAssoc(e), [TClose] + ts)
    ensures ParseUnary([TOpen] + (Bare(e) + ([TClose] + ts))) == Parsed(LeftAssoc(e), ts)
  {
    var inside := Bare(e) + ([TClose] + ts);
    assert ([TOpen] + inside)[1..] == inside;
    assert ParseTail(OrOp, LeftAssoc(e), [TClose] + ts) == Parsed(LeftAssoc(e), [TClose] + ts);
    assert ([TClose] + ts)[1..] == ts;
  }

  // Reading a printed chain leaves the chain, regrouped, as what has been read so far.
  lemma {:induction false} ReadChain(op: Op, e: Expr, ts: seq<Token>)
    requires Ends(op, ts)
    ensures ParseChain(op, Print(e, OpKind(op)) + ts) == ParseTail(op, LeftAssoc(e), ts)
    decreases e, Level(op, e)
  {
    if Is(op, e) {
      var more := [TOp(op)] + (Print(e.right, OpKind(op)) + ts);
      PrintedChain(op, e, ts);
      ReadChain(op, e.left, more);
      ReadTail(op, LeftAssoc(e.left), e.right, ts);
    } else {
      ReadOperand(op, e, ts);
    }
  }

  lemma {:induction false} ReadTail(op: Op, acc: Expr, e: Expr, ts: seq<Token>)
    requires Ends(op, ts)
    ensures ParseTail(op, acc, [TOp(op)] + (Print(e, OpKind(op)) + ts)) == ParseTail(op, Graft(op, acc, LeftAssoc(e)), ts)
    decreases e, 6
  {
    if Is(op, e) {
      var more := [TOp(op)] + (Print(e.right, OpKind(op)) + ts);
      PrintedChain(op, e, ts);
      ReadTail(op, acc, e.left, more);
      ReadTail(op, Graft(op, acc, LeftAssoc(e.left)), e.right, ts);
      GraftAssociative(op, acc, LeftAssoc(e.left), LeftAssoc(e.right));
    } else {
      ReadOperand(op, e, ts);
      LeftAssocKind(e);
      ReadOne(op, acc, Print(e, OpKind(op)) + ts, LeftAssoc(e), ts);
    }
  }

  // One more operand after the operator.
  lemma ReadOne(op: Op, acc: Expr, operand: seq<Token>, e: Expr, ts: seq<Token>)
    requires ParseOperand(op, operand) == Parsed(e, ts)
    ensures ParseTail(op, acc, [TOp(op)] + operand) == ParseTail(op, Bin(op, acc, e), ts)
  {
    assert ([TOp(op)] + operand)[1..] == operand;
  }

  lemma PrintedChain(op: Op, e: Expr, ts: seq<Token>)
    requires Is(op, e)
    ensures Print(e, OpKind(op)) + ts == Print(e.left, OpKind(op)) + ([TOp(op)] + (Print(e.right, OpKind(op)) + ts))
  {
  }

  lemma {:induction false} ReadOperand(op: Op, e: Expr, ts: seq<Token>)
    requires !Is(op, e) && Ends(op, ts)
    ensures ParseOperand(op, Print(e, OpKind(op)) + ts) == Parsed(LeftAssoc(e), ts)
    decreases e, Level(op, e) - 1
  {
    if op == OrOp {
      assert Print(e, EOr) == Bare(e) == Print(e, EAnd);
      ReadChain(AndOp, e, ts);
    } else {
      ReadUnary(e, EAnd, ts);
    }
  }

  lemma LeftAssocKind(e: Expr)
    ensures KindOf(LeftAssoc(e)) == KindOf(e)
  {
  }

  // Parsing what expr_print writes gives the expression back, regrouped to the left.
  lemma PrintThenParse(e: Expr)
    ensures Parse(Print(e, ENone)) == Some(LeftAssoc(e))
  {
    ReadChain(OrOp, e, []);
    assert Print(e, ENone) == Bare(e) == Print(e, EOr) == Print(e, EOr) + [];
  }

  lemma {:induction false} LeftAssocValue(e: Expr, v: Valuation)
    ensures Eval(LeftAssoc(e), v) == Eval(e, v)
  {
    match e
    case Not(a) => LeftAssocValue(a, v);
    case Bin(op, l, r) =>
      LeftAssocValue(l, v);
      LeftAssocValue(r, v);
      GraftValue(op, LeftAssoc(l), LeftAssoc(r), v);
    case _ =>
  }

  lemma {:induction false} GraftValue(op: Op, l: Expr, r: Expr, v: Valuation)
    ensures Eval(Graft(op, l, r), v) == Apply(op, Eval(l, v), Eval(r, v))
  {
    if Is(op, r) {
      GraftValue(op, l, r.left, v);
    }
  }

  // Regrouping does not change what is printed, so two expressions print alike exactly if
  // they differ only in grouping.
  lemma {:induction false} PrintLeftAssoc(e: Expr)
    ensures Bare(LeftAssoc(e)) == Bare(e)
    ensures forall prev :: Print(LeftAssoc(e), prev) == Print(e, prev)
  {
    LeftAssocKind(e);
    match e
    case Not(a) =>
      PrintLeftAssoc(a);
      assert Print(LeftAssoc(a), ENot) == Print(a, ENot);
    case Bin(op, l, r) =>
      PrintLeftAssoc(l);
      PrintLeftAssoc(r);
      BareGraft(op, LeftAssoc(l), LeftAssoc(r));
    case _ =>
  }

  lemma {:induction false} BareGraft(op: Op, l: Expr, r: Expr)
    ensures Bare(Graft(op, l, r)) == Print(l, OpKind(op)) + [TOp(op)] + Print(r, OpKind(op))
  {
    if Is(op, r) {
      BareGraft(op, l, r.left);
    }
  }

  lemma PrintsAlike(a: Expr, b: Expr)
    ensures Print(a, ENone) == Print(b, ENone) <==> LeftAssoc(a) == LeftAssoc(b)
  {
    PrintThenParse(a);
    PrintThenParse(b);
    PrintLeftAssoc(a);
    PrintLeftAssoc(b);
  }

  // ----- What the tokens stand for -----

  // Comparisons of symbols are read as comparisons of their strings.
  lemma ComparisonMeaning(a: Symbol, b: Symbol, v: Valuation)
    ensures var equal, unequal := Parse([TSym(a), TEqual, TSym(b)]), Parse([TSym(a), TUnequal, TSym(b)]);
      && equal.Some? && (Eval(equal.value, v) == YES <==> v(a).str == v(b).str)
      && unequal.Some? && (Eval(unequal.value, v) == YES <==> v(a).str != v(b).str)
  {
    PrintThenParse(Equal(a, b));
    PrintThenParse(Unequal(a, b));
    assert Print(Equal(a, b), ENone) == [TSym(a), TEqual, TSym(b)];
    assert Print(Unequal(a, b), ENone) == [TSym(a), TUnequal, TSym(b)];
  }

  function Smaller(x: Tristate, y: Tristate): Tristate {
    if x <= y then x else y
  }

  function Larger(x: Tristate, y: Tristate): Tristate {
    if x <= y then y else x
  }

  predicate Means(ts: seq<Token>, v: Valuation, t: Tristate) {
    Parse(ts).Some? && Eval(Parse(ts).value, v) == t
  }

  lemma PrintedMeans(e: Expr, ts: seq<Token>, v: Valuation)
    requires ts == Bare(e)
    ensures Means(ts, v, Eval(e, v))
  {
    PrintThenParse(e);
    LeftAssocValue(e, v);
    assert Print(e, ENone) == Bare(e);
  }

  lemma BarePair(op: Op, a: Symbol, b: Symbol)
    ensures Bare(Bin(op, Sym(a), Sym(b))) == [TSym(a), TOp(op), TSym(b)]
  {
    assert Print(Sym(a), OpKind(op)) == [TSym(a)] && Print(Sym(b), OpKind(op)) == [TSym(b)];
  }

  // && binds tighter than || ...
  lemma Precedence(a: Symbol, b: Symbol, c: Symbol, v: Valuation)
    ensures Means([TSym(a), TOp(OrOp), TSym(b), TOp(AndOp), TSym(c)], v, Larger(v(a).tri, Smaller(v(b).tri, v(c).tri)))
  {
    var x := Bin(AndOp, Sym(b), Sym(c));
    BarePair(AndOp, b, c);
    assert Print(Sym(a), EOr) == [TSym(a)] && Print(x, EOr) == Bare(x);
    PrintedMeans(Bin(OrOp, Sym(a), x), [TSym(a), TOp(OrOp), TSym(b), TOp(AndOp), TSym(c)], v);
    assert Eval(Sym(a), v) == v(a).tri && Eval(x, v) == Smaller(v(b).tri, v(c).tri);
    assert Eval(Bin(OrOp, Sym(a), x), v) == Larger(Eval(Sym(a), v), Eval(x, v));
  }

  // ... unless parentheses say otherwise ...
  lemma Parentheses(a: Symbol, b: Symbol, c: Symbol, v: Valuation)
    ensures Means([TOpen, TSym(a), TOp(OrOp), TSym(b), TClose, TOp(AndOp), TSym(c)], v,
                  Smaller(Larger(v(a).tri, v(b).tri), v(c).tri))
  {
    var y := Bin(OrOp, Sym(a), Sym(b));
    BarePair(OrOp, a, b);
    assert Print(Sym(c), EAnd) == [TSym(c)] && Print(y, EAnd) == [TOpen] + Bare(y) + [TClose];
    PrintedMeans(Bin(AndOp, y, Sym(c)), [TOpen, TSym(a), TOp(OrOp), TSym(b), TClose, TOp(AndOp), TSym(c)], v);
    assert Eval(Sym(c), v) == v(c).tri && Eval(y, v) == Larger(v(a).tri, v(b).tri);
    assert Eval(Bin(AndOp, y, Sym(c)), v) == Smaller(Eval(y, v), Eval(Sym(c), v));
  }

  // ... and ! binds tighter than either.
  lemma NegationPrecedence(a: Symbol, b: Symbol, v: Valuation)
    ensures Means([TNot, TSym(a), TOp(AndOp), TSym(b)], v, Smaller(2 - v(a).tri, v(b).tri))
    ensures Means([TNot, TOpen, TSym(a), TOp(AndOp), TSym(b), TClose], v, 2 - Smaller(v(a).tri, v(b).tri))
  {
    var x, y := Not(Sym(a)), Bin(AndOp, Sym(a), Sym(b));
    BarePair(AndOp, a, b);
    assert Print(Sym(a), ENot) == [TSym(a)] && Print(Sym(b), EAnd) == [TSym(b)];
    assert Bare(x) == [TNot, TSym(a)] && Print(x, EAnd) == Bare(x);
    PrintedMeans(Bin(AndOp, x, Sym(b)), [TNot, TSym(a), TOp(AndOp), TSym(b)], v);
    assert Print(y, ENot) == [TOpen] + Bare(y) + [TClose];
    PrintedMeans(Not(y), [TNot, TOpen, TSym(a), TOp(AndOp), TSym(b), TClose], v);
    assert Eval(x, v) == 2 - v(a).tri && Eval(y, v) == Smaller(v(a).tri, v(b).tri);
  }

  // Parentheses are printed around || inside &&, and around either inside !, and nowhere else.
  lemma ParenthesesExact(e: Expr, prev: Kind)
    requires prev in {ENone, EOr, EAnd, ENot}
    ensures Print(e, prev) == Bare(e) <==> !((prev == EAnd && Is(OrOp, e)) || (prev == ENot && e.Bin?))
    ensures Print(e, prev) != Bare(e) ==> Print(e, prev) == [TOpen] + Bare(e) + [TClose]
  {
    assert |[TOpen] + Bare(e) + [TClose]| == |Bare(e)| + 2;
  }
}
