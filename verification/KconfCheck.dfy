/**
  The recursive dependency checker (sym_check_deps and its helpers in symbol.c, driven by
  the loop at the end of conf_parse in zconf.tab.c), for symbols outside choice groups.
 */
module KconfCheck {
  import opened KconfExpr
  import opened KconfCompare
  import opened KconfCalc

  datatype PropertyKind = Prompt | DefaultProp | SelectProp | ChoiceProp | RangeProp | SymbolProp

  datatype Property = Property(kind: PropertyKind, visible: Option<Expr>, expr: Option<Expr>)

  datatype Node = Node(revDep: Option<Expr>, props: seq<Property>)

  type Graph = map<Symbol, Node>

  // The dependencies sym_check_sym_deps follows from one property.
  predicate PropertyMentions(p: Property, t: Symbol) {
    && p.kind !in {ChoiceProp, SelectProp}
    && (ContainsSymbol(p.visible, t) || (p.kind == DefaultProp && ContainsSymbol(p.expr, t)))
  }

  ghost predicate NodeMentions(n: Node, t: Symbol) {
    ContainsSymbol(n.revDep, t) || exists i :: 0 <= i < |n.props| && PropertyMentions(n.props[i], t)
  }

  ghost predicate Edge(g: Graph, s: Symbol, t: Symbol) {
    s in g && NodeMentions(g[s], t)
  }

  // Each symbol depends on the next.
  ghost predicate IsPath(g: Graph, p: seq<Symbol>) {
    forall i :: 0 <= i < |p| - 1 ==> Edge(g, p[i], p[i + 1])
  }

  ghost predicate IsCycle(g: Graph, c: seq<Symbol>) {
    c != [] && IsPath(g, c) && Edge(g, c[|c| - 1], c[0])
  }

  ghost predicate Cyclic(g: Graph) {
    exists c :: IsCycle(g, c)
  }

  // Dependencies come before what depends on them.
  ghost predicate Topological(g: Graph, order: seq<Symbol>) {
    forall i, t :: 0 <= i < |order| && Edge(g, order[i], t) ==> t in order[..i]
  }

  lemma AppendOrder(g: Graph, order: seq<Symbol>, s: Symbol)
    requires forall t :: Edge(g, s, t) ==> t in order
    ensures Topological(g, order) ==> Topological(g, order + [s])
  {
    forall i, t | Topological(g, order) && 0 <= i < |order + [s]| && Edge(g, (order + [s])[i], t)
      ensures t in (order + [s])[..i]
    {
      assert (order + [s])[..i] == order[..i];
      assert order[..|order|] == order;
    }
  }

  // A path whose last symbol depends on one of its symbols ends in a cycle.
  lemma SuffixCycle(g: Graph, path: seq<Symbol>, k: nat)
    requires IsPath(g, path) && k < |path| && Edge(g, path[|path| - 1], path[k])
    ensures IsCycle(g, path[k..])
  {
    var c := path[k..];
    assert c[0] == path[k] && c[|c| - 1] == path[|path| - 1];
    forall i | 0 <= i < |c| - 1
      ensures Edge(g, c[i], c[i + 1])
    {
      assert c[i] == path[k + i] && c[i + 1] == path[k + i + 1];
    }
  }

  class Checker {
    const g: Graph
    var check: set<Symbol>           // SYMBOL_CHECK: on the current path
    var checked: set<Symbol>         // SYMBOL_CHECKED
    var stack: seq<Symbol>           // the dep_stack entries, outermost first
    var reports: seq<seq<Symbol>>    // what sym_check_print_recursive has printed
    ghost var order: seq<Symbol>     // symbols in the order their check finished

    ghost predicate Valid()
      reads this
    {
      && (forall s :: s in check <==> s in stack)
      && check <= checked
      && IsPath(g, stack)
      && (forall i, j :: 0 <= i < j < |stack| ==> stack[i] != stack[j])
      && (forall i :: 0 <= i < |reports| ==> IsCycle(g, reports[i]))
      && (reports == [] ==> Finished())
    }

    // Without a report, every checked symbol that is not on the path is finished.
    ghost predicate Finished()
      reads this
    {
      && Topological(g, order)
      && (forall s :: s in order <==> s in checked && s !in check)
    }

    twostate predicate Grows()
      reads this
    {
      && check == old(check) && stack == old(stack)
      && old(checked) <= checked && old(reports) <= reports
    }

    constructor (g: Graph)
      ensures this.g == g && Valid() && stack == [] && checked == {} && reports == []
    {
      this.g := g;
      check, checked, stack, reports, order := {}, {}, [], [], [];
    }

    // sym_check_print_recursive: the part of the stack that starts at `last`
    method Report(last: Symbol)
      requires Valid() && last in check
      requires Edge(g, stack[|stack| - 1], last)
      modifies this`reports
      ensures Valid() && reports != [] && old(reports) <= reports
    {
      var k := |stack| - 1;
      while stack[k] != last
        invariant 0 <= k < |stack|
        invariant last in stack[..k + 1]
        decreases k
      {
        k := k - 1;
      }
      SuffixCycle(g, stack, k);
      reports := reports + [stack[k..]];
    }

    // sym_check_deps, called while the top of the stack depends on s or, at the outermost
    // level, with an empty stack
    method CheckDeps(s: Symbol) returns (r: Option<Symbol>)
      requires Valid()
      requires stack != [] ==> Edge(g, stack[|stack| - 1], s)
      modifies this
      ensures Valid() && Grows()
      ensures r.Some? ==> r.value in check && reports != []
      ensures reports == [] ==> s in order
      decreases g.Keys - checked, 0
    {
      if s in check {
        Report(s);
        return Some(s);
      }
      if s in checked {
        return None;
      }
      if s !in g {
        // a symbol without properties
        AppendOrder(g, order, s);
        checked := checked + {s};
        order := order + [s];
        return None;
      }
      Enter(s);
      r := CheckSymDeps(s);
      Leave(s);
      if r == Some(s) {
        r := None;
      }
    }

    // set the flags, dep_stack_insert
    method Enter(s: Symbol)
      requires Valid() && s !in checked
      requires stack != [] ==> Edge(g, stack[|stack| - 1], s)
      modifies this`check, this`checked, this`stack
      ensures Valid() && stack == old(stack) + [s]
      ensures check == old(check) + {s} && checked == old(checked) + {s}
    {
      assert s !in stack;
      check, checked := check + {s}, checked + {s};
      stack := stack + [s];
    }

    // dep_stack_remove, clear SYMBOL_CHECK
    method Leave(s: Symbol)
      requires Valid() && stack != [] && stack[|stack| - 1] == s
      requires reports == [] ==> forall t :: Edge(g, s, t) ==> t in order
      modifies this`check, this`stack, this`order
      ensures Valid() && stack == old(stack)[..|old(stack)| - 1] && check == old(check) - {s}
      ensures reports == [] ==> s in order
    {
      assert s in check;
      stack := stack[..|stack| - 1];
      check := check - {s};
      if reports == [] {
        AppendOrder(g, order, s);
      }
      order := order + [s];
    }

    // sym_check_sym_deps, with s on top of the stack
    method CheckSymDeps(s: Symbol) returns (r: Option<Symbol>)
      requires Valid() && s in g && stack != [] && stack[|stack| - 1] == s
      modifies this
      ensures Valid() && Grows()
      ensures r.Some? ==> r.value in check && reports != []
      ensures reports == [] ==> forall t :: Edge(g, s, t) ==> t in order
      decreases g.Keys - checked, 3
    {
      r := CheckOptional(g[s].revDep);
      if r.Some? {
        return;
      }
      var props := g[s].props;
      for i := 0 to |props|
        invariant Valid() && Grows() && r.None?
        invariant reports == [] ==> forall t :: ContainsSymbol(g[s].revDep, t) ==> t in order
        invariant reports == [] ==> forall j, t :: 0 <= j < i && PropertyMentions(props[j], t) ==> t in order
      {
        if props[i].kind in {ChoiceProp, SelectProp} {
          continue;
        }
        r := CheckOptional(props[i].visible);
        if r.Some? {
          break;
        }
        if props[i].kind == DefaultProp {
          r := CheckOptional(props[i].expr);
          if r.Some? {
            break;
          }
        }
      }
    }

    method CheckOptional(e: Option<Expr>) returns (r: Option<Symbol>)
      requires Valid() && stack != []
      requires forall t :: ContainsSymbol(e, t) ==> Edge(g, stack[|stack| - 1], t)
      modifies this
      ensures Valid() && Grows()
      ensures r.Some? ==> r.value in check && reports != []
      ensures reports == [] ==> forall t :: ContainsSymbol(e, t) ==> t in order
      decreases g.Keys - checked, 2
    {
      r := None;
      if e.Some? {
        assert forall t :: Mentions(e.value, t) ==> ContainsSymbol(e, t);
        r := CheckExprDeps(e.value);
      }
    }

    // sym_check_expr_deps
    method CheckExprDeps(e: Expr) returns (r: Option<Symbol>)
      requires Valid() && stack != []
      requires forall t :: Mentions(e, t) ==> Edge(g, stack[|stack| - 1], t)
      modifies this
      ensures Valid() && Grows()
      ensures r.Some? ==> r.value in check && reports != []
      ensures reports == [] ==> forall t :: Mentions(e, t) ==> t in order
      decreases g.Keys - checked, 1, e
    {
      match e
      case Bin(_, left, right) =>
        assert forall t :: Mentions(left, t) || Mentions(right, t) ==> Mentions(e, t);
        r := CheckExprDeps(left);
        if r.None? {
          r := CheckExprDeps(right);
        }
      case Not(a) =>
        assert forall t :: Mentions(a, t) ==> Mentions(e, t);
        r := CheckExprDeps(a);
      case Sym(s) =>
        assert Mentions(e, s);
        r := CheckDeps(s);
      case Equal(a, b) =>
        assert Mentions(e, a) && Mentions(e, b);
        r := CheckDeps(a);
        if r.None? {
          r := CheckDeps(b);
        }
      case Unequal(a, b) =>
        assert Mentions(e, a) && Mentions(e, b);
        r := CheckDeps(a);
        if r.None? {
          r := CheckDeps(b);
        }
    }

    // The loop of conf_parse over all symbols.  A report is printed exactly if some symbol
    // depends on itself, but no call returns the symbol, so no error is ever counted.
    method CheckAll(symbols: seq<Symbol>) returns (errors: nat)
      requires Valid() && stack == [] && checked == {} && reports == []
      requires forall s :: s in g ==> s in symbols
      modifies this
      ensures Valid()
      ensures reports != [] <==> Cyclic(g)
      ensures reports == [] ==> Topological(g, order) && forall s :: s in g ==> s in order
      ensures errors == 0
    {
      errors := 0;
      for i := 0 to |symbols|
        invariant Valid() && check == {} && stack == [] && errors == 0
        invariant reports == [] ==> forall j :: 0 <= j < i ==> symbols[j] in order
      {
        var r := CheckDeps(symbols[i]);
        errors := errors + if r.Some? then 1 else 0;
      }
      if reports == [] {
        TopologicalIsAcyclic(g, order);
      } else {
        assert IsCycle(g, reports[0]);
      }
    }
  }

  // ----- An order excludes cycles -----

  ghost function Index(order: seq<Symbol>, s: Symbol): (k: nat)
    requires s in order
    ensures k < |order| && order[k] == s && s !in order[..k]
  {
    if order[0] == s then 0
    else
      var k := 1 + Index(order[1..], s);
      assert order[..k] == [order[0]] + order[1..][..k - 1];
      k
  }

  lemma EdgeLowersIndex(g: Graph, order: seq<Symbol>, s: Symbol, t: Symbol)
    requires Topological(g, order) && s in order && Edge(g, s, t)
    ensures t in order && Index(order, t) < Index(order, s)
  {
    var k := Index(order, s);
    assert t in order[..k];
  }

  lemma {:induction false} PathLowersIndex(g: Graph, order: seq<Symbol>, p: seq<Symbol>)
    requires Topological(g, order) && p != [] && IsPath(g, p) && p[0] in order
    ensures p[|p| - 1] in order && Index(order, p[|p| - 1]) <= Index(order, p[0])
  {
    if |p| > 1 {
      assert Edge(g, p[0], p[1]);
      EdgeLowersIndex(g, order, p[0], p[1]);
      forall i | 0 <= i < |p[1..]| - 1 ensures Edge(g, p[1..][i], p[1..][i + 1]) {
        assert Edge(g, p[i + 1], p[i + 2]);
      }
      PathLowersIndex(g, order, p[1..]);
    }
  }

  lemma TopologicalIsAcyclic(g: Graph, order: seq<Symbol>)
    requires Topological(g, order) && forall s :: s in g ==> s in order
    ensures !Cyclic(g)
  {
    forall c | IsCycle(g, c) ensures false {
      assert c[0] in g by { if |c| > 1 { assert Edge(g, c[0], c[1]); } }
      PathLowersIndex(g, order, c);
      EdgeLowersIndex(g, order, c[|c| - 1], c[0]);
    }
  }

  // ----- A configuration without a report can be evaluated -----

  // The property list of a declaration; its direct dependency is the condition of the
  // P_SYMBOL property.
  function PropertiesOf(d: Decl): seq<Property> {
    [Property(SymbolProp, d.dirDep, None)]
    + seq(|d.prompts|, i requires 0 <= i < |d.prompts| => Property(Prompt, d.prompts[i], None))
    + seq(|d.defaults|, i requires 0 <= i < |d.defaults| =>
        Property(DefaultProp, d.defaults[i].visible, Some(d.defaults[i].value)))
  }

  function GraphOf(cfg: Config): Graph {
    map s | s in cfg.decls :: Node(cfg.decls[s].revDep, PropertiesOf(cfg.decls[s]))
  }

  lemma DependsOnIsEdge(cfg: Config, s: Symbol, t: Symbol)
    requires s in cfg.decls && DependsOn(cfg.decls[s], t)
    ensures Edge(GraphOf(cfg), s, t)
  {
    var d, props := cfg.decls[s], PropertiesOf(cfg.decls[s]);
    if ContainsSymbol(d.dirDep, t) {
      assert PropertyMentions(props[0], t);
    } else if i :| 0 <= i < |d.prompts| && ContainsSymbol(d.prompts[i], t) {
      assert PropertyMentions(props[1 + i], t);
    } else if i :| 0 <= i < |d.defaults| && (Mentions(d.defaults[i].value, t) || ContainsSymbol(d.defaults[i].visible, t)) {
      assert PropertyMentions(props[1 + |d.prompts| + i], t);
    }
  }

  // A symbol that is only selected from, or grouped into a choice, by properties depends on nothing.
  lemma SelectIsNoEdge(g: Graph, s: Symbol, t: Symbol)
    requires s in g && g[s].revDep.None?
    requires forall i :: 0 <= i < |g[s].props| ==> g[s].props[i].kind in {SelectProp, ChoiceProp}
    ensures !Edge(g, s, t)
  {
  }

  // The order left by a check without reports ranks the symbols for the evaluator.
  lemma CheckedIsRanked(cfg: Config, order: seq<Symbol>)
    requires Topological(GraphOf(cfg), order) && forall s :: s in cfg.decls ==> s in order
    ensures Ranked(cfg, s => if s in order then Index(order, s) else 0)
  {
    forall s, t | s in cfg.decls && t in cfg.decls && DependsOn(cfg.decls[s], t)
      ensures Index(order, t) < Index(order, s)
    {
      DependsOnIsEdge(cfg, s, t);
      EdgeLowersIndex(GraphOf(cfg), order, s, t);
    }
  }

  // ----- A cycle that is reported and not counted -----

  const PING := Named(0, BooleanType)
  const PONG := Named(1, BooleanType)

  // A boolean symbol whose prompt depends on another.
  function PromptNode(other: Symbol): Node {
    Node(None, [Property(Prompt, Some(Sym(other)), None)])
  }

  function MutualGraph(): Graph {
    map[PING := PromptNode(PONG), PONG := PromptNode(PING)]
  }

  lemma MutualCycle()
    ensures Cyclic(MutualGraph())
  {
    var g := MutualGraph();
    assert PropertyMentions(g[PING].props[0], PONG) && PropertyMentions(g[PONG].props[0], PING);
    assert Edge(g, PING, PONG) && Edge(g, PONG, PING);
    assert IsCycle(g, [PING, PONG]);
  }

  // Two symbols that depend on each other: a report is printed, and the error count is 0.
  method ReportedNotCounted() returns (c: Checker, errors: nat)
    ensures c.g == MutualGraph() && c.reports != [] && errors == 0
  {
    c := new Checker(MutualGraph());
    MutualCycle();
    errors := c.CheckAll([PING, PONG]);
  }
}
