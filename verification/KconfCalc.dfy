/**
  Symbol values (sym_calc_visibility, sym_calc_value, sym_clear_all_valid,
  sym_tristate_within_range, sym_set_tristate_value in symbol.c), for boolean and tristate
  symbols outside choice groups and a fixed modules_val.

  The first part says what the values are: the solution of a system of equations, one for
  each symbol.  KconfTable proves that the memoising evaluator computes it.
 */
module KconfCalc {
  import opened KconfExpr
  import opened KconfCompare
  import opened KconfFixpoint

  datatype Default = Default(value: Expr, visible: Option<Expr>)

  // What the menu files say about one symbol: the visibility of each prompt, the defaults
  // in order, and the direct and reverse dependencies.
  datatype Decl = Decl(prompts: seq<Option<Expr>>, defaults: seq<Default>, dirDep: Option<Expr>, revDep: Option<Expr>)

  // `strings` gives the values of symbols that are neither boolean nor tristate.
  datatype Config = Config(decls: map<Symbol, Decl>, modules: Tristate, strings: Symbol -> string)

  type UserValues = map<Symbol, Tristate>

  predicate IsValued(s: Symbol) {
    HasType(s, BooleanType) || HasType(s, TristateType)
  }

  predicate WellTyped(cfg: Config) {
    forall s <- cfg.decls :: IsValued(s)
  }

  // sym_get_type
  predicate ActsBoolean(cfg: Config, s: Symbol) {
    HasType(s, BooleanType) || cfg.modules == NO
  }

  function Promote(cfg: Config, s: Symbol, t: Tristate): Tristate {
    Promoted(ActsBoolean(cfg, s), t)
  }

  // The valuation seen by expressions when declared symbols have the values f.
  function Env(cfg: Config, f: Values): Valuation {
    (s: Symbol) =>
      if s.Const? then Value(if s.name == "y" then YES else if s.name == "m" then MOD else NO, s.name)
      else if IsValued(s) then (var t := if s in cfg.decls then f(s) else NO; Value(t, Letter(t)))
      else Value(NO, cfg.strings(s))
  }

  // ----- The equations -----

  function AnyPrompt(prompts: seq<Option<Expr>>, v: Valuation): Tristate {
    if prompts == [] then NO
    else Apply(OrOp, AnyPrompt(prompts[..|prompts| - 1], v), EvalOr(prompts[|prompts| - 1], YES, v))
  }

  function VisibleOf(cfg: Config, f: Values, s: Symbol): Tristate
    requires s in cfg.decls
  {
    Promote(cfg, s, AnyPrompt(cfg.decls[s].prompts, Env(cfg, f)))
  }

  function SelectedOf(cfg: Config, f: Values, s: Symbol): Tristate
    requires s in cfg.decls
  {
    Promote(cfg, s, EvalOr(cfg.decls[s].revDep, NO, Env(cfg, f)))
  }

  // The first default whose condition is not n, limited by that condition.
  function DefaultOf(defaults: seq<Default>, v: Valuation): Tristate {
    if defaults == [] then NO
    else
      var visible := EvalOr(defaults[0].visible, YES, v);
      if visible != NO then Apply(AndOp, Eval(defaults[0].value, v), visible)
      else DefaultOf(defaults[1..], v)
  }

  function Wanted(cfg: Config, user: UserValues, f: Values, s: Symbol): Tristate
    requires s in cfg.decls
  {
    var visible := VisibleOf(cfg, f, s);
    if visible != NO && s in user then Apply(AndOp, user[s], visible)
    else DefaultOf(cfg.decls[s].defaults, Env(cfg, f))
  }

  function Equation(cfg: Config, user: UserValues, f: Values, s: Symbol): Tristate {
    if s in cfg.decls then
      Promote(cfg, s, Apply(OrOp, Wanted(cfg, user, f, s), SelectedOf(cfg, f, s)))
    else NO
  }

  ghost predicate IsSolution(cfg: Config, user: UserValues, f: Values) {
    forall s: Symbol {:trigger Equation(cfg, user, f, s)} :: f(s) == Equation(cfg, user, f, s)
  }

  // ----- What the equations compute -----

  // Default i is the one that applies: the first whose condition is not n.
  ghost predicate Applies(defaults: seq<Default>, v: Valuation, i: nat) {
    && i < |defaults|
    && EvalOr(defaults[i].visible, YES, v) != NO
    && forall j :: 0 <= j < i ==> EvalOr(defaults[j].visible, YES, v) == NO
  }

  // The smaller of the value and the condition of the default that applies.
  lemma {:induction false} DefaultFirst(defaults: seq<Default>, v: Valuation, i: nat)
    requires Applies(defaults, v, i)
    ensures var r, value, condition := DefaultOf(defaults, v), Eval(defaults[i].value, v), EvalOr(defaults[i].visible, YES, v);
      r <= value && r <= condition && (r == value || r == condition)
  {
    if i > 0 {
      assert EvalOr(defaults[0].visible, YES, v) == NO;
      DefaultFirst(defaults[1..], v, i - 1);
    }
  }

  // A default that applies is found, unless every condition is n; then the result is n.
  lemma {:induction false} DefaultNone(defaults: seq<Default>, v: Valuation)
    ensures (exists i :: Applies(defaults, v, i)) || DefaultOf(defaults, v) == NO
    ensures (exists i :: Applies(defaults, v, i)) <==>
      exists i :: 0 <= i < |defaults| && EvalOr(defaults[i].visible, YES, v) != NO
  {
    if defaults != [] {
      if EvalOr(defaults[0].visible, YES, v) != NO {
        assert Applies(defaults, v, 0);
      } else {
        var rest := defaults[1..];
        DefaultNone(rest, v);
        if exists i: nat :: Applies(rest, v, i) {
          var i: nat :| Applies(rest, v, i);
          assert Applies(defaults, v, i + 1) by {
            assert forall j :: 0 < j <= i ==> defaults[j] == rest[j - 1];
          }
        }
        if j :| 0 <= j < |defaults| && EvalOr(defaults[j].visible, YES, v) != NO {
          assert defaults[j] == rest[j - 1];
        }
      }
    }
  }

  // The visibility is the largest of the prompts: none is above it, and one reaches it.
  lemma {:induction false} AnyPromptMaximum(prompts: seq<Option<Expr>>, v: Valuation)
    ensures forall i :: 0 <= i < |prompts| ==> EvalOr(prompts[i], YES, v) <= AnyPrompt(prompts, v)
    ensures AnyPrompt(prompts, v) == NO || exists i :: 0 <= i < |prompts| && EvalOr(prompts[i], YES, v) == AnyPrompt(prompts, v)
  {
    if prompts != [] {
      var last := |prompts| - 1;
      var init := prompts[..last];
      AnyPromptMaximum(init, v);
      if i :| 0 <= i < last && EvalOr(init[i], YES, v) == AnyPrompt(init, v) {
        assert prompts[i] == init[i];
      }
      forall i | 0 <= i < |prompts| ensures EvalOr(prompts[i], YES, v) <= AnyPrompt(prompts, v) {
        if i < last { assert prompts[i] == init[i]; }
      }
    }
  }

  // The value of a symbol by cases.  What it wants is the user value if there is one and a
  // prompt shows, else the default.  A tristate takes what it wants limited by its visibility,
  // but not below its reverse dependency; a boolean is y if any of these is not n, and else n.
  lemma EquationValue(cfg: Config, user: UserValues, f: Values, s: Symbol)
    requires s in cfg.decls
    ensures var d, v, r := cfg.decls[s], Env(cfg, f), Equation(cfg, user, f, s);
      var prompt, default, selected := AnyPrompt(d.prompts, v), DefaultOf(d.defaults, v), EvalOr(d.revDep, NO, v);
      if HasType(s, BooleanType) || cfg.modules == 0 then
        && (r == 0 || r == 2)
        && (prompt == 0 || s !in user ==> (r == 0 <==> default == 0 && selected == 0))
        && (prompt != 0 && s in user ==> (r == 0 <==> user[s] == 0 && selected == 0))
      else
        && (prompt == 0 || s !in user ==> r == if default < selected then selected else default)
        && (prompt != 0 && s in user && user[s] <= prompt ==> r == if user[s] < selected then selected else user[s])
        && (prompt != 0 && s in user && prompt <= user[s] ==> r == if prompt < selected then selected else prompt)
  {
  }

  // Visibility and reverse dependency by cases: m becomes y for a symbol that acts as a boolean.
  lemma PromotedFields(cfg: Config, f: Values, s: Symbol)
    requires s in cfg.decls
    ensures var d, v := cfg.decls[s], Env(cfg, f);
      var prompt, reverse := AnyPrompt(d.prompts, v), EvalOr(d.revDep, NO, v);
      if HasType(s, BooleanType) || cfg.modules == 0 then
        && VisibleOf(cfg, f, s) == (if prompt == 0 then 0 else 2)
        && SelectedOf(cfg, f, s) == (if reverse == 0 then 0 else 2)
      else
        VisibleOf(cfg, f, s) == prompt && SelectedOf(cfg, f, s) == reverse
  {
  }

  // ----- Dependencies -----

  // The value of s is computed from the value of t.
  ghost predicate DependsOn(d: Decl, t: Symbol) {
    || (exists i :: 0 <= i < |d.prompts| && ContainsSymbol(d.prompts[i], t))
    || (exists i :: 0 <= i < |d.defaults| && (Mentions(d.defaults[i].value, t) || ContainsSymbol(d.defaults[i].visible, t)))
    || ContainsSymbol(d.dirDep, t)
    || ContainsSymbol(d.revDep, t)
  }

  // `rank` orders the symbols so that dependencies come first.
  ghost predicate Ranked(cfg: Config, rank: Symbol -> nat) {
    forall s, t :: s in cfg.decls && t in cfg.decls && DependsOn(cfg.decls[s], t) ==> rank(t) < rank(s)
  }

  ghost predicate AgreeOn(cfg: Config, f: Values, g: Values, e: Expr) {
    forall t :: t in cfg.decls && Mentions(e, t) ==> f(t) == g(t)
  }

  lemma {:induction false} EvalLocal(cfg: Config, f: Values, g: Values, e: Expr)
    requires AgreeOn(cfg, f, g, e)
    ensures Eval(e, Env(cfg, f)) == Eval(e, Env(cfg, g))
  {
    match e
    case Not(a) => EvalLocal(cfg, f, g, a);
    case Bin(_, l, r) => EvalLocal(cfg, f, g, l); EvalLocal(cfg, f, g, r);
    case _ =>
  }

  lemma EvalOrLocal(cfg: Config, f: Values, g: Values, e: Option<Expr>, default: Tristate)
    requires forall t :: t in cfg.decls && ContainsSymbol(e, t) ==> f(t) == g(t)
    ensures EvalOr(e, default, Env(cfg, f)) == EvalOr(e, default, Env(cfg, g))
  {
    if e.Some? {
      forall t | t in cfg.decls && Mentions(e.value, t) ensures f(t) == g(t) {
        assert ContainsSymbol(e, t);
      }
      EvalLocal(cfg, f, g, e.value);
    }
  }

  lemma {:induction false} AnyPromptLocal(cfg: Config, f: Values, g: Values, prompts: seq<Option<Expr>>)
    requires forall i, t :: 0 <= i < |prompts| && t in cfg.decls && ContainsSymbol(prompts[i], t) ==> f(t) == g(t)
    ensures AnyPrompt(prompts, Env(cfg, f)) == AnyPrompt(prompts, Env(cfg, g))
  {
    if prompts != [] {
      AnyPromptLocal(cfg, f, g, prompts[..|prompts| - 1]);
      EvalOrLocal(cfg, f, g, prompts[|prompts| - 1], YES);
    }
  }

  lemma {:induction false} DefaultLocal(cfg: Config, f: Values, g: Values, defaults: seq<Default>)
    requires forall i, t | 0 <= i < |defaults| && t in cfg.decls ::
      Mentions(defaults[i].value, t) || ContainsSymbol(defaults[i].visible, t) ==> f(t) == g(t)
    ensures DefaultOf(defaults, Env(cfg, f)) == DefaultOf(defaults, Env(cfg, g))
  {
    if defaults != [] {
      EvalOrLocal(cfg, f, g, defaults[0].visible, YES);
      EvalLocal(cfg, f, g, defaults[0].value);
      DefaultLocal(cfg, f, g, defaults[1..]);
    }
  }

  // An equation looks only at the symbols its declaration depends on.
  lemma EquationLocal(cfg: Config, user: UserValues, f: Values, g: Values, s: Symbol)
    requires s in cfg.decls
    requires forall t :: t in cfg.decls && DependsOn(cfg.decls[s], t) ==> f(t) == g(t)
    ensures VisibleOf(cfg, f, s) == VisibleOf(cfg, g, s)
    ensures SelectedOf(cfg, f, s) == SelectedOf(cfg, g, s)
    ensures DefaultOf(cfg.decls[s].defaults, Env(cfg, f)) == DefaultOf(cfg.decls[s].defaults, Env(cfg, g))
    ensures Equation(cfg, user, f, s) == Equation(cfg, user, g, s)
  {
    var d := cfg.decls[s];
    AnyPromptLocal(cfg, f, g, d.prompts);
    EvalOrLocal(cfg, f, g, d.revDep, NO);
    DefaultLocal(cfg, f, g, d.defaults);
  }

  lemma SameEquation(cfg: Config, user: UserValues, f: Values, g: Values, s: Symbol)
    requires forall t :: s in cfg.decls && t in cfg.decls && DependsOn(cfg.decls[s], t) ==> f(t) == g(t)
    ensures Equation(cfg, user, f, s) == Equation(cfg, user, g, s)
  {
    if s in cfg.decls {
      EquationLocal(cfg, user, f, g, s);
    }
  }

  // ----- The solution -----

  ghost function EquationsOf(cfg: Config, user: UserValues): Equations {
    (f: Values, s: Symbol) => Equation(cfg, user, f, s)
  }

  ghost function Solution(cfg: Config, user: UserValues, rank: Symbol -> nat): Values {
    Fixpoint(EquationsOf(cfg, user), rank)
  }

  lemma RankedIsLocal(cfg: Config, user: UserValues, rank: Symbol -> nat)
    requires Ranked(cfg, rank)
    ensures Local(EquationsOf(cfg, user), rank)
  {
    var eq := EquationsOf(cfg, user);
    forall f, g, s | AgreeBelow(rank, f, g, rank(s))
      ensures eq(f, s) == eq(g, s)
    {
      SameEquation(cfg, user, f, g, s);
    }
  }

  // Without cyclic dependencies there is a solution ...
  lemma SolutionSolves(cfg: Config, user: UserValues, rank: Symbol -> nat)
    requires Ranked(cfg, rank)
    ensures IsSolution(cfg, user, Solution(cfg, user, rank))
  {
    var eq, sol := EquationsOf(cfg, user), Solution(cfg, user, rank);
    RankedIsLocal(cfg, user, rank);
    FixpointSolves(eq, rank);
    forall s: Symbol
      ensures sol(s) == Equation(cfg, user, sol, s)
    {
      assert sol(s) == eq(sol, s);
    }
  }

  // ... and only one.
  lemma SolutionUnique(cfg: Config, user: UserValues, rank: Symbol -> nat, f: Values, g: Values, s: Symbol)
    requires Ranked(cfg, rank) && IsSolution(cfg, user, f) && IsSolution(cfg, user, g)
    ensures f(s) == g(s)
  {
    var eq := EquationsOf(cfg, user);
    RankedIsLocal(cfg, user, rank);
    assert Solves(eq, f) by {
      assert forall t: Symbol :: eq(f, t) == Equation(cfg, user, f, t);
    }
    assert Solves(eq, g) by {
      assert forall t: Symbol :: eq(g, t) == Equation(cfg, user, g, t);
    }
    SolutionsAgree(eq, rank, f, g, s);
  }

  // Every solution is a valuation of the kind the simplifier relies on: booleans are never
  // m, and without modules nothing is.
  lemma SolutionLegal(cfg: Config, user: UserValues, f: Values)
    requires IsSolution(cfg, user, f)
    ensures Legal(Env(cfg, f))
    ensures cfg.modules == NO ==> forall s :: s in cfg.decls ==> f(s) != MOD
  {
    forall s: Symbol
      ensures LegalValue(s, Env(cfg, f)(s))
      ensures cfg.modules == NO && s in cfg.decls ==> f(s) != MOD
    {
      assert f(s) == Equation(cfg, user, f, s);
    }
  }

  // ----- Set then get -----

  // sym_tristate_within_range, from the visibility and reverse dependency of s
  predicate WithinRange(cfg: Config, s: Symbol, visible: Tristate, selected: Tristate, val: Tristate) {
    && visible != NO
    && !(ActsBoolean(cfg, s) && val == MOD)
    && visible > selected
    && selected <= val <= visible
  }

  // A user value for s leaves everything s depends on alone.
  lemma {:induction false} UserValueLocal(cfg: Config, user: UserValues, rank: Symbol -> nat, s: Symbol, val: Tristate,
                                          sol: Values, sol': Values, t: Symbol)
    requires Ranked(cfg, rank) && rank(t) < rank(s)
    requires IsSolution(cfg, user, sol) && IsSolution(cfg, user[s := val], sol')
    ensures sol'(t) == sol(t)
    decreases rank(t)
  {
    forall u | t in cfg.decls && u in cfg.decls && DependsOn(cfg.decls[t], u) ensures sol'(u) == sol(u) {
      UserValueLocal(cfg, user, rank, s, val, sol, sol', u);
    }
    SameEquation(cfg, user, sol', sol, t);
    assert t != s;
    assert Equation(cfg, user[s := val], sol', t) == Equation(cfg, user, sol', t);
    assert sol(t) == Equation(cfg, user, sol, t) && sol'(t) == Equation(cfg, user[s := val], sol', t);
  }

  // The value s takes once the user asks for `val`.
  lemma UserValueEffect(cfg: Config, user: UserValues, rank: Symbol -> nat, s: Symbol, val: Tristate,
                        sol: Values, sol': Values)
    requires Ranked(cfg, rank) && s in cfg.decls
    requires IsSolution(cfg, user, sol) && IsSolution(cfg, user[s := val], sol')
    ensures var visible, selected := VisibleOf(cfg, sol, s), SelectedOf(cfg, sol, s);
      && VisibleOf(cfg, sol', s) == visible && SelectedOf(cfg, sol', s) == selected
      && (visible == NO ==> sol'(s) == sol(s))
      && (visible != NO ==> sol'(s) == Promote(cfg, s, Apply(OrOp, Apply(AndOp, val, visible), selected)))
  {
    forall t | t in cfg.decls && DependsOn(cfg.decls[s], t) ensures sol'(t) == sol(t) {
      UserValueLocal(cfg, user, rank, s, val, sol, sol', t);
    }
    EquationLocal(cfg, user, sol', sol, s);
    assert sol(s) == Equation(cfg, user, sol, s) && sol'(s) == Equation(cfg, user[s := val], sol', s);
  }

  // The range is exact: for a symbol the user can change, the values within range are the
  // ones that, once set, are the value of the symbol.
  lemma RangeExact(cfg: Config, user: UserValues, rank: Symbol -> nat, s: Symbol, val: Tristate,
                   sol: Values, sol': Values)
    requires Ranked(cfg, rank) && s in cfg.decls
    requires IsSolution(cfg, user, sol) && IsSolution(cfg, user[s := val], sol')
    requires VisibleOf(cfg, sol, s) > SelectedOf(cfg, sol, s)
    ensures WithinRange(cfg, s, VisibleOf(cfg, sol, s), SelectedOf(cfg, sol, s), val) <==> sol'(s) == val
  {
    UserValueEffect(cfg, user, rank, s, val, sol, sol');
  }

  // Asking for the value a symbol already has is accepted without a range check, and kept
  // exactly if the symbol is invisible or the value is selected or within its visibility.
  lemma SetCurrentExact(cfg: Config, user: UserValues, rank: Symbol -> nat, s: Symbol, sol: Values, sol': Values)
    requires Ranked(cfg, rank) && s in cfg.decls
    requires IsSolution(cfg, user, sol) && IsSolution(cfg, user[s := sol(s)], sol')
    ensures var visible, selected := VisibleOf(cfg, sol, s), SelectedOf(cfg, sol, s);
      sol'(s) == sol(s) <==> visible == NO || sol(s) <= visible || sol(s) == selected
  {
    UserValueEffect(cfg, user, rank, s, sol(s), sol, sol');
    SolutionLegal(cfg, user, sol);
    assert sol(s) == Equation(cfg, user, sol, s);
  }

  // If recomputing keeps the value of s, making it a user value changes no symbol at all.
  lemma SetCurrentSolution(cfg: Config, user: UserValues, rank: Symbol -> nat, s: Symbol, sol: Values, sol': Values)
    requires Ranked(cfg, rank) && s in cfg.decls
    requires IsSolution(cfg, user, sol) && IsSolution(cfg, user[s := sol(s)], sol')
    ensures sol'(s) == sol(s) ==> IsSolution(cfg, user[s := sol(s)], sol)
  {
    var user' := user[s := sol(s)];
    if sol'(s) == sol(s) {
      forall t: Symbol ensures sol(t) == Equation(cfg, user', sol, t) {
        assert sol(t) == Equation(cfg, user, sol, t);
        if t == s {
          forall u | u in cfg.decls && DependsOn(cfg.decls[s], u) ensures sol'(u) == sol(u) {
            UserValueLocal(cfg, user, rank, s, sol(s), sol, sol', u);
          }
          SameEquation(cfg, user', sol', sol, s);
          assert sol'(s) == Equation(cfg, user', sol', s);
        } else {
          assert Equation(cfg, user', sol, t) == Equation(cfg, user, sol, t);
        }
      }
    }
  }
}
