/**
  The memoising evaluator of symbol.c over the equations of KconfCalc: SYMBOL_VALID marks
  symbols already computed, or being computed further up the call chain.
 */
module KconfTable {
  import opened KconfExpr
  import opened KconfCompare
  import opened KconfFixpoint
  import opened KconfCalc

  lemma PromptBelow(cfg: Config, rank: Symbol -> nat, s: Symbol, i: nat)
    requires Ranked(cfg, rank) && s in cfg.decls && i < |cfg.decls[s].prompts|
    ensures forall t :: t in cfg.decls && ContainsSymbol(cfg.decls[s].prompts[i], t) ==> rank(t) < rank(s)
  {
    forall t | t in cfg.decls && ContainsSymbol(cfg.decls[s].prompts[i], t) ensures rank(t) < rank(s) {
      assert DependsOn(cfg.decls[s], t);
    }
  }

  lemma DependenciesBelow(cfg: Config, rank: Symbol -> nat, s: Symbol)
    requires Ranked(cfg, rank) && s in cfg.decls
    ensures forall t :: t in cfg.decls && ContainsSymbol(cfg.decls[s].dirDep, t) ==> rank(t) < rank(s)
    ensures forall t :: t in cfg.decls && ContainsSymbol(cfg.decls[s].revDep, t) ==> rank(t) < rank(s)
  {
    forall t | t in cfg.decls && (ContainsSymbol(cfg.decls[s].dirDep, t) || ContainsSymbol(cfg.decls[s].revDep, t))
      ensures rank(t) < rank(s)
    {
      assert DependsOn(cfg.decls[s], t);
    }
  }

  lemma AnyPromptStep(prompts: seq<Option<Expr>>, i: nat, v: Valuation)
    requires i < |prompts|
    ensures AnyPrompt(prompts[..i + 1], v) == Apply(OrOp, AnyPrompt(prompts[..i], v), EvalOr(prompts[i], YES, v))
  {
    assert prompts[..i + 1][..i] == prompts[..i];
  }

  class SymbolTable {
    const cfg: Config
    const modulesSym: Option<Symbol>
    ghost const rank: Symbol -> nat
    var user: UserValues              // def[S_DEF_USER].tri, where SYMBOL_DEF_USER is set
    var curr: map<Symbol, Tristate>
    var visible: map<Symbol, Tristate>
    var revDep: map<Symbol, Tristate>
    var valid: set<Symbol>            // SYMBOL_VALID
    ghost var sol: Values             // the solution of the equations

    ghost predicate Done(s: Symbol)
      reads this
    {
      && s in cfg.decls && s in curr && s in visible && s in revDep
      && curr[s] == sol(s)
      && visible[s] == VisibleOf(cfg, sol, s)
      && revDep[s] == SelectedOf(cfg, sol, s)
    }

    // Every valid symbol that is not still being computed has its final value.
    ghost predicate Consistent(busy: set<Symbol>)
      reads this
    {
      && WellTyped(cfg) && Ranked(cfg, rank) && IsSolution(cfg, user, sol)
      && curr.Keys == cfg.decls.Keys
      && busy <= valid <= cfg.decls.Keys
      && forall s :: s in valid && s !in busy ==> Done(s)
    }

    // What a nested computation leaves alone.
    twostate predicate Kept(busy: set<Symbol>)
      reads this
    {
      && user == old(user) && sol == old(sol)
      && old(valid) <= valid
      && (forall b :: b in busy && b in old(curr) ==> b in curr && curr[b] == old(curr[b]))
      && (forall b :: b in busy && b in old(visible) ==> b in visible && visible[b] == old(visible[b]))
      && (forall b :: b in busy && b in old(revDep) ==> b in revDep && revDep[b] == old(revDep[b]))
    }

    constructor (cfg: Config, modulesSym: Option<Symbol>, user: UserValues, ghost rank: Symbol -> nat)
      requires WellTyped(cfg) && Ranked(cfg, rank)
      ensures this.cfg == cfg && this.modulesSym == modulesSym && this.user == user && this.rank == rank
      ensures Consistent({}) && valid == {}
    {
      this.cfg, this.modulesSym, this.user, this.rank := cfg, modulesSym, user, rank;
      curr := map s | s in cfg.decls :: NO;
      visible, revDep, valid := map[], map[], {};
      sol := Solution(cfg, user, rank);
      SolutionSolves(cfg, user, rank);
    }

    // expr_calc_value on behalf of `owner`
    method CalcExpr(e: Expr, ghost owner: Symbol, ghost busy: set<Symbol>) returns (t: Tristate)
      requires Consistent(busy)
      requires forall s :: s in cfg.decls && Mentions(e, s) ==> rank(s) < rank(owner)
      requires forall b :: b in busy ==> rank(owner) <= rank(b)
      modifies this
      ensures Consistent(busy) && Kept(busy)
      ensures t == Eval(e, Env(cfg, sol))
      decreases rank(owner) + 1, 1, e
    {
      match e
      case Sym(s) =>
        CalcValue(s, busy);
        t := CurrTri(s);
      case Not(a) =>
        var x := CalcExpr(a, owner, busy);
        t := 2 - x;
      case Bin(op, l, r) =>
        var x := CalcExpr(l, owner, busy);
        var y := CalcExpr(r, owner, busy);
        t := Apply(op, x, y);
      case Equal(a, b) =>
        var same := CalcSame(a, b, owner, busy);
        t := Truth(same);
      case Unequal(a, b) =>
        var same := CalcSame(a, b, owner, busy);
        t := Truth(!same);
    }

    // The string comparison under = and !=
    method CalcSame(a: Symbol, b: Symbol, ghost owner: Symbol, ghost busy: set<Symbol>) returns (same: bool)
      requires Consistent(busy)
      requires forall s :: s in cfg.decls && (s == a || s == b) ==> rank(s) < rank(owner)
      requires forall b :: b in busy ==> rank(owner) <= rank(b)
      modifies this
      ensures Consistent(busy) && Kept(busy)
      ensures same == (Env(cfg, sol)(a).str == Env(cfg, sol)(b).str)
      decreases rank(owner) + 1, 0
    {
      CalcValue(a, busy);
      CalcValue(b, busy);
      same := StringValue(a) == StringValue(b);
      StringsMatch(a, b);
    }

    function CurrTri(s: Symbol): Tristate
      reads this
    {
      if s in curr then curr[s] else if s == SYMBOL_YES then YES else if s == SYMBOL_MOD then MOD else NO
    }

    // sym_get_string_value
    function StringValue(s: Symbol): string
      reads this
    {
      if s.Const? then s.name
      else if IsValued(s) then
        (if CurrTri(s) == MOD && cfg.modules == NO then "n" else Letter(CurrTri(s)))
      else cfg.strings(s)
    }

    lemma StringsMatch(a: Symbol, b: Symbol)
      requires curr.Keys == cfg.decls.Keys && WellTyped(cfg) && IsSolution(cfg, user, sol)
      requires a in cfg.decls ==> Done(a)
      requires b in cfg.decls ==> Done(b)
      ensures StringValue(a) == Env(cfg, sol)(a).str
      ensures StringValue(b) == Env(cfg, sol)(b).str
    {
      SolutionLegal(cfg, user, sol);
    }

    method CalcOptional(e: Option<Expr>, default: Tristate, ghost owner: Symbol, ghost busy: set<Symbol>)
      returns (t: Tristate)
      requires Consistent(busy)
      requires forall s :: s in cfg.decls && ContainsSymbol(e, s) ==> rank(s) < rank(owner)
      requires forall b :: b in busy ==> rank(owner) <= rank(b)
      modifies this
      ensures Consistent(busy) && Kept(busy)
      ensures t == EvalOr(e, default, Env(cfg, sol))
      decreases rank(owner) + 1, 2
    {
      t := default;
      if e.Some? {
        assert forall s :: Mentions(e.value, s) ==> ContainsSymbol(e, s);
        t := CalcExpr(e.value, owner, busy);
      }
    }

    method CalcPrompts(s: Symbol, ghost busy: set<Symbol>) returns (tri: Tristate)
      requires Consistent(busy) && s in busy
      requires forall b :: b in busy ==> rank(s) <= rank(b)
      modifies this
      ensures Consistent(busy) && Kept(busy)
      ensures tri == AnyPrompt(cfg.decls[s].prompts, Env(cfg, sol))
      decreases rank(s) + 1, 3
    {
      var prompts := cfg.decls[s].prompts;
      tri := NO;
      for i := 0 to |prompts|
        invariant Consistent(busy) && Kept(busy)
        invariant tri == AnyPrompt(prompts[..i], Env(cfg, sol))
      {
        PromptBelow(cfg, rank, s, i);
        var x := CalcOptional(prompts[i], YES, s, busy);
        AnyPromptStep(prompts, i, Env(cfg, sol));
        tri := Apply(OrOp, tri, x);
      }
      assert prompts[..|prompts|] == prompts;
    }

    method SetVisible(s: Symbol, tri: Tristate, ghost busy: set<Symbol>)
      requires Consistent(busy) && s in busy
      modifies this`visible
      ensures Consistent(busy) && Kept(busy - {s}) && visible == old(visible)[s := tri]
    {
      visible := visible[s := tri];
    }

    method SetRevDep(s: Symbol, tri: Tristate, ghost busy: set<Symbol>)
      requires Consistent(busy) && s in busy
      modifies this`revDep
      ensures Consistent(busy) && Kept(busy - {s}) && revDep == old(revDep)[s := tri]
    {
      revDep := revDep[s := tri];
    }

    method CalcVisible(s: Symbol, ghost busy: set<Symbol>)
      requires Consistent(busy) && s in busy
      requires forall b :: b in busy ==> rank(s) <= rank(b)
      modifies this
      ensures Consistent(busy) && Kept(busy - {s})
      ensures s in visible && visible[s] == VisibleOf(cfg, sol, s)
      decreases rank(s) + 1, 4
    {
      var tri := CalcPrompts(s, busy);
      SetVisible(s, Promote(cfg, s, tri), busy);
    }

    method CalcRevDep(s: Symbol, ghost busy: set<Symbol>)
      requires Consistent(busy) && s in busy
      requires forall b :: b in busy ==> rank(s) <= rank(b)
      modifies this
      ensures Consistent(busy) && Kept(busy - {s})
      ensures s in old(visible) ==> s in visible && visible[s] == old(visible[s])
      ensures s in revDep && revDep[s] == SelectedOf(cfg, sol, s)
      decreases rank(s) + 1, 4
    {
      DependenciesBelow(cfg, rank, s);
      var tri := CalcOptional(cfg.decls[s].revDep, NO, s, busy);
      SetRevDep(s, Promote(cfg, s, tri), busy);
    }

    // sym_calc_visibility: the fields `visible` and `rev_dep.tri` of s
    method CalcVisibility(s: Symbol, ghost busy: set<Symbol>)
      requires Consistent(busy) && s in busy
      requires forall b :: b in busy ==> rank(s) <= rank(b)
      modifies this
      ensures Consistent(busy) && Kept(busy - {s})
      ensures s in visible && visible[s] == VisibleOf(cfg, sol, s)
      ensures s in revDep && revDep[s] == SelectedOf(cfg, sol, s)
      decreases rank(s) + 1, 5
    {
      CalcVisible(s, busy);
      DependenciesBelow(cfg, rank, s);
      // the direct dependency is only used for a warning
      var _ := CalcOptional(cfg.decls[s].dirDep, YES, s, busy);
      CalcRevDep(s, busy);
    }

    // sym_get_default_prop, and the value of the property it finds
    method CalcDefault(s: Symbol, ghost busy: set<Symbol>) returns (t: Tristate)
      requires Consistent(busy) && s in busy
      requires forall b :: b in busy ==> rank(s) <= rank(b)
      modifies this
      ensures Consistent(busy) && Kept(busy)
      ensures t == DefaultOf(cfg.decls[s].defaults, Env(cfg, sol))
      decreases rank(s) + 1, 3
    {
      var defaults := cfg.decls[s].defaults;
      for i := 0 to |defaults|
        invariant Consistent(busy) && Kept(busy)
        invariant DefaultOf(defaults, Env(cfg, sol)) == DefaultOf(defaults[i..], Env(cfg, sol))
      {
        forall u | u in cfg.decls && (ContainsSymbol(defaults[i].visible, u) || Mentions(defaults[i].value, u))
          ensures DependsOn(cfg.decls[s], u)
        {
        }
        var x := CalcOptional(defaults[i].visible, YES, s, busy);
        if x != NO {
          t := CalcExpr(defaults[i].value, s, busy);
          return Apply(AndOp, t, x);
        }
        assert defaults[i..][1..] == defaults[i + 1..];
      }
      t := NO;
    }

    // sym_calc_value.  Symbols in `busy` are being computed by callers; none of them can be
    // reached again, because a call only ever goes to symbols of smaller rank.
    method CalcValue(s: Symbol, ghost busy: set<Symbol>)
      requires Consistent(busy)
      requires s in cfg.decls ==> forall b :: b in busy ==> rank(s) < rank(b)
      modifies this
      ensures Consistent(busy) && Kept(busy)
      ensures s in cfg.decls ==> s in valid && Done(s)
      decreases if s in cfg.decls then rank(s) + 1 else 0, 7
    {
      if s !in cfg.decls || s in valid {
        return;
      }
      valid := valid + {s};
      var newval := CalcNewValue(s, busy + {s});
      Finish(s, newval, busy);
    }

    method Finish(s: Symbol, newval: Tristate, ghost busy: set<Symbol>)
      requires Consistent(busy + {s}) && s !in busy && newval == sol(s)
      requires s in visible && visible[s] == VisibleOf(cfg, sol, s)
      requires s in revDep && revDep[s] == SelectedOf(cfg, sol, s)
      modifies this`curr
      ensures curr == old(curr)[s := newval] && Consistent(busy) && Done(s)
    {
      curr := curr[s := newval];
    }

    method CalcNewValue(s: Symbol, ghost busy: set<Symbol>) returns (newval: Tristate)
      requires Consistent(busy) && s in busy
      requires forall b :: b in busy ==> rank(s) <= rank(b)
      modifies this
      ensures Consistent(busy) && Kept(busy - {s})
      ensures s in visible && visible[s] == VisibleOf(cfg, sol, s)
      ensures s in revDep && revDep[s] == SelectedOf(cfg, sol, s)
      ensures newval == sol(s)
      decreases rank(s) + 1, 6
    {
      CalcVisibility(s, busy);
      curr := curr[s := NO];
      if visible[s] != NO && s in user {
        newval := Apply(AndOp, user[s], visible[s]);
      } else {
        newval := CalcDefault(s, busy);
      }
      newval := Promote(cfg, s, Apply(OrOp, newval, revDep[s]));
      SolutionAt(s);
    }

    lemma SolutionAt(s: Symbol)
      requires IsSolution(cfg, user, sol) && s in cfg.decls
      ensures sol(s) == Promote(cfg, s, Apply(OrOp, Wanted(cfg, user, sol, s), SelectedOf(cfg, sol, s)))
    {
      assert sol(s) == Equation(cfg, user, sol, s);
    }

    // Symbols may be asked for in any order.
    method CalcAll(order: seq<Symbol>)
      requires Consistent({})
      modifies this
      ensures Consistent({}) && user == old(user) && sol == old(sol)
      ensures forall i :: 0 <= i < |order| && order[i] in cfg.decls ==> order[i] in valid && Done(order[i])
    {
      for i := 0 to |order|
        invariant Consistent({}) && user == old(user) && sol == old(sol)
        invariant forall k :: 0 <= k < i && order[k] in cfg.decls ==> order[k] in valid
      {
        CalcValue(order[i], {});
      }
    }

    // sym_clear_all_valid: the symbol that enables modules is computed again at once
    method ClearAllValid()
      requires WellTyped(cfg) && Ranked(cfg, rank) && IsSolution(cfg, user, sol) && curr.Keys == cfg.decls.Keys
      modifies this
      ensures Consistent({}) && user == old(user) && sol == old(sol)
      ensures modulesSym.Some? && modulesSym.value in cfg.decls ==> modulesSym.value in valid && Done(modulesSym.value)
    {
      valid := {};
      if modulesSym.Some? {
        CalcValue(modulesSym.value, {});
      }
    }

    // A field that was never computed is n.
    function Stored(field: map<Symbol, Tristate>, s: Symbol): Tristate {
      if s in field then field[s] else NO
    }

    // What SetTristate leaves of the cache when the value asked for is the current one.
    ghost predicate KeepsCurrent(s: Symbol, val: Tristate)
      reads this
    {
      Stored(visible, s) == NO || val <= Stored(visible, s) || val == Stored(revDep, s)
    }

    // sym_set_tristate_value looks at the fields as they are, computed or not.  A change clears
    // the cache.  Setting the current value does not, and then, for a computed symbol, the cache
    // stays right exactly if recomputing would keep that value.
    method SetTristate(s: Symbol, val: Tristate) returns (ok: bool)
      requires Consistent({}) && s in cfg.decls
      modifies this
      ensures ok <==> val == old(curr[s]) || WithinRange(cfg, s, Stored(old(visible), s), Stored(old(revDep), s), val)
      ensures user == if ok then old(user)[s := val] else old(user)
      ensures IsSolution(cfg, user, sol)
      ensures !ok ==> Consistent({}) && valid == old(valid) && curr == old(curr)
      ensures ok && val != old(curr[s]) ==> Consistent({}) && (s in old(valid) ==> sol(s) == val)
      ensures ok && val == old(curr[s]) ==> valid == old(valid) && curr == old(curr)
      ensures ok && val == old(curr[s]) && s in valid ==> (Consistent({}) <==> old(KeepsCurrent(s, val)))
    {
      var oldval := curr[s];
      if oldval != val && !WithinRange(cfg, s, Stored(visible, s), Stored(revDep, s), val) {
        return false;
      }
      if oldval != val {
        SetChanged(s, val);
      } else if s in valid {
        SetCurrent(s);
      } else {
        SetUncomputed(s);
      }
      return true;
    }

    method SetUncomputed(s: Symbol)
      requires Consistent({}) && s in cfg.decls
      modifies this`user, this`sol
      ensures user == old(user)[s := curr[s]] && IsSolution(cfg, user, sol)
    {
      SolutionSolves(cfg, user[s := curr[s]], rank);
      sol := Solution(cfg, user[s := curr[s]], rank);
      user := user[s := curr[s]];
    }

    method SetChanged(s: Symbol, val: Tristate)
      requires Consistent({}) && s in cfg.decls && WithinRange(cfg, s, Stored(visible, s), Stored(revDep, s), val)
      modifies this
      ensures user == old(user)[s := val] && Consistent({}) && (s in old(valid) ==> sol(s) == val)
    {
      ghost var sol' := ChangedSolution(s, val);
      user, sol := user[s := val], sol';
      ClearAllValid();
    }

    lemma ChangedSolution(s: Symbol, val: Tristate) returns (sol': Values)
      requires Ranked(cfg, rank) && IsSolution(cfg, user, sol)
      requires WithinRange(cfg, s, Stored(visible, s), Stored(revDep, s), val)
      ensures IsSolution(cfg, user[s := val], sol') && (Done(s) ==> sol'(s) == val)
    {
      sol' := Solution(cfg, user[s := val], rank);
      SolutionSolves(cfg, user[s := val], rank);
      if Done(s) {
        RangeExact(cfg, user, rank, s, val, sol, sol');
      }
    }

    method SetCurrent(s: Symbol)
      requires Consistent({}) && s in valid
      modifies this`user, this`sol
      ensures user == old(user)[s := curr[s]] && IsSolution(cfg, user, sol)
      ensures Consistent({}) <==> KeepsCurrent(s, curr[s])
    {
      ghost var sol' := CurrentSolution(s);
      user := user[s := curr[s]];
      if !KeepsCurrent(s, curr[s]) {
        sol := sol';
      }
    }

    lemma CurrentSolution(s: Symbol) returns (sol': Values)
      requires Ranked(cfg, rank) && IsSolution(cfg, user, sol) && Done(s)
      ensures IsSolution(cfg, user[s := curr[s]], sol')
      ensures if KeepsCurrent(s, curr[s]) then IsSolution(cfg, user[s := curr[s]], sol) else sol'(s) != curr[s]
    {
      sol' := Solution(cfg, user[s := curr[s]], rank);
      SolutionSolves(cfg, user[s := curr[s]], rank);
      SetCurrentExact(cfg, user, rank, s, sol, sol');
      SetCurrentSolution(cfg, user, rank, s, sol, sol');
    }

    // A value that was accepted for a computed symbol is the value read back.
    method SetThenGet(s: Symbol, val: Tristate) returns (ok: bool, got: Tristate)
      requires Consistent({}) && s in cfg.decls
      modifies this
      ensures ok <==> val == old(curr[s]) || WithinRange(cfg, s, Stored(old(visible), s), Stored(old(revDep), s), val)
      ensures s in old(valid) ==> got == if ok then val else old(curr[s])
    {
      var oldval := curr[s];
      ok := SetTristate(s, val);
      if ok && val != oldval {
        CalcValue(s, {});
      }
      got := curr[s];
    }
  }

  // A tristate symbol whose prompt is visible as m and whose default is y.
  const LIMITED := Named(0, TristateType)

  function LimitedConfig(): Config {
    Config(map[LIMITED := Decl([Some(Sym(SYMBOL_MOD))], [Default(Sym(SYMBOL_YES), None)], None, None)], YES, s => "")
  }

  lemma LimitedRanked()
    ensures WellTyped(LimitedConfig()) && Ranked(LimitedConfig(), s => 0)
  {
  }

  lemma LimitedFields(f: Values)
    ensures VisibleOf(LimitedConfig(), f, LIMITED) == MOD && SelectedOf(LimitedConfig(), f, LIMITED) == NO
    ensures DefaultOf(LimitedConfig().decls[LIMITED].defaults, Env(LimitedConfig(), f)) == YES
  {
    var cfg := LimitedConfig();
    var v := Env(cfg, f);
    assert SYMBOL_MOD.name[0] != SYMBOL_YES.name[0];
    assert v(SYMBOL_MOD).tri == MOD && v(SYMBOL_YES).tri == YES;
    var prompts := cfg.decls[LIMITED].prompts;
    assert AnyPrompt(prompts[..0], v) == NO;
    assert AnyPrompt(prompts, v) == MOD;
  }

  // Setting it to its value y is accepted, and leaves y in the cache although its value is now m.
  method SetCurrentGoesStale() returns (t: SymbolTable)
    ensures LIMITED in t.valid && LIMITED in t.curr && t.curr[LIMITED] == YES
    ensures IsSolution(t.cfg, t.user, t.sol) && t.sol(LIMITED) == MOD
  {
    LimitedRanked();
    t := new SymbolTable(LimitedConfig(), None, map[], s => 0);
    t.CalcValue(LIMITED, {});
    LimitedFields(t.sol);
    t.SolutionAt(LIMITED);
    var ok := t.SetTristate(LIMITED, YES);
    LimitedFields(t.sol);
    t.SolutionAt(LIMITED);
  }
}
