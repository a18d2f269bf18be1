/**
  Whole configurations with choice groups (sym_calc_value, sym_calc_choice and
  sym_set_tristate_value in symbol.c): the value equations of KconfCalc for ordinary symbols
  and those of KconfChoice for choice symbols and their members.

  A group is evaluated from its declarations.  KconfSet follows what setting a symbol does to
  the recomputed values.
 */
module KconfSystem {
  import opened KconfExpr
  import opened KconfCompare
  import opened KconfGuard
  import opened KconfFixpoint
  import opened KconfCalc
  import opened KconfChoice

  datatype ChoiceDefault = ChoiceDefault(visible: Option<Expr>, member: nat)

  datatype ChoiceDecl = ChoiceDecl(members: seq<Symbol>, defaults: seq<ChoiceDefault>)

  // A member and its place in its group.
  datatype Place = Place(choice: Symbol, index: nat)

  // `owner` is the inverse of the member lists.
  datatype System = System(cfg: Config, choices: map<Symbol, ChoiceDecl>, owner: map<Symbol, Place>)

  // User values, the "has a user value" flags, and the member the user picked in each choice.
  // A value is kept when its flag is lost.
  datatype Users = Users(has: set<Symbol>, tri: map<Symbol, Tristate>, pick: map<Symbol, nat>)

  ghost predicate WellFormedChoice(sys: System, cs: Symbol)
    requires cs in sys.choices
  {
    var d := sys.choices[cs];
    && cs in sys.cfg.decls && cs !in sys.owner
    && (forall i :: 0 <= i < |d.members| ==> d.members[i] in sys.owner && sys.owner[d.members[i]] == Place(cs, i))
    && (forall i :: 0 <= i < |d.defaults| ==> d.defaults[i].member < |d.members|)
  }

  ghost predicate WellFormedMember(sys: System, m: Symbol)
    requires m in sys.owner
  {
    var cs := sys.owner[m].choice;
    && m in sys.cfg.decls && cs in sys.choices && sys.owner[m].index < |sys.choices[cs].members|
    && sys.choices[cs].members[sys.owner[m].index] == m
    && forall i :: 0 <= i < |sys.cfg.decls[m].prompts| ==> Guarded(sys.cfg.decls[m].prompts[i], cs, m)
  }

  ghost predicate WellFormedSystem(sys: System) {
    && WellTyped(sys.cfg)
    && (forall cs :: cs in sys.choices ==> WellFormedChoice(sys, cs))
    && (forall m :: m in sys.owner ==> WellFormedMember(sys, m))
  }

  // ----- The equations -----

  // The values f, but with the choice at t.
  function With(f: Values, cs: Symbol, t: Tristate): Values {
    (s: Symbol) => if s == cs then t else f(s)
  }

  function VisiblePer(cfg: Config, f: Values, cs: Symbol, m: Symbol): PerValue
    requires m in cfg.decls
  {
    PerValue(VisibleOf(cfg, With(f, cs, NO), m), VisibleOf(cfg, With(f, cs, MOD), m), VisibleOf(cfg, With(f, cs, YES), m))
  }

  function DefaultAt(cfg: Config, f: Values, cs: Symbol, m: Symbol, t: Tristate): Tristate
    requires m in cfg.decls
  {
    DefaultOf(cfg.decls[m].defaults, Env(cfg, With(f, cs, t)))
  }

  function DefaultPer(cfg: Config, f: Values, cs: Symbol, m: Symbol): PerValue
    requires m in cfg.decls
  {
    PerValue(DefaultAt(cfg, f, cs, m, NO), DefaultAt(cfg, f, cs, m, MOD), DefaultAt(cfg, f, cs, m, YES))
  }

  function MemberOf(cfg: Config, f: Values, cs: Symbol, m: Symbol): Member
    requires m in cfg.decls
  {
    Member(ActsBoolean(cfg, m), VisiblePer(cfg, f, cs, m), DefaultPer(cfg, f, cs, m))
  }

  function PickOf(cfg: Config, f: Values, d: ChoiceDefault): DefaultPick {
    DefaultPick(EvalOr(d.visible, YES, Env(cfg, f)), d.member)
  }

  // A choice group under the values f of the symbols it depends on.
  ghost function GroupOf(sys: System, f: Values, cs: Symbol): Group
    requires WellFormedSystem(sys) && cs in sys.choices
  {
    var d := sys.choices[cs];
    assert WellFormedChoice(sys, cs);
    assert forall i :: 0 <= i < |d.members| ==> d.members[i] in sys.cfg.decls;
    Group(ActsBoolean(sys.cfg, cs), VisibleOf(sys.cfg, f, cs), SelectedOf(sys.cfg, f, cs),
          seq(|d.members|, i requires 0 <= i < |d.members| => MemberOf(sys.cfg, f, cs, d.members[i])),
          seq(|d.defaults|, i requires 0 <= i < |d.defaults| => PickOf(sys.cfg, f, d.defaults[i])))
  }

  function TriOf(w: Users, s: Symbol): Tristate {
    if s in w.tri then w.tri[s] else NO
  }

  function UserOf(w: Users, cs: Symbol, members: seq<Symbol>): User {
    User(cs in w.has, TriOf(w, cs),
         if cs in w.pick && w.pick[cs] < |members| then Some(w.pick[cs]) else None,
         seq(|members|, i requires 0 <= i < |members| => members[i] in w.has),
         seq(|members|, i requires 0 <= i < |members| => TriOf(w, members[i])))
  }

  function AsUser(w: Users): UserValues {
    map s | s in w.has :: TriOf(w, s)
  }

  ghost function SysEquation(sys: System, w: Users, f: Values, s: Symbol): Tristate
    requires WellFormedSystem(sys)
  {
    if s !in sys.cfg.decls then NO
    else if s in sys.choices then FinalTri(GroupOf(sys, f, s), UserOf(w, s, sys.choices[s].members))
    else if s in sys.owner then
      assert WellFormedMember(sys, s);
      var cs := sys.owner[s].choice;
      MemberValue(GroupOf(sys, f, cs), UserOf(w, cs, sys.choices[cs].members), sys.owner[s].index)
    else Equation(sys.cfg, AsUser(w), f, s)
  }

  ghost predicate IsSysSolution(sys: System, w: Users, f: Values)
    requires WellFormedSystem(sys)
  {
    forall s: Symbol {:trigger SysEquation(sys, w, f, s)} :: f(s) == SysEquation(sys, w, f, s)
  }

  // Dependencies come first; a choice comes before its members, and after everything else
  // that it, its defaults or its members depend on.
  ghost predicate SysRanked(sys: System, rank: Symbol -> nat)
    requires WellFormedSystem(sys)
  {
    && Ranked(sys.cfg, rank)
    && (forall m :: m in sys.owner ==> MemberRanked(sys, rank, m))
    && (forall cs, i, t | cs in sys.choices && 0 <= i < |sys.choices[cs].defaults| && t in sys.cfg.decls ::
          ContainsSymbol(sys.choices[cs].defaults[i].visible, t) ==> rank(t) < rank(cs))
  }

  ghost predicate MemberRanked(sys: System, rank: Symbol -> nat, m: Symbol)
    requires WellFormedSystem(sys) && m in sys.owner
  {
    assert WellFormedMember(sys, m);
    var cs := sys.owner[m].choice;
    && rank(cs) < rank(m)
    && forall t :: t in sys.cfg.decls && DependsOn(sys.cfg.decls[m], t) ==> t == cs || rank(t) < rank(cs)
  }

  // ----- Locality -----

  lemma MemberAtLocal(sys: System, rank: Symbol -> nat, f: Values, g: Values, cs: Symbol, m: Symbol, t: Tristate)
    requires WellFormedSystem(sys) && m in sys.owner && sys.owner[m].choice == cs && m in sys.cfg.decls
    requires MemberRanked(sys, rank, m) && AgreeBelow(rank, f, g, rank(cs))
    ensures VisibleOf(sys.cfg, With(f, cs, t), m) == VisibleOf(sys.cfg, With(g, cs, t), m)
    ensures DefaultAt(sys.cfg, f, cs, m, t) == DefaultAt(sys.cfg, g, cs, m, t)
  {
    var f', g' := With(f, cs, t), With(g, cs, t);
    forall u | u in sys.cfg.decls && DependsOn(sys.cfg.decls[m], u)
      ensures f'(u) == g'(u)
    {
    }
    EquationLocal(sys.cfg, map[], f', g', m);
  }

  lemma MemberLocal(sys: System, rank: Symbol -> nat, f: Values, g: Values, cs: Symbol, m: Symbol)
    requires WellFormedSystem(sys) && m in sys.owner && sys.owner[m].choice == cs && m in sys.cfg.decls
    requires MemberRanked(sys, rank, m) && AgreeBelow(rank, f, g, rank(cs))
    ensures MemberOf(sys.cfg, f, cs, m) == MemberOf(sys.cfg, g, cs, m)
  {
    MemberAtLocal(sys, rank, f, g, cs, m, NO);
    MemberAtLocal(sys, rank, f, g, cs, m, MOD);
    MemberAtLocal(sys, rank, f, g, cs, m, YES);
  }

  // A group depends only on symbols ranked below its choice.
  lemma GroupLocal(sys: System, rank: Symbol -> nat, f: Values, g: Values, cs: Symbol)
    requires WellFormedSystem(sys) && SysRanked(sys, rank) && cs in sys.choices
    requires AgreeBelow(rank, f, g, rank(cs))
    ensures GroupOf(sys, f, cs) == GroupOf(sys, g, cs)
  {
    var d := sys.choices[cs];
    assert WellFormedChoice(sys, cs);
    EquationLocal(sys.cfg, map[], f, g, cs);
    forall i | 0 <= i < |d.members|
      ensures d.members[i] in sys.cfg.decls
      ensures MemberOf(sys.cfg, f, cs, d.members[i]) == MemberOf(sys.cfg, g, cs, d.members[i])
    {
      assert WellFormedMember(sys, d.members[i]) && MemberRanked(sys, rank, d.members[i]);
      MemberLocal(sys, rank, f, g, cs, d.members[i]);
    }
    forall i | 0 <= i < |d.defaults|
      ensures PickOf(sys.cfg, f, d.defaults[i]) == PickOf(sys.cfg, g, d.defaults[i])
    {
      EvalOrLocal(sys.cfg, f, g, d.defaults[i].visible, YES);
    }
  }

  // An equation looks only at symbols of smaller rank.
  lemma SysLocal(sys: System, rank: Symbol -> nat, w: Users, f: Values, g: Values, s: Symbol)
    requires WellFormedSystem(sys) && SysRanked(sys, rank) && AgreeBelow(rank, f, g, rank(s))
    ensures SysEquation(sys, w, f, s) == SysEquation(sys, w, g, s)
  {
    if s in sys.cfg.decls {
      if s in sys.choices {
        GroupLocal(sys, rank, f, g, s);
      } else if s in sys.owner {
        assert WellFormedMember(sys, s) && MemberRanked(sys, rank, s);
        GroupLocal(sys, rank, f, g, sys.owner[s].choice);
      } else {
        SameEquation(sys.cfg, AsUser(w), f, g, s);
      }
    }
  }

  // ----- The solution -----

  ghost function SysEquationsOf(sys: System, w: Users): Equations
    requires WellFormedSystem(sys)
  {
    (f: Values, s: Symbol) => SysEquation(sys, w, f, s)
  }

  ghost function SysSolution(sys: System, w: Users, rank: Symbol -> nat): Values
    requires WellFormedSystem(sys)
  {
    Fixpoint(SysEquationsOf(sys, w), rank)
  }

  lemma SysIsLocal(sys: System, w: Users, rank: Symbol -> nat)
    requires WellFormedSystem(sys) && SysRanked(sys, rank)
    ensures Local(SysEquationsOf(sys, w), rank)
  {
    var eq := SysEquationsOf(sys, w);
    forall f, g, s | AgreeBelow(rank, f, g, rank(s))
      ensures eq(f, s) == eq(g, s)
    {
      SysLocal(sys, rank, w, f, g, s);
    }
  }

  // Without cyclic dependencies the values are determined: there is a solution ...
  lemma SysSolves(sys: System, w: Users, rank: Symbol -> nat)
    requires WellFormedSystem(sys) && SysRanked(sys, rank)
    ensures IsSysSolution(sys, w, SysSolution(sys, w, rank))
  {
    var eq, sol := SysEquationsOf(sys, w), SysSolution(sys, w, rank);
    SysIsLocal(sys, w, rank);
    FixpointSolves(eq, rank);
    forall s: Symbol
      ensures sol(s) == SysEquation(sys, w, sol, s)
    {
      assert sol(s) == eq(sol, s);
    }
  }

  // ... and only one.
  lemma SysUnique(sys: System, w: Users, rank: Symbol -> nat, f: Values, g: Values, s: Symbol)
    requires WellFormedSystem(sys) && SysRanked(sys, rank)
    requires IsSysSolution(sys, w, f) && IsSysSolution(sys, w, g)
    ensures f(s) == g(s)
  {
    var eq := SysEquationsOf(sys, w);
    SysIsLocal(sys, w, rank);
    assert Solves(eq, f) by {
      assert forall t: Symbol :: eq(f, t) == SysEquation(sys, w, f, t);
    }
    assert Solves(eq, g) by {
      assert forall t: Symbol :: eq(g, t) == SysEquation(sys, w, g, t);
    }
    SolutionsAgree(eq, rank, f, g, s);
  }

  // ----- Members and their choice -----

  // No boolean symbol is m.
  ghost predicate BooleansSafe(cfg: Config, f: Values) {
    forall s :: s in cfg.decls && HasType(s, BooleanType) ==> f(s) != MOD
  }

  lemma SysSolutionSafe(sys: System, w: Users, f: Values)
    requires WellFormedSystem(sys) && IsSysSolution(sys, w, f)
    ensures BooleansSafe(sys.cfg, f)
  {
    forall s | s in sys.cfg.decls && HasType(s, BooleanType)
      ensures f(s) != MOD
    {
      assert f(s) == SysEquation(sys, w, f, s);
      if s in sys.owner && s !in sys.choices {
        assert WellFormedMember(sys, s);
      }
    }
  }

  lemma EnvLegal(cfg: Config, f: Values)
    requires BooleansSafe(cfg, f)
    ensures Legal(Env(cfg, f))
  {
    forall s: Symbol
      ensures LegalValue(s, Env(cfg, f)(s))
    {
      var t: Tristate := if s in cfg.decls then f(s) else NO;
      assert IsValued(s) ==> Env(cfg, f)(s) == Value(t, Letter(t));
    }
  }

  lemma {:induction false} PromptBounds(ps: seq<Option<Expr>>, cs: Symbol, m: Symbol, v: Valuation)
    requires Legal(v) && forall i :: 0 <= i < |ps| ==> Guarded(ps[i], cs, m)
    ensures v(cs).tri == NO ==> AnyPrompt(ps, v) == NO
    ensures HasType(cs, TristateType) && v(cs).tri == MOD ==> AnyPrompt(ps, v) <= if HasType(m, BooleanType) then NO else MOD
  {
    if ps != [] {
      PromptBounds(ps[..|ps| - 1], cs, m, v);
      assert GuardedAt(ps[|ps| - 1], cs, m, v);
    }
  }

  lemma MemberAtBounds(cfg: Config, f: Values, cs: Symbol, m: Symbol, t: Tristate)
    requires cs in cfg.decls && IsValued(cs) && m in cfg.decls && BooleansSafe(cfg, f)
    requires forall i :: 0 <= i < |cfg.decls[m].prompts| ==> Guarded(cfg.decls[m].prompts[i], cs, m)
    requires t == NO || (t == MOD && HasType(cs, TristateType))
    ensures var x := AnyPrompt(cfg.decls[m].prompts, Env(cfg, With(f, cs, t)));
      if t == NO || HasType(m, BooleanType) then x == NO else x <= MOD
  {
    EnvLegal(cfg, With(f, cs, t));
    PromptBounds(cfg.decls[m].prompts, cs, m, Env(cfg, With(f, cs, t)));
  }

  // The guards make every member as limited as KconfChoice asks for.
  lemma MemberLimited(sys: System, f: Values, cs: Symbol, m: Symbol)
    requires WellFormedSystem(sys) && m in sys.owner && sys.owner[m].choice == cs && m in sys.cfg.decls
    requires cs in sys.cfg.decls && IsValued(cs) && IsValued(m) && BooleansSafe(sys.cfg, f)
    ensures Limited(VisiblePer(sys.cfg, f, cs, m), ActsBoolean(sys.cfg, cs))
  {
    assert WellFormedMember(sys, m);
    MemberAtBounds(sys.cfg, f, cs, m, NO);
    if HasType(cs, TristateType) {
      MemberAtBounds(sys.cfg, f, cs, m, MOD);
    }
  }

  lemma GroupWellFormed(sys: System, f: Values, cs: Symbol, w: Users)
    requires WellFormedSystem(sys) && cs in sys.choices && BooleansSafe(sys.cfg, f)
    ensures WellFormed(GroupOf(sys, f, cs)) && Fits(GroupOf(sys, f, cs), UserOf(w, cs, sys.choices[cs].members))
  {
    var d, g := sys.choices[cs], GroupOf(sys, f, cs);
    assert WellFormedChoice(sys, cs);
    forall i | 0 <= i < |d.members|
      ensures Limited(g.members[i].visible, g.boolean)
    {
      assert WellFormedMember(sys, d.members[i]);
      MemberLimited(sys, f, cs, d.members[i]);
    }
  }

  // In a solution, the visibility of a member is that of its prompts.
  lemma MemberVisibleIs(sys: System, w: Users, f: Values, cs: Symbol, i: nat)
    requires WellFormedSystem(sys) && IsSysSolution(sys, w, f) && cs in sys.choices && i < |sys.choices[cs].members|
    ensures sys.choices[cs].members[i] in sys.cfg.decls
    ensures VisibleOf(sys.cfg, f, sys.choices[cs].members[i])
      == MemberVisible(GroupOf(sys, f, cs), UserOf(w, cs, sys.choices[cs].members), i)
  {
    var m := sys.choices[cs].members[i];
    assert WellFormedChoice(sys, cs) && WellFormedMember(sys, m);
    assert f(cs) == SysEquation(sys, w, f, cs);
    EquationLocal(sys.cfg, map[], f, With(f, cs, f(cs)), m);
  }

  // ----- Changing the user state -----

  // Below a rank, the equations of two user states give the same for the values f.
  ghost predicate SameEquations(sys: System, rank: Symbol -> nat, w: Users, w': Users, f: Values, n: nat)
    requires WellFormedSystem(sys)
  {
    forall t: Symbol :: rank(t) < n ==> SysEquation(sys, w, f, t) == SysEquation(sys, w', f, t)
  }

  // Then the solutions agree below that rank.
  lemma {:induction false} SolutionsAgreeAt(sys: System, rank: Symbol -> nat, w: Users, w': Users, f: Values, f': Values, n: nat, t: Symbol)
    requires WellFormedSystem(sys) && SysRanked(sys, rank) && SameEquations(sys, rank, w, w', f, n)
    requires IsSysSolution(sys, w, f) && IsSysSolution(sys, w', f') && rank(t) < n
    ensures f'(t) == f(t)
    decreases rank(t)
  {
    forall u: Symbol | rank(u) < rank(t)
      ensures f'(u) == f(u)
    {
      SolutionsAgreeAt(sys, rank, w, w', f, f', n, u);
    }
    SysLocal(sys, rank, w', f', f, t);
    assert f(t) == SysEquation(sys, w, f, t) && f'(t) == SysEquation(sys, w', f', t);
  }

  lemma SolutionsAgreeBelow(sys: System, rank: Symbol -> nat, w: Users, w': Users, f: Values, f': Values, n: nat)
    requires WellFormedSystem(sys) && SysRanked(sys, rank) && SameEquations(sys, rank, w, w', f, n)
    requires IsSysSolution(sys, w, f) && IsSysSolution(sys, w', f')
    ensures AgreeBelow(rank, f', f, n)
  {
    forall t: Symbol | rank(t) < n
      ensures f'(t) == f(t)
    {
      SolutionsAgreeAt(sys, rank, w, w', f, f', n, t);
    }
  }

  predicate InGroup(sys: System, cs: Symbol, s: Symbol) {
    s == cs || (s in sys.owner && sys.owner[s].choice == cs)
  }

  predicate SameUser(w: Users, w': Users, s: Symbol) {
    && (s in w.has <==> s in w'.has) && TriOf(w, s) == TriOf(w', s)
    && (s in w.pick <==> s in w'.pick) && (s in w.pick ==> w.pick[s] == w'.pick[s])
  }

  // The two user states differ at most in the group of cs.
  ghost predicate SameOutside(sys: System, cs: Symbol, w: Users, w': Users) {
    forall s: Symbol :: !InGroup(sys, cs, s) ==> SameUser(w, w', s)
  }

  lemma OtherGroupSame(sys: System, cs: Symbol, other: Symbol, w: Users, w': Users)
    requires WellFormedSystem(sys) && SameOutside(sys, cs, w, w')
    requires cs in sys.choices && other in sys.choices && other != cs
    ensures UserOf(w, other, sys.choices[other].members) == UserOf(w', other, sys.choices[other].members)
  {
    var members := sys.choices[other].members;
    assert WellFormedChoice(sys, other) && WellFormedChoice(sys, cs);
    forall i | 0 <= i < |members|
      ensures SameUser(w, w', members[i])
    {
    }
    assert SameUser(w, w', other);
  }

  lemma OrdinarySame(cfg: Config, w: Users, w': Users, f: Values, s: Symbol)
    requires SameUser(w, w', s)
    ensures Equation(cfg, AsUser(w), f, s) == Equation(cfg, AsUser(w'), f, s)
  {
  }

  lemma UserIrrelevant(sys: System, rank: Symbol -> nat, cs: Symbol, w: Users, w': Users, f: Values, t: Symbol)
    requires WellFormedSystem(sys) && SysRanked(sys, rank) && cs in sys.choices && SameOutside(sys, cs, w, w')
    requires rank(t) < rank(cs)
    ensures SysEquation(sys, w, f, t) == SysEquation(sys, w', f, t)
  {
    if t in sys.cfg.decls {
      if t in sys.choices {
        OtherGroupSame(sys, cs, t, w, w');
      } else if t in sys.owner {
        assert WellFormedMember(sys, t) && MemberRanked(sys, rank, t);
        OtherGroupSame(sys, cs, sys.owner[t].choice, w, w');
      } else {
        assert SameUser(w, w', t);
        OrdinarySame(sys.cfg, w, w', f, t);
      }
    }
  }

  // Everything ranked below a choice keeps its value when the group's user state changes, so the
  // group itself is the same.
  lemma GroupUnaffected(sys: System, rank: Symbol -> nat, cs: Symbol, w: Users, w': Users, f: Values, f': Values)
    requires WellFormedSystem(sys) && SysRanked(sys, rank) && cs in sys.choices && SameOutside(sys, cs, w, w')
    requires IsSysSolution(sys, w, f) && IsSysSolution(sys, w', f')
    ensures AgreeBelow(rank, f', f, rank(cs)) && GroupOf(sys, f', cs) == GroupOf(sys, f, cs)
  {
    forall t: Symbol | rank(t) < rank(cs)
      ensures SysEquation(sys, w, f, t) == SysEquation(sys, w', f, t)
    {
      UserIrrelevant(sys, rank, cs, w, w', f, t);
    }
    SolutionsAgreeBelow(sys, rank, w, w', f, f', rank(cs));
    GroupLocal(sys, rank, f', f, cs);
  }

  // ----- Groups in a solution -----

  ghost function UserIn(sys: System, w: Users, cs: Symbol): User
    requires cs in sys.choices
  {
    UserOf(w, cs, sys.choices[cs].members)
  }

  lemma MembersDistinct(sys: System, cs: Symbol)
    requires WellFormedSystem(sys) && cs in sys.choices
    ensures var members := sys.choices[cs].members;
      && (forall j, k :: 0 <= j < |members| && 0 <= k < |members| && members[j] == members[k] ==> j == k)
      && (forall j :: 0 <= j < |members| ==> members[j] != cs && members[j] !in sys.choices)
  {
    var members := sys.choices[cs].members;
    assert WellFormedChoice(sys, cs);
    forall j, k | 0 <= j < |members| && 0 <= k < |members| && members[j] == members[k]
      ensures j == k
    {
      assert sys.owner[members[j]] == Place(cs, j) && sys.owner[members[k]] == Place(cs, k);
    }
    forall j | 0 <= j < |members|
      ensures members[j] !in sys.choices
    {
      assert members[j] in sys.choices ==> WellFormedChoice(sys, members[j]);
    }
  }

  // The values of a group's symbols in a solution.
  lemma GroupValues(sys: System, w: Users, f: Values, cs: Symbol)
    requires WellFormedSystem(sys) && IsSysSolution(sys, w, f) && cs in sys.choices
    ensures var g, u, members := GroupOf(sys, f, cs), UserIn(sys, w, cs), sys.choices[cs].members;
      && f(cs) == FinalTri(g, u)
      && forall j :: 0 <= j < |members| ==> f(members[j]) == MemberValue(g, u, j)
  {
    var g, u, members := GroupOf(sys, f, cs), UserIn(sys, w, cs), sys.choices[cs].members;
    assert WellFormedChoice(sys, cs);
    assert f(cs) == SysEquation(sys, w, f, cs);
    MembersDistinct(sys, cs);
    forall j | 0 <= j < |members|
      ensures f(members[j]) == MemberValue(g, u, j)
    {
      assert WellFormedMember(sys, members[j]);
      assert f(members[j]) == SysEquation(sys, w, f, members[j]);
    }
  }

  // Default k of a choice has a condition other than n and names a visible member.
  ghost predicate DefaultHolds(sys: System, f: Values, cs: Symbol, k: nat)
    requires WellFormedSystem(sys) && cs in sys.choices && k < |sys.choices[cs].defaults|
  {
    assert WellFormedChoice(sys, cs);
    var d := sys.choices[cs];
    var m := d.members[d.defaults[k].member];
    assert m in sys.owner && WellFormedMember(sys, m);
    EvalOr(d.defaults[k].visible, YES, Env(sys.cfg, f)) != NO && VisibleOf(sys.cfg, f, m) != NO
  }

  lemma DefaultHoldsIs(sys: System, w: Users, f: Values, cs: Symbol, k: nat)
    requires WellFormedSystem(sys) && IsSysSolution(sys, w, f) && cs in sys.choices && f(cs) == YES
    requires k < |sys.choices[cs].defaults|
    ensures DefaultHolds(sys, f, cs, k) <==> Applicable(GroupOf(sys, f, cs), k)
  {
    assert WellFormedChoice(sys, cs);
    GroupValues(sys, w, f, cs);
    MemberVisibleIs(sys, w, f, cs, sys.choices[cs].defaults[k].member);
  }

  // In a solution, a choice that is y and has no pick of the user goes to the member of the first
  // default that holds, if that member's visibility is y, and to no other of visibility y.
  lemma ChosenByDefault(sys: System, w: Users, f: Values, cs: Symbol, k: nat, i: nat)
    requires WellFormedSystem(sys) && IsSysSolution(sys, w, f) && cs in sys.choices && f(cs) == YES && cs !in w.pick
    requires k < |sys.choices[cs].defaults| && DefaultHolds(sys, f, cs, k)
    requires forall j :: 0 <= j < k ==> !DefaultHolds(sys, f, cs, j)
    requires i < |sys.choices[cs].members| && sys.choices[cs].members[i] in sys.cfg.decls
    requires VisibleOf(sys.cfg, f, sys.choices[cs].members[i]) == YES
    ensures f(sys.choices[cs].members[i]) == if i == sys.choices[cs].defaults[k].member then YES else NO
  {
    var g, u := GroupOf(sys, f, cs), UserIn(sys, w, cs);
    GroupValues(sys, w, f, cs);
    forall j | 0 <= j <= k
      ensures DefaultHolds(sys, f, cs, j) <==> Applicable(g, j)
    {
      DefaultHoldsIs(sys, w, f, cs, j);
    }
    PickOrder(g, u, k, 0);
    MemberVisibleIs(sys, w, f, cs, i);
  }
}
