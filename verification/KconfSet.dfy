/**
  Set then get in whole configurations (sym_set_tristate_value and sym_calc_value in symbol.c),
  for choice members and ordinary symbols.

  Evaluating a choice may drop its user value (KconfChoice.AfterCalc), so recomputing can change
  symbols nobody has set.  The exact results are therefore stated against the values g that
  recomputing would give just before the symbol is set; they are the values f computed last
  wherever every choice the symbol depends on is stable.
 */
module KconfSet {
  import opened KconfExpr
  import opened KconfCompare
  import opened KconfGuard
  import opened KconfFixpoint
  import opened KconfCalc
  import opened KconfChoice
  import opened KconfSystem

  // Evaluating the choice cs forgets its user value.
  ghost predicate Forgets(sys: System, w: Users, f: Values, cs: Symbol)
    requires WellFormedSystem(sys) && cs in sys.choices
  {
    AfterCalc(GroupOf(sys, f, cs), UserIn(sys, w, cs)) != UserIn(sys, w, cs)
  }

  // The user state after all symbols have been evaluated.
  ghost function Evaluated(sys: System, w: Users, f: Values): Users
    requires WellFormedSystem(sys)
  {
    w.(has := set s | s in w.has && !(s in sys.choices && Forgets(sys, w, f, s)))
  }

  // The user state after sym_set_tristate_value accepted `val` for member i of cs.
  ghost function SetIn(sys: System, w: Users, cs: Symbol, visible: seq<Tristate>, i: nat, val: Tristate): Users
    requires cs in sys.choices && |visible| == |sys.choices[cs].members| && i < |visible|
  {
    var members := sys.choices[cs].members;
    var known := w.has + {members[i]};
    var w' := w.(has := known, tri := w.tri[members[i] := val]);
    if val != YES then w'
    else w'.(has := known + {cs} + (set k | 0 <= k < |members| && visible[k] != NO :: members[k]), pick := w.pick[cs := i])
  }

  // The part of the user state that SetIn writes, read back as the group's user state.
  lemma SetInUser(sys: System, w: Users, g: Group, cs: Symbol, visible: seq<Tristate>, i: nat, val: Tristate)
    requires WellFormedSystem(sys) && cs in sys.choices && |visible| == |sys.choices[cs].members| == |g.members| && i < |visible|
    ensures UserIn(sys, SetIn(sys, w, cs, visible, i, val), cs) == SetMember(g, UserIn(sys, w, cs), visible, i, val)
  {
    MembersDistinct(sys, cs);
    SetInFlags(sys, w, g, cs, visible, i, val, SetIn(sys, w, cs, visible, i, val), sys.choices[cs].members);
    SetInValues(sys, w, g, cs, visible, i, val, SetIn(sys, w, cs, visible, i, val), sys.choices[cs].members);
  }

  lemma SetInFlags(sys: System, w: Users, g: Group, cs: Symbol, visible: seq<Tristate>, i: nat, val: Tristate, w': Users, members: seq<Symbol>)
    requires cs in sys.choices && members == sys.choices[cs].members && |visible| == |members| == |g.members| && i < |visible|
    requires w' == SetIn(sys, w, cs, visible, i, val) && (forall j :: 0 <= j < |members| ==> members[j] != cs)
    requires forall j, k :: 0 <= j < |members| && 0 <= k < |members| && members[j] == members[k] ==> j == k
    ensures UserOf(w', cs, members).memberHas == SetMember(g, UserOf(w, cs, members), visible, i, val).memberHas
  {
    var got, want := UserOf(w', cs, members).memberHas, SetMember(g, UserOf(w, cs, members), visible, i, val).memberHas;
    forall k | 0 <= k < |members|
      ensures got[k] == want[k]
    {
      assert got[k] <==> members[k] in w'.has;
    }
  }

  lemma SetInValues(sys: System, w: Users, g: Group, cs: Symbol, visible: seq<Tristate>, i: nat, val: Tristate, w': Users, members: seq<Symbol>)
    requires cs in sys.choices && members == sys.choices[cs].members && |visible| == |members| == |g.members| && i < |visible|
    requires w' == SetIn(sys, w, cs, visible, i, val) && (forall j :: 0 <= j < |members| ==> members[j] != cs)
    requires forall j, k :: 0 <= j < |members| && 0 <= k < |members| && members[j] == members[k] ==> j == k
    ensures var got, want := UserOf(w', cs, members), SetMember(g, UserOf(w, cs, members), visible, i, val);
      got.memberTri == want.memberTri && got.has == want.has && got.tri == want.tri && got.pick == want.pick
  {
    var got, want := UserOf(w', cs, members), SetMember(g, UserOf(w, cs, members), visible, i, val);
    forall k | 0 <= k < |members|
      ensures got.memberTri[k] == want.memberTri[k]
    {
      assert got.memberTri[k] == TriOf(w', members[k]);
    }
  }

  lemma EvaluatedUser(sys: System, w: Users, f: Values, cs: Symbol)
    requires WellFormedSystem(sys) && cs in sys.choices
    ensures UserIn(sys, Evaluated(sys, w, f), cs) == AfterCalc(GroupOf(sys, f, cs), UserIn(sys, w, cs))
  {
    MembersDistinct(sys, cs);
    var w', members := Evaluated(sys, w, f), sys.choices[cs].members;
    assert UserOf(w', cs, members).memberHas == UserOf(w, cs, members).memberHas;
  }

  lemma SetInOutside(sys: System, w: Users, cs: Symbol, visible: seq<Tristate>, i: nat, val: Tristate)
    requires WellFormedSystem(sys) && cs in sys.choices && |visible| == |sys.choices[cs].members| && i < |visible|
    ensures SameOutside(sys, cs, w, SetIn(sys, w, cs, visible, i, val))
  {
    assert WellFormedChoice(sys, cs);
    var w' := SetIn(sys, w, cs, visible, i, val);
    forall s: Symbol | !InGroup(sys, cs, s)
      ensures SameUser(w, w', s)
    {
      assert forall k :: 0 <= k < |visible| ==> InGroup(sys, cs, sys.choices[cs].members[k]);
    }
  }

  // ----- Choice members, exactly -----

  // The visibility member i would have with the choice at the value its own user value gives.
  ghost predicate Selectable(sys: System, w: Users, g: Values, cs: Symbol, i: nat)
    requires WellFormedSystem(sys) && cs in sys.choices && i < |sys.choices[cs].members|
  {
    var group := GroupOf(sys, g, cs);
    Reach(group.members[i], ChoiceTri(group, UserIn(sys, w, cs).(has := true))) == YES
  }

  // A member set to y from the user state w, and every symbol recomputed: the group depends on
  // the values g that recomputing gives without setting anything, and the member ends up y with
  // visibility y exactly if it is selectable under them.  Then the choice is y, and every other
  // member of visibility y is n.
  lemma SetMemberExact(sys: System, rank: Symbol -> nat, w: Users, g: Values, cs: Symbol, visible: seq<Tristate>, i: nat, w': Users, f': Values)
    requires WellFormedSystem(sys) && SysRanked(sys, rank) && cs in sys.choices
    requires |visible| == |sys.choices[cs].members| && i < |visible|
    requires IsSysSolution(sys, w, g) && w' == SetIn(sys, w, cs, visible, i, YES) && IsSysSolution(sys, w', f')
    ensures AgreeBelow(rank, f', g, rank(cs)) && GroupOf(sys, f', cs) == GroupOf(sys, g, cs)
    ensures var members, group, u' := sys.choices[cs].members, GroupOf(sys, f', cs), UserIn(sys, w', cs);
      && (MemberVisible(group, u', i) == YES && f'(members[i]) == YES <==> Selectable(sys, w, g, cs, i))
      && (Selectable(sys, w, g, cs, i) ==> f'(cs) == YES)
      && (Selectable(sys, w, g, cs, i) ==> forall j :: 0 <= j < |members| && j != i && MemberVisible(group, u', j) == YES ==>
            f'(members[j]) == NO)
  {
    var group, u := GroupOf(sys, g, cs), UserIn(sys, w, cs);
    SetInOutside(sys, w, cs, visible, i, YES);
    GroupUnaffected(sys, rank, cs, w, w', g, f');
    SetInUser(sys, w, group, cs, visible, i, YES);
    SysSolutionSafe(sys, w, g);
    GroupWellFormed(sys, g, cs, w);
    SelectExact(group, u, visible, i);
    GroupValues(sys, w', f', cs);
  }

  // A member set to n or m from the user state w, and every symbol recomputed: the choice and the
  // other members have the values g that recomputing gives without setting anything, and the
  // member takes the value exactly if it is within the range of visibility m, or its value in g.
  lemma SetMemberOtherExact(sys: System, rank: Symbol -> nat, w: Users, g: Values, cs: Symbol, visible: seq<Tristate>, i: nat, val: Tristate,
                            w': Users, f': Values)
    requires WellFormedSystem(sys) && SysRanked(sys, rank) && cs in sys.choices && val != YES
    requires |visible| == |sys.choices[cs].members| && i < |visible|
    requires IsSysSolution(sys, w, g) && w' == SetIn(sys, w, cs, visible, i, val) && IsSysSolution(sys, w', f')
    ensures AgreeBelow(rank, f', g, rank(cs)) && GroupOf(sys, f', cs) == GroupOf(sys, g, cs)
    ensures var members, group := sys.choices[cs].members, GroupOf(sys, g, cs);
      && f'(cs) == g(cs) && (forall j :: 0 <= j < |members| && j != i ==> f'(members[j]) == g(members[j]))
      && (f'(members[i]) == val <==>
            if MemberVisible(group, UserIn(sys, w, cs), i) == MOD then MemberWithinRange(group.members[i], MOD, val)
            else g(members[i]) == val)
  {
    var group, u := GroupOf(sys, g, cs), UserIn(sys, w, cs);
    SetInOutside(sys, w, cs, visible, i, val);
    GroupUnaffected(sys, rank, cs, w, w', g, f');
    SetInUser(sys, w, group, cs, visible, i, val);
    SysSolutionSafe(sys, w, g);
    GroupWellFormed(sys, g, cs, w);
    SetOtherExact(group, u, visible, i, val);
    GroupValues(sys, w, g, cs);
    GroupValues(sys, w', f', cs);
  }

  // ----- Ordinary symbols, exactly -----

  predicate Ordinary(sys: System, s: Symbol) {
    s in sys.cfg.decls && s !in sys.choices && s !in sys.owner
  }

  // The user state after sym_set_tristate_value accepted `val` for an ordinary symbol.
  function SetOrdinary(w: Users, s: Symbol, val: Tristate): Users {
    w.(has := w.has + {s}, tri := w.tri[s := val])
  }

  lemma OrdinaryIrrelevant(sys: System, rank: Symbol -> nat, w: Users, s: Symbol, val: Tristate, g: Values, t: Symbol)
    requires WellFormedSystem(sys) && Ordinary(sys, s) && t != s
    ensures SysEquation(sys, w, g, t) == SysEquation(sys, SetOrdinary(w, s, val), g, t)
  {
    var w' := SetOrdinary(w, s, val);
    if t in sys.cfg.decls {
      if t in sys.choices {
        OrdinaryOutside(sys, w, s, val, t);
      } else if t in sys.owner {
        assert WellFormedMember(sys, t);
        OrdinaryOutside(sys, w, s, val, sys.owner[t].choice);
      } else {
        OrdinarySame(sys.cfg, w, w', g, t);
      }
    }
  }

  lemma OrdinaryOutside(sys: System, w: Users, s: Symbol, val: Tristate, cs: Symbol)
    requires WellFormedSystem(sys) && Ordinary(sys, s) && cs in sys.choices
    ensures UserIn(sys, SetOrdinary(w, s, val), cs) == UserIn(sys, w, cs)
  {
    var w', members := SetOrdinary(w, s, val), sys.choices[cs].members;
    assert WellFormedChoice(sys, cs);
    assert UserOf(w', cs, members).memberHas == UserOf(w, cs, members).memberHas;
    assert UserOf(w', cs, members).memberTri == UserOf(w, cs, members).memberTri;
  }

  // The value an ordinary symbol takes once the user asks for `val`, against the values g that
  // recomputing gives without setting anything.  The values within range under g are exactly the
  // ones that stick, for a symbol the user can change under g.
  lemma SetOrdinaryExact(sys: System, rank: Symbol -> nat, w: Users, g: Values, s: Symbol, val: Tristate, w': Users, f': Values)
    requires WellFormedSystem(sys) && SysRanked(sys, rank) && Ordinary(sys, s)
    requires IsSysSolution(sys, w, g) && w' == SetOrdinary(w, s, val) && IsSysSolution(sys, w', f')
    ensures AgreeBelow(rank, f', g, rank(s))
    ensures var visible, selected := VisibleOf(sys.cfg, g, s), SelectedOf(sys.cfg, g, s);
      && (visible == NO ==> f'(s) == g(s))
      && (visible != NO ==> f'(s) == Promote(sys.cfg, s, Apply(OrOp, Apply(AndOp, val, visible), selected)))
      && (visible > selected ==> (WithinRange(sys.cfg, s, visible, selected, val) <==> f'(s) == val))
  {
    forall t: Symbol | rank(t) < rank(s)
      ensures SysEquation(sys, w, g, t) == SysEquation(sys, w', g, t)
    {
      OrdinaryIrrelevant(sys, rank, w, s, val, g, t);
    }
    SolutionsAgreeBelow(sys, rank, w, w', g, f', rank(s));
    OrdinaryEquations(sys.cfg, rank, w, g, s, val, w', f');
    assert g(s) == SysEquation(sys, w, g, s) && f'(s) == SysEquation(sys, w', f', s);
  }

  lemma OrdinaryEquations(cfg: Config, rank: Symbol -> nat, w: Users, g: Values, s: Symbol, val: Tristate, w': Users, f': Values)
    requires Ranked(cfg, rank) && s in cfg.decls && w' == SetOrdinary(w, s, val) && AgreeBelow(rank, f', g, rank(s))
    ensures var visible, selected := VisibleOf(cfg, g, s), SelectedOf(cfg, g, s);
      Equation(cfg, AsUser(w'), f', s) ==
        if visible == NO then Equation(cfg, AsUser(w), g, s)
        else Promote(cfg, s, Apply(OrOp, Apply(AndOp, val, visible), selected))
  {
    EquationLocal(cfg, AsUser(w'), f', g, s);
    assert AsUser(w')[s] == val;
  }

  // ----- Stable choices -----

  // The choice has the same value when evaluated again; KconfChoice.RecalcExact says when.
  ghost predicate Stable(sys: System, w: Users, f: Values, cs: Symbol)
    requires WellFormedSystem(sys) && cs in sys.choices
  {
    var g, u := GroupOf(sys, f, cs), UserIn(sys, w, cs);
    ChoiceTri(g, AfterCalc(g, u)) == ChoiceTri(g, u)
  }

  ghost predicate StableBelow(sys: System, rank: Symbol -> nat, w: Users, f: Values, n: nat)
    requires WellFormedSystem(sys)
  {
    forall cs :: cs in sys.choices && rank(cs) < n ==> Stable(sys, w, f, cs)
  }

  lemma EvaluatedSame(sys: System, w: Users, f: Values, s: Symbol)
    requires WellFormedSystem(sys) && BooleansSafe(sys.cfg, f)
    requires s in sys.choices ==> Stable(sys, w, f, s)
    requires s in sys.owner && sys.owner[s].choice in sys.choices ==> Stable(sys, w, f, sys.owner[s].choice)
    ensures SysEquation(sys, Evaluated(sys, w, f), f, s) == SysEquation(sys, w, f, s)
  {
    if s in sys.cfg.decls {
      if s in sys.choices {
        EvaluatedUser(sys, w, f, s);
        GroupWellFormed(sys, f, s, w);
        ForgettingKeeps(GroupOf(sys, f, s), UserIn(sys, w, s));
      } else if s in sys.owner {
        assert WellFormedMember(sys, s);
        var cs := sys.owner[s].choice;
        EvaluatedUser(sys, w, f, cs);
        GroupWellFormed(sys, f, cs, w);
        ForgettingKeeps(GroupOf(sys, f, cs), UserIn(sys, w, cs));
      } else {
        OrdinarySame(sys.cfg, w, Evaluated(sys, w, f), f, s);
      }
    }
  }

  // If every choice is stable, evaluating leaves a user state with the same values and nothing
  // more to forget.
  lemma EvaluatedSolves(sys: System, w: Users, f: Values)
    requires WellFormedSystem(sys) && IsSysSolution(sys, w, f)
    requires forall cs :: cs in sys.choices ==> Stable(sys, w, f, cs)
    ensures IsSysSolution(sys, Evaluated(sys, w, f), f)
    ensures forall cs :: cs in sys.choices ==> !Forgets(sys, Evaluated(sys, w, f), f, cs)
  {
    var w' := Evaluated(sys, w, f);
    SysSolutionSafe(sys, w, f);
    forall cs | cs in sys.choices
      ensures !Forgets(sys, w', f, cs)
    {
      EvaluatedUser(sys, w, f, cs);
    }
    forall s: Symbol
      ensures f(s) == SysEquation(sys, w', f, s)
    {
      EvaluatedSame(sys, w, f, s);
      assert f(s) == SysEquation(sys, w, f, s);
    }
  }

  // Where every choice below a rank is stable, recomputing after an evaluation changes nothing
  // below that rank.
  lemma StableAgrees(sys: System, rank: Symbol -> nat, w: Users, f: Values, g: Values, n: nat)
    requires WellFormedSystem(sys) && SysRanked(sys, rank) && StableBelow(sys, rank, w, f, n)
    requires IsSysSolution(sys, w, f) && IsSysSolution(sys, Evaluated(sys, w, f), g)
    ensures AgreeBelow(rank, g, f, n)
  {
    var w' := Evaluated(sys, w, f);
    SysSolutionSafe(sys, w, f);
    forall t: Symbol | rank(t) < n
      ensures SysEquation(sys, w, f, t) == SysEquation(sys, w', f, t)
    {
      if t in sys.owner {
        assert WellFormedMember(sys, t) && MemberRanked(sys, rank, t);
      }
      EvaluatedSame(sys, w, f, t);
    }
    SolutionsAgreeBelow(sys, rank, w, w', f, g, n);
  }

  // Setting a member whose visibility is y to y after evaluating everything, and recomputing every
  // symbol: if every choice ranked below is stable, the member and the choice are y, every other
  // member whose visibility is y is n, no member's visibility changes, and nothing the group
  // depends on changes.
  lemma SystemSetThenGet(sys: System, rank: Symbol -> nat, w: Users, f: Values, cs: Symbol, i: nat, w': Users, f': Values)
    requires WellFormedSystem(sys) && SysRanked(sys, rank) && cs in sys.choices && i < |sys.choices[cs].members|
    requires IsSysSolution(sys, w, f) && StableBelow(sys, rank, w, f, rank(cs))
    requires MemberVisible(GroupOf(sys, f, cs), UserIn(sys, w, cs), i) == YES
    requires w' == SetIn(sys, Evaluated(sys, w, f), cs, Visibilities(GroupOf(sys, f, cs), UserIn(sys, w, cs)), i, YES)
    requires IsSysSolution(sys, w', f')
    ensures var members := sys.choices[cs].members;
      && f'(cs) == YES && f'(members[i]) == YES
      && (forall j :: 0 <= j < |members| ==>
            MemberVisible(GroupOf(sys, f', cs), UserIn(sys, w', cs), j) == MemberVisible(GroupOf(sys, f, cs), UserIn(sys, w, cs), j))
      && (forall j :: 0 <= j < |members| && j != i && MemberVisible(GroupOf(sys, f, cs), UserIn(sys, w, cs), j) == YES ==>
            f'(members[j]) == NO)
      && AgreeBelow(rank, f', f, rank(cs))
  {
    var group, u := GroupOf(sys, f, cs), UserIn(sys, w, cs);
    StableGroup(sys, rank, w, f, cs, Visibilities(group, u), i, YES, w', f');
    EvaluatedUser(sys, w, f, cs);
    SetInUser(sys, Evaluated(sys, w, f), group, cs, Visibilities(group, u), i, YES);
    SysSolutionSafe(sys, w, f);
    GroupWellFormed(sys, f, cs, w);
    SetMemberThenGet(group, u, i);
    GroupValues(sys, w', f', cs);
  }

  // Then the group is the one the last evaluation saw.
  lemma StableGroup(sys: System, rank: Symbol -> nat, w: Users, f: Values, cs: Symbol, visible: seq<Tristate>, i: nat, val: Tristate,
                    w': Users, f': Values)
    requires WellFormedSystem(sys) && SysRanked(sys, rank) && cs in sys.choices
    requires |visible| == |sys.choices[cs].members| && i < |visible|
    requires IsSysSolution(sys, w, f) && StableBelow(sys, rank, w, f, rank(cs))
    requires w' == SetIn(sys, Evaluated(sys, w, f), cs, visible, i, val) && IsSysSolution(sys, w', f')
    ensures AgreeBelow(rank, f', f, rank(cs)) && GroupOf(sys, f', cs) == GroupOf(sys, f, cs)
  {
    var between := Evaluated(sys, w, f);
    var g := SysSolution(sys, between, rank);
    SysSolves(sys, between, rank);
    StableAgrees(sys, rank, w, f, g, rank(cs));
    SetInOutside(sys, between, cs, visible, i, val);
    GroupUnaffected(sys, rank, cs, between, w', g, f');
    GroupLocal(sys, rank, f', f, cs);
  }

  // A member of visibility m set to n or m after evaluating everything, and every symbol
  // recomputed: if the choice and every choice ranked below it are stable, it takes exactly the
  // values within range, and the choice, the other members and everything the group depends on
  // stay as they are.
  lemma SystemSetModule(sys: System, rank: Symbol -> nat, w: Users, f: Values, cs: Symbol, i: nat, val: Tristate, w': Users, f': Values)
    requires WellFormedSystem(sys) && SysRanked(sys, rank) && cs in sys.choices && i < |sys.choices[cs].members|
    requires IsSysSolution(sys, w, f) && StableBelow(sys, rank, w, f, rank(cs) + 1) && val != YES
    requires MemberVisible(GroupOf(sys, f, cs), UserIn(sys, w, cs), i) == MOD
    requires w' == SetIn(sys, Evaluated(sys, w, f), cs, Visibilities(GroupOf(sys, f, cs), UserIn(sys, w, cs)), i, val)
    requires IsSysSolution(sys, w', f')
    ensures var members := sys.choices[cs].members;
      && (MemberWithinRange(GroupOf(sys, f, cs).members[i], MOD, val) <==> f'(members[i]) == val)
      && f'(cs) == f(cs) && (forall j :: 0 <= j < |members| && j != i ==> f'(members[j]) == f(members[j]))
      && AgreeBelow(rank, f', f, rank(cs))
  {
    var group, u := GroupOf(sys, f, cs), UserIn(sys, w, cs);
    StableGroup(sys, rank, w, f, cs, Visibilities(group, u), i, val, w', f');
    EvaluatedUser(sys, w, f, cs);
    SetInUser(sys, Evaluated(sys, w, f), group, cs, Visibilities(group, u), i, val);
    SysSolutionSafe(sys, w, f);
    GroupWellFormed(sys, f, cs, w);
    assert Stable(sys, w, f, cs);
    SetModuleMember(group, u, i, val);
    GroupValues(sys, w, f, cs);
    GroupValues(sys, w', f', cs);
  }

  // An ordinary symbol set after evaluating everything: if every choice ranked below it is stable,
  // the range of its stored visibility and reverse dependency is exactly what sticks.
  lemma SystemSetOrdinary(sys: System, rank: Symbol -> nat, w: Users, f: Values, s: Symbol, val: Tristate, w': Users, f': Values)
    requires WellFormedSystem(sys) && SysRanked(sys, rank) && Ordinary(sys, s)
    requires IsSysSolution(sys, w, f) && StableBelow(sys, rank, w, f, rank(s))
    requires w' == SetOrdinary(Evaluated(sys, w, f), s, val) && IsSysSolution(sys, w', f')
    requires VisibleOf(sys.cfg, f, s) > SelectedOf(sys.cfg, f, s)
    ensures WithinRange(sys.cfg, s, VisibleOf(sys.cfg, f, s), SelectedOf(sys.cfg, f, s), val) <==> f'(s) == val
    ensures AgreeBelow(rank, f', f, rank(s))
  {
    var between := Evaluated(sys, w, f);
    var g := SysSolution(sys, between, rank);
    SysSolves(sys, between, rank);
    StableAgrees(sys, rank, w, f, g, rank(s));
    SetOrdinaryExact(sys, rank, between, g, s, val, w', f');
    EquationLocal(sys.cfg, map[], g, f, s);
  }
}
