/**
  A configuration in which setting a choice member to y is accepted and does not stick: another
  choice, on which the member depends, has forgotten its own user value when it was evaluated.
 */
module KconfSetWitness {
  import opened KconfExpr
  import opened KconfCompare
  import opened KconfGuard
  import opened KconfFixpoint
  import opened KconfCalc
  import opened KconfChoice
  import opened KconfSystem
  import opened KconfSet

  // A tristate choice with one tristate member.
  const UPPER := Named(0, TristateType)
  const ONLY := Named(1, TristateType)

  // A boolean choice that is always selected, with two boolean members that depend on UPPER.
  const LOWER := Named(2, BooleanType)
  const FIRST := Named(3, BooleanType)
  const SECOND := Named(4, BooleanType)

  function UpperDecl(): Decl {
    Decl([None], [], None, None)
  }

  function OnlyDecl(): Decl {
    Decl([Some(Sym(UPPER))], [], None, None)
  }

  function LowerDecl(): Decl {
    Decl([None], [], None, Some(Sym(SYMBOL_MOD)))
  }

  function MemberDecl(): Decl {
    Decl([Some(Bin(AndOp, Sym(LOWER), Sym(UPPER)))], [], None, None)
  }

  function TwoChoices(): System {
    System(Config(map[UPPER := UpperDecl(), ONLY := OnlyDecl(), LOWER := LowerDecl(), FIRST := MemberDecl(), SECOND := MemberDecl()],
                  YES, s => ""),
           map[UPPER := ChoiceDecl([ONLY], []), LOWER := ChoiceDecl([FIRST, SECOND], [])],
           map[ONLY := Place(UPPER, 0), FIRST := Place(LOWER, 0), SECOND := Place(LOWER, 1)])
  }

  function RankOf(s: Symbol): nat {
    if s == UPPER then 0 else if s == ONLY then 1 else if s == LOWER then 2 else 3
  }

  // The user has asked for UPPER to be y, and for nothing else.
  function AskedUpper(): Users {
    Users({UPPER}, map[UPPER := YES], map[])
  }

  lemma MembersGuarded()
    ensures Guarded(Some(Sym(UPPER)), UPPER, ONLY)
    ensures Guarded(Some(Bin(AndOp, Sym(LOWER), Sym(UPPER))), LOWER, FIRST)
    ensures Guarded(Some(Bin(AndOp, Sym(LOWER), Sym(UPPER))), LOWER, SECOND)
  {
    ConjunctGuarded(Sym(UPPER), UPPER, ONLY);
    ConjunctGuarded(Bin(AndOp, Sym(LOWER), Sym(UPPER)), LOWER, FIRST);
    ConjunctGuarded(Bin(AndOp, Sym(LOWER), Sym(UPPER)), LOWER, SECOND);
  }

  lemma TwoChoicesWellFormed()
    ensures WellFormedSystem(TwoChoices())
  {
    MembersGuarded();
    var sys := TwoChoices();
    assert WellFormedChoice(sys, UPPER) && WellFormedChoice(sys, LOWER);
    assert WellFormedMember(sys, ONLY) && WellFormedMember(sys, FIRST) && WellFormedMember(sys, SECOND);
  }

  lemma Dependencies(s: Symbol, t: Symbol)
    requires s in TwoChoices().cfg.decls && t in TwoChoices().cfg.decls && DependsOn(TwoChoices().cfg.decls[s], t)
    ensures s == ONLY ==> t == UPPER
    ensures s == FIRST || s == SECOND ==> t == LOWER || t == UPPER
    ensures s in {ONLY, FIRST, SECOND}
  {
    assert t != SYMBOL_MOD;
  }

  lemma ConfigRanked()
    ensures Ranked(TwoChoices().cfg, RankOf)
  {
    var cfg := TwoChoices().cfg;
    forall s, t | s in cfg.decls && t in cfg.decls && DependsOn(cfg.decls[s], t)
      ensures RankOf(t) < RankOf(s)
    {
      Dependencies(s, t);
    }
  }

  lemma MemberIsRanked(m: Symbol)
    requires WellFormedSystem(TwoChoices()) && m in TwoChoices().owner
    ensures MemberRanked(TwoChoices(), RankOf, m)
  {
    var sys := TwoChoices();
    forall t | t in sys.cfg.decls && DependsOn(sys.cfg.decls[m], t)
      ensures t == sys.owner[m].choice || RankOf(t) < RankOf(sys.owner[m].choice)
    {
      Dependencies(m, t);
    }
  }

  lemma TwoChoicesRanked()
    ensures WellFormedSystem(TwoChoices()) && SysRanked(TwoChoices(), RankOf)
  {
    TwoChoicesWellFormed();
    ConfigRanked();
    forall m | m in TwoChoices().owner
      ensures MemberRanked(TwoChoices(), RankOf, m)
    {
      MemberIsRanked(m);
    }
  }

  // ----- The two groups -----

  function UpperGroup(): Group {
    Group(false, YES, NO, [Member(false, PerValue(NO, MOD, YES), PerValue(NO, NO, NO))], [])
  }

  // The lower group, with the upper choice at t.
  function LowerGroup(t: Tristate): Group {
    var m := Member(true, PerValue(NO, Promoted(true, Apply(AndOp, MOD, t)), Promoted(true, Apply(AndOp, YES, t))), PerValue(NO, NO, NO));
    Group(true, YES, YES, [m, m], [])
  }

  lemma ConstantsIn(cfg: Config, f: Values)
    ensures Env(cfg, f)(SYMBOL_YES).tri == YES && Env(cfg, f)(SYMBOL_MOD).tri == MOD
  {
    assert SYMBOL_MOD.name[0] != SYMBOL_YES.name[0];
  }

  lemma OnePrompt(p: Option<Expr>, v: Valuation)
    ensures AnyPrompt([p], v) == EvalOr(p, YES, v)
  {
    assert AnyPrompt([p][..0], v) == NO;
  }

  lemma OnlyMember(f: Values)
    ensures MemberOf(TwoChoices().cfg, f, UPPER, ONLY) == UpperGroup().members[0]
  {
    var cfg := TwoChoices().cfg;
    OnlyVisible(f, NO);
    OnlyVisible(f, MOD);
    OnlyVisible(f, YES);
  }

  lemma OnlyVisible(f: Values, t: Tristate)
    ensures VisibleOf(TwoChoices().cfg, With(f, UPPER, t), ONLY) == t
    ensures DefaultAt(TwoChoices().cfg, f, UPPER, ONLY, t) == NO
  {
    var cfg := TwoChoices().cfg;
    OnePrompt(Some(Sym(UPPER)), Env(cfg, With(f, UPPER, t)));
  }

  lemma LowerVisible(f: Values, m: Symbol, t: Tristate)
    requires m == FIRST || m == SECOND
    ensures VisibleOf(TwoChoices().cfg, With(f, LOWER, t), m) == Promoted(true, Apply(AndOp, t, f(UPPER)))
    ensures DefaultAt(TwoChoices().cfg, f, LOWER, m, t) == NO
  {
    var cfg := TwoChoices().cfg;
    var v := Env(cfg, With(f, LOWER, t));
    OnePrompt(Some(Bin(AndOp, Sym(LOWER), Sym(UPPER))), v);
    assert v(LOWER).tri == t && v(UPPER).tri == f(UPPER);
  }

  lemma LowerMember(f: Values, m: Symbol)
    requires m == FIRST || m == SECOND
    ensures MemberOf(TwoChoices().cfg, f, LOWER, m) == LowerGroup(f(UPPER)).members[0]
  {
    LowerVisible(f, m, NO);
    LowerVisible(f, m, MOD);
    LowerVisible(f, m, YES);
  }

  lemma UpperIs(f: Values)
    requires WellFormedSystem(TwoChoices())
    ensures GroupOf(TwoChoices(), f, UPPER) == UpperGroup()
  {
    var sys := TwoChoices();
    OnlyMember(f);
    OnePrompt(None, Env(sys.cfg, f));
    assert GroupOf(sys, f, UPPER).members == UpperGroup().members;
  }

  lemma LowerMembers(f: Values)
    requires WellFormedSystem(TwoChoices())
    ensures GroupOf(TwoChoices(), f, LOWER).members == LowerGroup(f(UPPER)).members
  {
    var members := GroupOf(TwoChoices(), f, LOWER).members;
    LowerMember(f, FIRST);
    LowerMember(f, SECOND);
    assert TwoChoices().choices[LOWER].members == [FIRST, SECOND];
    assert |members| == 2 && members[0] == LowerGroup(f(UPPER)).members[0] && members[1] == LowerGroup(f(UPPER)).members[1];
  }

  lemma LowerFields(f: Values)
    ensures VisibleOf(TwoChoices().cfg, f, LOWER) == YES && SelectedOf(TwoChoices().cfg, f, LOWER) == YES
  {
    var cfg := TwoChoices().cfg;
    OnePrompt(None, Env(cfg, f));
    ConstantsIn(cfg, f);
  }

  lemma LowerIs(f: Values)
    requires WellFormedSystem(TwoChoices())
    ensures GroupOf(TwoChoices(), f, LOWER) == LowerGroup(f(UPPER))
  {
    LowerMembers(f);
    LowerFields(f);
  }

  // ----- Setting the second member -----

  // While the upper choice is y, the lower one picks its first member, and the second is visible.
  lemma LowerWhileY(u: User)
    requires Fits(LowerGroup(YES), u) && u.pick == None
    ensures FinalTri(LowerGroup(YES), u) == YES && MemberVisible(LowerGroup(YES), u, 1) == YES && MemberValue(LowerGroup(YES), u, 1) == NO
  {
    assert Reachable(LowerGroup(YES), 0);
    assert FirstFrom(LowerGroup(YES), 0) == Some(0);
  }

  // While it is n, the lower choice has no visible member.
  lemma LowerWhileN(u: User)
    requires Fits(LowerGroup(NO), u)
    ensures FinalTri(LowerGroup(NO), u) == NO && MemberValue(LowerGroup(NO), u, 1) == NO
  {
    PickExact(LowerGroup(NO), u);
  }

  // The upper choice is y by its user value, which evaluating it drops, and n without.
  lemma UpperOnce(u: User)
    requires u == User(true, YES, None, [false], [NO])
    ensures FinalTri(UpperGroup(), u) == YES && AfterCalc(UpperGroup(), u) != u
    ensures ChoiceTri(UpperGroup(), AfterCalc(UpperGroup(), u)) == NO
  {
    assert Reachable(UpperGroup(), 0);
    assert FirstFrom(UpperGroup(), 0) == Some(0);
  }

  lemma UpperAfter(u: User)
    requires !u.has
    ensures FinalTri(UpperGroup(), u) == NO
  {
  }

  lemma AskedUsers()
    ensures UserOf(AskedUpper(), UPPER, [ONLY]) == User(true, YES, None, [false], [NO])
    ensures UserOf(AskedUpper(), LOWER, [FIRST, SECOND]).pick == None
  {
  }

  lemma UpperForgets(f: Values)
    requires WellFormedSystem(TwoChoices())
    ensures Forgets(TwoChoices(), AskedUpper(), f, UPPER) && !Stable(TwoChoices(), AskedUpper(), f, UPPER)
  {
    AskedUsers();
    UpperIs(f);
    UpperOnce(UserIn(TwoChoices(), AskedUpper(), UPPER));
  }

  lemma UpperForgotten(f: Values, visible: seq<Tristate>)
    requires WellFormedSystem(TwoChoices()) && |visible| == 2
    ensures UPPER !in SetIn(TwoChoices(), Evaluated(TwoChoices(), AskedUpper(), f), LOWER, visible, 1, YES).has
  {
    var w := Evaluated(TwoChoices(), AskedUpper(), f);
    UpperForgets(f);
    assert UPPER !in w.has;
    assert !InGroup(TwoChoices(), LOWER, UPPER);
    SetInOutside(TwoChoices(), w, LOWER, visible, 1, YES);
    assert SameUser(w, SetIn(TwoChoices(), w, LOWER, visible, 1, YES), UPPER);
  }

  // The second member of the lower choice is n and visible as y.  Setting it to y is accepted, and
  // when everything is recomputed it is n, and so are both choices.
  lemma AcceptedAndLost(f: Values, visible: seq<Tristate>, w': Users, f': Values)
    requires WellFormedSystem(TwoChoices()) && IsSysSolution(TwoChoices(), AskedUpper(), f) && |visible| == 2
    requires w' == SetIn(TwoChoices(), Evaluated(TwoChoices(), AskedUpper(), f), LOWER, visible, 1, YES)
    requires IsSysSolution(TwoChoices(), w', f')
    ensures f(UPPER) == YES && f(LOWER) == YES && f(SECOND) == NO && VisibleOf(TwoChoices().cfg, f, SECOND) == YES
    ensures f'(UPPER) == NO && f'(LOWER) == NO && f'(SECOND) == NO
    ensures !Stable(TwoChoices(), AskedUpper(), f, UPPER)
  {
    Before(f);
    UpperForgets(f);
    UpperForgotten(f, visible);
    After(w', f');
  }

  lemma Before(f: Values)
    requires WellFormedSystem(TwoChoices()) && IsSysSolution(TwoChoices(), AskedUpper(), f)
    ensures f(UPPER) == YES && f(LOWER) == YES && f(SECOND) == NO && VisibleOf(TwoChoices().cfg, f, SECOND) == YES
  {
    var sys, w := TwoChoices(), AskedUpper();
    AskedUsers();
    GroupValues(sys, w, f, UPPER);
    UpperIs(f);
    UpperOnce(UserIn(sys, w, UPPER));
    GroupValues(sys, w, f, LOWER);
    LowerIs(f);
    LowerWhileY(UserIn(sys, w, LOWER));
    MemberVisibleIs(sys, w, f, LOWER, 1);
  }

  lemma After(w': Users, f': Values)
    requires WellFormedSystem(TwoChoices()) && UPPER !in w'.has && IsSysSolution(TwoChoices(), w', f')
    ensures f'(UPPER) == NO && f'(LOWER) == NO && f'(SECOND) == NO
  {
    var sys := TwoChoices();
    GroupValues(sys, w', f', UPPER);
    UpperIs(f');
    UpperAfter(UserIn(sys, w', UPPER));
    GroupValues(sys, w', f', LOWER);
    LowerIs(f');
    LowerWhileN(UserIn(sys, w', LOWER));
  }

  // There are such values: the configuration has no cyclic dependencies.
  lemma LosesAcceptedValue() returns (f: Values, w': Users, f': Values)
    ensures WellFormedSystem(TwoChoices()) && IsSysSolution(TwoChoices(), AskedUpper(), f)
    ensures w' == SetIn(TwoChoices(), Evaluated(TwoChoices(), AskedUpper(), f), LOWER, [YES, YES], 1, YES)
    ensures IsSysSolution(TwoChoices(), w', f')
    ensures Visibilities(GroupOf(TwoChoices(), f, LOWER), UserIn(TwoChoices(), AskedUpper(), LOWER)) == [YES, YES]
    ensures f(SECOND) == NO && VisibleOf(TwoChoices().cfg, f, SECOND) == YES && f'(SECOND) == NO
  {
    var sys, w := TwoChoices(), AskedUpper();
    TwoChoicesRanked();
    f := SysSolution(sys, w, RankOf);
    SysSolves(sys, w, RankOf);
    w' := SetIn(sys, Evaluated(sys, w, f), LOWER, [YES, YES], 1, YES);
    f' := SysSolution(sys, w', RankOf);
    SysSolves(sys, w', RankOf);
    AcceptedAndLost(f, [YES, YES], w', f');
    LowerIs(f);
    AskedUsers();
    BothVisible(UserIn(sys, w, LOWER));
  }

  lemma BothVisible(u: User)
    requires Fits(LowerGroup(YES), u) && u.pick == None
    ensures Visibilities(LowerGroup(YES), u) == [YES, YES]
  {
    LowerWhileY(u);
    assert MemberVisible(LowerGroup(YES), u, 0) == YES;
  }
}
