/**
  Choice groups (sym_calc_choice and the choice cases of sym_calc_value,
  sym_tristate_within_range and sym_set_tristate_value in symbol.c).

  This module looks at one group given what it depends on: `visible` and `selected` are the
  visibility and the reverse dependency of the choice symbol, and each member's visibility and
  default are given for each value the choice may take.  KconfSystem takes them from the
  declarations and proves that setting a member does not change them.
 */
module KconfChoice {
  import opened KconfExpr

  // A tristate that depends on the value of the choice.
  datatype PerValue = PerValue(no: Tristate, mod: Tristate, yes: Tristate)

  function At(p: PerValue, t: Tristate): Tristate {
    if t == NO then p.no else if t == MOD then p.mod else p.yes
  }

  // `boolean` members have m promoted to y.
  datatype Member = Member(boolean: bool, visible: PerValue, default: PerValue)

  datatype DefaultPick = DefaultPick(visible: Tristate, member: nat)

  datatype Group = Group(boolean: bool, visible: Tristate, selected: Tristate,
                         members: seq<Member>, defaults: seq<DefaultPick>)

  // No member is visible while the choice is n, or has visibility y while it is m.
  predicate Limited(visible: PerValue, boolean: bool) {
    visible.no == NO && (visible.mod == YES ==> boolean)
  }

  ghost predicate WellFormed(g: Group) {
    && (g.boolean ==> g.visible != MOD && g.selected != MOD)
    && (forall i :: 0 <= i < |g.defaults| ==> g.defaults[i].member < |g.members|)
    && (forall i :: 0 <= i < |g.members| ==> Limited(g.members[i].visible, g.boolean))
  }

  // The user values and "has a user value" flags of the choice and of its members.
  datatype User = User(has: bool, tri: Tristate, pick: Option<nat>, memberHas: seq<bool>, memberTri: seq<Tristate>)

  ghost predicate Fits(g: Group, u: User) {
    |u.memberHas| == |u.memberTri| == |g.members| && (u.pick.Some? ==> u.pick.value < |g.members|)
  }

  // The visibility of a member when the choice has value t.
  function Reach(m: Member, t: Tristate): Tristate {
    At(m.visible, t)
  }

  // The value of the choice symbol before a member is picked.
  function ChoiceTri(g: Group, u: User): Tristate {
    var wanted := if g.visible != NO && u.has then Apply(AndOp, u.tri, g.visible) else NO;
    Promoted(g.boolean, Apply(OrOp, wanted, g.selected))
  }

  predicate Reachable(g: Group, i: nat) {
    i < |g.members| && Reach(g.members[i], YES) != NO
  }

  // The first default whose condition holds and whose member is visible.
  function DefaultFrom(g: Group, from: nat): Option<nat>
    decreases |g.defaults| - from
  {
    if from >= |g.defaults| then None
    else if g.defaults[from].visible != NO && Reachable(g, g.defaults[from].member) then Some(g.defaults[from].member)
    else DefaultFrom(g, from + 1)
  }

  function FirstFrom(g: Group, from: nat): Option<nat>
    decreases |g.members| - from
  {
    if from >= |g.members| then None
    else if Reachable(g, from) then Some(from) else FirstFrom(g, from + 1)
  }

  function Pick(g: Group, u: User): Option<nat> {
    if ChoiceTri(g, u) != YES then None
    else if u.pick.Some? && Reachable(g, u.pick.value) then u.pick
    else if DefaultFrom(g, 0).Some? then DefaultFrom(g, 0)
    else FirstFrom(g, 0)
  }

  // A choice without a visible member is n.
  function FinalTri(g: Group, u: User): Tristate {
    if ChoiceTri(g, u) == YES && Pick(g, u).None? then NO else ChoiceTri(g, u)
  }

  function MemberVisible(g: Group, u: User, i: nat): Tristate
    requires i < |g.members|
  {
    Reach(g.members[i], FinalTri(g, u))
  }

  function MemberValue(g: Group, u: User, i: nat): Tristate
    requires i < |g.members| == |u.memberHas| == |u.memberTri|
  {
    var visible := MemberVisible(g, u, i);
    if visible == YES then Truth(Pick(g, u) == Some(i))
    else Promoted(g.members[i].boolean,
                  if visible != NO && u.memberHas[i] then Apply(AndOp, u.memberTri[i], visible)
                  else At(g.members[i].default, FinalTri(g, u)))
  }

  // Evaluating a choice that is y forgets its user value if a visible member has none.
  function AfterCalc(g: Group, u: User): User
    requires |u.memberHas| == |g.members|
  {
    u.(has := u.has && (ChoiceTri(g, u) == YES ==> AllKnown(g, u.memberHas, |g.members|)))
  }

  predicate AllKnown(g: Group, memberHas: seq<bool>, n: nat)
    requires n <= |memberHas| == |g.members|
  {
    forall i :: 0 <= i < n && Reachable(g, i) ==> memberHas[i]
  }

  lemma {:induction false} FirstFromExact(g: Group, from: nat)
    ensures FirstFrom(g, from).None? <==> forall i :: from <= i < |g.members| ==> !Reachable(g, i)
    ensures FirstFrom(g, from).Some? ==> from <= FirstFrom(g, from).value && Reachable(g, FirstFrom(g, from).value)
    ensures FirstFrom(g, from).Some? ==> forall i :: from <= i < FirstFrom(g, from).value ==> !Reachable(g, i)
    decreases |g.members| - from
  {
    if from < |g.members| && !Reachable(g, from) {
      FirstFromExact(g, from + 1);
    }
  }

  lemma {:induction false} DefaultFromReachable(g: Group, from: nat)
    ensures DefaultFrom(g, from).Some? ==> Reachable(g, DefaultFrom(g, from).value)
    decreases |g.defaults| - from
  {
    if from < |g.defaults| {
      DefaultFromReachable(g, from + 1);
    }
  }

  // The condition of default k holds and its member is visible.
  ghost predicate Applicable(g: Group, k: nat) {
    k < |g.defaults| && g.defaults[k].visible != NO && Reachable(g, g.defaults[k].member)
  }

  lemma {:induction false} DefaultFromFirst(g: Group, from: nat, k: nat)
    requires from <= k && forall j :: from <= j < k ==> !Applicable(g, j)
    ensures Applicable(g, k) ==> DefaultFrom(g, from) == Some(g.defaults[k].member)
    ensures k >= |g.defaults| ==> DefaultFrom(g, from).None?
    decreases k - from
  {
    if from < k {
      assert !Applicable(g, from);
      if from < |g.defaults| {
        DefaultFromFirst(g, from + 1, k);
      }
    }
  }

  // A choice that is y picks the user's member if that is visible, else the member of the first
  // default that applies, and if there is none the first visible member.
  lemma PickOrder(g: Group, u: User, k: nat, i: nat)
    requires ChoiceTri(g, u) == YES
    ensures UserPicks(g, u) ==> Pick(g, u) == u.pick
    ensures !UserPicks(g, u) && FirstApplicable(g, k) ==> Pick(g, u) == Some(g.defaults[k].member)
    ensures !UserPicks(g, u) && (forall j :: 0 <= j < |g.defaults| ==> !Applicable(g, j)) && FirstReachable(g, i) ==>
      Pick(g, u) == Some(i)
  {
    if FirstApplicable(g, k) {
      DefaultFromFirst(g, 0, k);
    }
    if forall j :: 0 <= j < |g.defaults| ==> !Applicable(g, j) {
      DefaultFromFirst(g, 0, |g.defaults|);
    }
    FirstFromExact(g, 0);
  }

  ghost predicate UserPicks(g: Group, u: User) {
    u.pick.Some? && Reachable(g, u.pick.value)
  }

  ghost predicate FirstApplicable(g: Group, k: nat) {
    Applicable(g, k) && forall j :: 0 <= j < k ==> !Applicable(g, j)
  }

  ghost predicate FirstReachable(g: Group, i: nat) {
    Reachable(g, i) && forall j :: 0 <= j < i ==> !Reachable(g, j)
  }

  // The value of a choice by cases: a user value counts up to the visibility, and only while the
  // choice is visible; the reverse dependency is a lower bound; m is y for a boolean choice; and y
  // needs a visible member.
  lemma ChoiceCases(g: Group, u: User)
    ensures var t := ChoiceTri(g, u);
      if g.boolean then t == 0 || t == 2 else t == 0 || t == 1 || t == 2
    ensures g.visible == 0 || !u.has ==>
      ChoiceTri(g, u) == if g.boolean && g.selected == 1 then 2 else g.selected
    ensures g.visible != 0 && u.has && g.boolean ==> (ChoiceTri(g, u) == 0 <==> u.tri == 0 && g.selected == 0)
    ensures g.visible != 0 && u.has && !g.boolean ==> var t := ChoiceTri(g, u);
      && t >= g.selected && (t <= u.tri || t == g.selected) && (t <= g.visible || t == g.selected)
      && (t == u.tri || t == g.visible || t == g.selected)
      && (u.tri <= g.visible ==> t >= u.tri) && (g.visible <= u.tri ==> t >= g.visible)
    ensures (exists i :: 0 <= i < |g.members| && Reachable(g, i)) || ChoiceTri(g, u) != 2 ==> FinalTri(g, u) == ChoiceTri(g, u)
    ensures (forall i :: 0 <= i < |g.members| ==> !Reachable(g, i)) && ChoiceTri(g, u) == 2 ==> FinalTri(g, u) == 0
  {
    if ChoiceTri(g, u) == YES {
      PickExact(g, u);
    }
  }

  // The value of a member by cases: with visibility y it is y exactly if picked, and else n; with
  // visibility m its user value counts up to m; without a user value or a visible prompt it has its
  // default at the value of the choice.
  lemma MemberCases(g: Group, u: User, i: nat)
    requires i < |g.members| == |u.memberHas| == |u.memberTri|
    ensures var m, r, visible := g.members[i], MemberValue(g, u, i), MemberVisible(g, u, i);
      var default := if FinalTri(g, u) == 0 then m.default.no else if FinalTri(g, u) == 1 then m.default.mod else m.default.yes;
      && visible == (if FinalTri(g, u) == 0 then m.visible.no else if FinalTri(g, u) == 1 then m.visible.mod else m.visible.yes)
      && (visible == 2 ==> r == if Pick(g, u) == Some(i) then 2 else 0)
      && (visible == 1 && u.memberHas[i] ==> r == if u.memberTri[i] == 0 then 0 else if m.boolean then 2 else 1)
      && (visible == 0 || (visible == 1 && !u.memberHas[i]) ==> r == if default == 1 && m.boolean then 2 else default)
  {
  }

  // A choice that is y picks a member exactly if one is visible, and then a visible one.
  lemma PickExact(g: Group, u: User)
    requires ChoiceTri(g, u) == YES
    ensures Pick(g, u).Some? <==> exists i :: 0 <= i < |g.members| && Reachable(g, i)
    ensures Pick(g, u).Some? ==> Reachable(g, Pick(g, u).value)
  {
    FirstFromExact(g, 0);
    DefaultFromReachable(g, 0);
  }

  // Of the members with visibility y at most one is y, and one is exactly if the choice is y
  // and the member it picked has visibility y.
  lemma MutualExclusion(g: Group, u: User)
    requires WellFormed(g) && Fits(g, u)
    ensures forall i, j | 0 <= i < |g.members| && 0 <= j < |g.members| ::
      MemberVisible(g, u, i) == MemberVisible(g, u, j) == MemberValue(g, u, i) == MemberValue(g, u, j) == YES ==> i == j
    ensures (exists i :: 0 <= i < |g.members| && MemberVisible(g, u, i) == MemberValue(g, u, i) == YES) <==>
            (FinalTri(g, u) == YES && Reach(g.members[PickOf(g, u)], YES) == YES)
  {
    if ChoiceTri(g, u) == YES {
      PickExact(g, u);
    }
    if FinalTri(g, u) == YES && Reach(g.members[PickOf(g, u)], YES) == YES {
      assert MemberVisible(g, u, PickOf(g, u)) == MemberValue(g, u, PickOf(g, u)) == YES;
    }
  }

  function PickOf(g: Group, u: User): (i: nat)
    requires FinalTri(g, u) == YES
    ensures i < |g.members|
  {
    PickExact(g, u);
    Pick(g, u).value
  }

  // sym_tristate_within_range for a member
  predicate MemberWithinRange(m: Member, visible: Tristate, val: Tristate) {
    && visible != NO
    && !((m.boolean || visible == YES) && val == MOD)
    && (if visible == YES then val == YES else val <= visible)
  }

  // The user state after sym_set_tristate_value accepted `val` for member i.
  function SetMember(g: Group, u: User, visible: seq<Tristate>, i: nat, val: Tristate): User
    requires |visible| == |g.members| == |u.memberHas| == |u.memberTri| && i < |g.members|
  {
    var has := u.memberHas[i := true];
    var known := if val == YES then seq(|has|, k requires 0 <= k < |has| => has[k] || visible[k] != NO) else has;
    var u' := u.(memberHas := known, memberTri := u.memberTri[i := val]);
    if val == YES then u'.(has := true, pick := Some(i)) else u'
  }

  // The visibilities the evaluation of the group leaves in its members.
  function Visibilities(g: Group, u: User): seq<Tristate> {
    seq(|g.members|, k requires 0 <= k < |g.members| => MemberVisible(g, u, k))
  }

  // Whatever visibilities were stored when member i was set to y: afterwards it is y, with
  // visibility y, exactly if that is its visibility with the choice at the value its own user
  // value gives.  Then it is the pick, and every other member of visibility y is n.
  lemma SelectExact(g: Group, u: User, visible: seq<Tristate>, i: nat)
    requires WellFormed(g) && Fits(g, u) && |visible| == |g.members| && i < |g.members|
    ensures var u' := SetMember(g, u, visible, i, YES);
      var selected := Reach(g.members[i], ChoiceTri(g, u.(has := true))) == YES;
      && Fits(g, u') && (MemberVisible(g, u', i) == YES && MemberValue(g, u', i) == YES <==> selected)
      && (selected ==> FinalTri(g, u') == YES && Pick(g, u') == Some(i))
      && (selected ==> forall j :: 0 <= j < |g.members| && j != i && MemberVisible(g, u', j) == YES ==> MemberValue(g, u', j) == NO)
  {
    var u' := SetMember(g, u, visible, i, YES);
    assert ChoiceTri(g, u') == ChoiceTri(g, u.(has := true));
    if ChoiceTri(g, u') == YES {
      PickExact(g, u');
    }
  }

  // Setting a member to n or m changes neither the choice nor its pick nor any other member; the
  // member takes the value exactly if it is within the range of visibility m, or is its value
  // anyway.
  lemma SetOtherExact(g: Group, u: User, visible: seq<Tristate>, i: nat, val: Tristate)
    requires WellFormed(g) && Fits(g, u) && |visible| == |g.members| && i < |g.members| && val != YES
    ensures var u' := SetMember(g, u, visible, i, val);
      && Fits(g, u') && FinalTri(g, u') == FinalTri(g, u) && Pick(g, u') == Pick(g, u)
      && (forall j :: 0 <= j < |g.members| && j != i ==> MemberValue(g, u', j) == MemberValue(g, u, j))
      && (MemberValue(g, u', i) == val <==>
            if MemberVisible(g, u, i) == MOD then MemberWithinRange(g.members[i], MOD, val) else MemberValue(g, u, i) == val)
  {
  }

  // Entering the user's pick never lowers the choice.
  lemma StaysYes(g: Group, u: User, i: nat)
    requires WellFormed(g) && Fits(g, u) && i < |g.members| && ChoiceTri(g, u) == YES
    ensures ChoiceTri(g, SetMember(g, AfterCalc(g, u), Visibilities(g, u), i, YES)) == YES
  {
  }

  // Setting a member whose visibility is y to y selects it: it is the choice's pick and y,
  // every other member of visibility y is n, no member's visibility changes, and the choice
  // keeps its user value at the next evaluation.
  lemma SetMemberThenGet(g: Group, u: User, i: nat)
    requires WellFormed(g) && Fits(g, u) && i < |g.members| && MemberVisible(g, u, i) == YES
    ensures MemberWithinRange(g.members[i], MemberVisible(g, u, i), YES)
    ensures var u' := SetMember(g, AfterCalc(g, u), Visibilities(g, u), i, YES);
      && Fits(g, u') && FinalTri(g, u') == YES && Pick(g, u') == Some(i) && MemberValue(g, u', i) == YES
      && (forall j :: 0 <= j < |g.members| ==> MemberVisible(g, u', j) == MemberVisible(g, u, j))
      && (forall j :: 0 <= j < |g.members| && j != i && MemberVisible(g, u', j) == YES ==> MemberValue(g, u', j) == NO)
      && AfterCalc(g, u') == u'
  {
    var u' := SetMember(g, AfterCalc(g, u), Visibilities(g, u), i, YES);
    StaysYes(g, u, i);
    assert Reachable(g, i);
    forall k | 0 <= k < |g.members| && Reachable(g, k)
      ensures u'.memberHas[k]
    {
      assert Visibilities(g, u)[k] == Reach(g.members[k], YES);
    }
  }

  // A member of visibility m takes exactly the values in its range, and leaves the choice and
  // the other members alone, unless it is asked to be y or the choice forgets its own y.
  lemma SetModuleMember(g: Group, u: User, i: nat, val: Tristate)
    requires WellFormed(g) && Fits(g, u) && i < |g.members| && MemberVisible(g, u, i) == MOD
    requires val != YES && ChoiceTri(g, AfterCalc(g, u)) == ChoiceTri(g, u)
    ensures var u' := SetMember(g, AfterCalc(g, u), Visibilities(g, u), i, val);
      && Fits(g, u') && FinalTri(g, u') == FinalTri(g, u) && Pick(g, u') == Pick(g, u)
      && (MemberWithinRange(g.members[i], MOD, val) <==> MemberValue(g, u', i) == val)
      && (forall j :: 0 <= j < |g.members| && j != i ==> MemberValue(g, u', j) == MemberValue(g, u, j))
  {
  }

  // Evaluating twice agrees with evaluating once exactly if no user value is forgotten or the
  // choice is y without it.
  lemma RecalcExact(g: Group, u: User)
    requires WellFormed(g) && Fits(g, u) && ChoiceTri(g, u) == YES
    ensures ChoiceTri(g, AfterCalc(g, u)) == YES <==>
            g.selected == YES || (u.has && AllKnown(g, u.memberHas, |g.members|))
  {
  }

  // If the choice keeps its value without the forgotten user value, so does everything else.
  lemma ForgettingKeeps(g: Group, u: User)
    requires Fits(g, u) && ChoiceTri(g, AfterCalc(g, u)) == ChoiceTri(g, u)
    ensures var u' := AfterCalc(g, u);
      && Fits(g, u') && FinalTri(g, u') == FinalTri(g, u)
      && forall i :: 0 <= i < |g.members| ==> MemberValue(g, u', i) == MemberValue(g, u, i)
  {
    assert Pick(g, AfterCalc(g, u)) == Pick(g, u);
  }

  // A tristate choice that is y by its user value alone, with one visible member without a user
  // value, is y when evaluated and n when evaluated again.
  lemma RecalcLoses()
    ensures var g := Group(false, YES, NO, [Member(false, PerValue(NO, MOD, YES), PerValue(NO, NO, NO))], []);
      var u := User(true, YES, None, [false], [NO]);
      WellFormed(g) && Fits(g, u) && ChoiceTri(g, u) == YES && ChoiceTri(g, AfterCalc(g, u)) == NO
  {
    var g := Group(false, YES, NO, [Member(false, PerValue(NO, MOD, YES), PerValue(NO, NO, NO))], []);
    assert Reachable(g, 0);
  }

  class Choice {
    const g: Group
    var user: User
    var currTri: Tristate           // curr.tri of the choice symbol
    var currVal: Option<nat>        // curr.val of the choice symbol: the member picked
    var visible: seq<Tristate>      // `visible` of each member
    var memberCurr: seq<Tristate>   // curr.tri of each member

    ghost predicate Valid()
      reads this
    {
      WellFormed(g) && Fits(g, user) && |visible| == |memberCurr| == |g.members|
    }

    // The fields hold the group's values for the user state `u` they were computed from.
    ghost predicate Computed(u: User)
      reads this
    {
      && Fits(g, u) && user == AfterCalc(g, u)
      && currTri == FinalTri(g, u) && currVal == Pick(g, u)
      && visible == Visibilities(g, u)
      && |memberCurr| == |g.members|
      && forall i :: 0 <= i < |g.members| ==> memberCurr[i] == MemberValue(g, u, i)
    }

    constructor (g: Group, user: User)
      requires WellFormed(g) && Fits(g, user)
      ensures Valid() && this.g == g && this.user == user
    {
      this.g, this.user := g, user;
      currTri, currVal := NO, None;
      visible, memberCurr := seq(|g.members|, _ => NO), seq(|g.members|, _ => NO);
    }

    // sym_calc_choice, when the choice symbol has just been given the value y
    method CalcChoice()
      requires Valid() && currTri == YES && ChoiceTri(g, user) == YES
      modifies this`visible, this`user, this`currTri, this`currVal
      ensures Valid() && user == AfterCalc(g, old(user))
      ensures currTri == FinalTri(g, old(user)) && currVal == Pick(g, old(user))
      ensures visible == seq(|g.members|, k requires 0 <= k < |g.members| => Reach(g.members[k], YES))
    {
      var known := true;
      for i := 0 to |g.members|
        invariant |visible| == |g.members| && user == old(user) && currTri == YES
        invariant forall k :: 0 <= k < i ==> visible[k] == Reach(g.members[k], YES)
        invariant known == AllKnown(g, user.memberHas, i)
      {
        visible := visible[i := Reach(g.members[i], currTri)];
        known := known && (visible[i] != NO ==> user.memberHas[i]);
      }
      user := user.(has := user.has && known);
      if user.pick.Some? && visible[user.pick.value] != NO {
        currVal := user.pick;
        return;
      }
      currVal := ChoiceDefault();
      if currVal.None? {
        currTri := NO;
      }
    }

    // sym_choice_default
    method ChoiceDefault() returns (pick: Option<nat>)
      requires Valid() && visible == seq(|g.members|, k requires 0 <= k < |g.members| => Reach(g.members[k], YES))
      ensures pick == if DefaultFrom(g, 0).Some? then DefaultFrom(g, 0) else FirstFrom(g, 0)
    {
      for i := 0 to |g.defaults|
        invariant DefaultFrom(g, 0) == DefaultFrom(g, i)
      {
        var d := g.defaults[i];
        if d.visible != NO && visible[d.member] != NO {
          return Some(d.member);
        }
      }
      for i := 0 to |g.members|
        invariant FirstFrom(g, 0) == FirstFrom(g, i)
      {
        if visible[i] != NO {
          return Some(i);
        }
      }
      pick := None;
    }

    // sym_calc_value for the choice symbol
    method CalcSymbol()
      requires Valid()
      modifies this`visible, this`user, this`currTri, this`currVal
      ensures Valid() && user == AfterCalc(g, old(user))
      ensures currTri == FinalTri(g, old(user)) && currVal == Pick(g, old(user))
    {
      var newval := NO;
      if g.visible != NO && user.has {
        newval := Apply(AndOp, user.tri, g.visible);
      }
      newval := Promoted(g.boolean, Apply(OrOp, newval, g.selected));
      currTri, currVal := newval, None;
      if newval == YES {
        CalcChoice();
      }
    }

    // sym_calc_value for a member, after the choice symbol
    method CalcMember(i: nat, ghost u: User)
      requires Valid() && Fits(g, u) && i < |g.members| && user == AfterCalc(g, u)
      requires currTri == FinalTri(g, u) && currVal == Pick(g, u)
      modifies this`visible, this`memberCurr
      ensures Valid()
      ensures visible == old(visible)[i := MemberVisible(g, u, i)]
      ensures memberCurr == old(memberCurr)[i := MemberValue(g, u, i)]
    {
      var m := g.members[i];
      visible := visible[i := Reach(m, currTri)];
      var newval;
      if visible[i] == YES {
        newval := Truth(currVal == Some(i));
      } else {
        newval := At(m.default, currTri);
        if visible[i] != NO && user.memberHas[i] {
          newval := Apply(AndOp, user.memberTri[i], visible[i]);
        }
        newval := Promoted(m.boolean, newval);
      }
      memberCurr := memberCurr[i := newval];
    }

    // The whole group, choice symbol first.
    method CalcGroup()
      requires Valid()
      modifies this
      ensures Valid() && Computed(old(user))
    {
      ghost var u := user;
      CalcSymbol();
      for i := 0 to |g.members|
        invariant Valid() && user == AfterCalc(g, u) && currTri == FinalTri(g, u) && currVal == Pick(g, u)
        invariant forall k :: 0 <= k < i ==> visible[k] == MemberVisible(g, u, k) && memberCurr[k] == MemberValue(g, u, k)
      {
        CalcMember(i, u);
      }
    }

    // sym_set_tristate_value for a member of an evaluated group
    method Set(i: nat, val: Tristate, ghost u: User) returns (ok: bool)
      requires Valid() && Computed(u) && i < |g.members|
      modifies this`user
      ensures Valid()
      ensures ok <==> val == memberCurr[i] || MemberWithinRange(g.members[i], visible[i], val)
      ensures user == if ok then SetMember(g, old(user), visible, i, val) else old(user)
    {
      ok := memberCurr[i] == val || MemberWithinRange(g.members[i], visible[i], val);
      if !ok {
        return;
      }
      user := user.(memberHas := user.memberHas[i := true]);
      if val == YES {
        user := user.(pick := Some(i), has := true);
        ghost var has := user.memberHas;
        for k := 0 to |g.members|
          invariant Fits(g, user) && user == old(user).(pick := Some(i), has := true, memberHas := user.memberHas)
          invariant forall j :: 0 <= j < |g.members| ==> user.memberHas[j] == (has[j] || (j < k && visible[j] != NO))
        {
          if visible[k] != NO {
            user := user.(memberHas := user.memberHas[k := true]);
          }
        }
      }
      user := user.(memberTri := user.memberTri[i := val]);
    }

    // Asking for y on a member of visibility y, then evaluating again, selects that member alone.
    method Select(i: nat, ghost u: User)
      requires Valid() && Computed(u) && i < |g.members| && visible[i] == YES
      modifies this
      ensures Valid() && currTri == YES && currVal == Some(i) && memberCurr[i] == YES
      ensures visible == old(visible) && user.has
      ensures forall j :: 0 <= j < |g.members| && j != i && visible[j] == YES ==> memberCurr[j] == NO
    {
      SetMemberThenGet(g, u, i);
      var ok := Set(i, YES, u);
      CalcGroup();
    }
  }
}
