# Verified models from the driver backports tree

This project models four pieces of the driver backports tree that carry real invariants, and proves
what they promise. Everything is stated for all inputs, all runs or all reachable states; where the
code does not keep a promise, the exact condition under which it does is proved instead.

`dafny verify dfyconfig.toml` checks the whole project.

**The Kconfig constraint engine.** Dependencies are expressions over n < m < y with minimum, maximum
and 2 - x. `KconfExpr` gives their meaning: a valuation maps each symbol to a tristate and a string,
booleans are never m, and the string of a boolean or tristate symbol is the letter of its value.
`KconfEq`, `KconfTransform`, `KconfSlots`, `KconfDups` and `KconfCompare` are the simplifier;
`KconfEqExact` and `KconfDupsExact` say what it finds and what its results look like, beside being sound. The
duplicate eliminator compares a tree with itself through pointers to its own slots; here a slot is a
path in one root tree, so that pointer equality is equality of paths. The first pass is sound in three
values, the second in two: it keeps every value except m, and `KconfDupsWitness` shows it changing an m.
`KconfPrint` is the printer and the expression grammar that reads it back. `KconfCalc` says what the
value of a symbol is (the solution of a system of equations) and `KconfTable` proves that the memoising
evaluator computes it; `KconfFixpoint` is why there is exactly one. `KconfChoice` is the evaluation of one
choice group, `KconfGuard` why its members depend on it however their prompts simplify, `KconfSystem` the
equations of whole configurations with choice groups, and `KconfSet` what setting a symbol does to the
recomputed values, exactly. `KconfCheck` is the cycle checker whose clean run supplies the
ranking the evaluator needs. `KconfMenu` is the pointer surgery on the menu tree and the
pointer walk that writes the configuration, over heap objects with child, sibling and parent pointers.
`KconfEscape` is the quoting of string values.

**CCM authenticated encryption** (RFC 3610, NIST SP 800-38C). The block cipher is an arbitrary function
on 16-byte blocks. `CcmMac` is the streaming CBC-MAC, `CcmFormat` the block format with an independent
decoder, `CcmAead` encryption and decryption as functions, `CcmRequest` the request that runs them in
place on its buffers and IV.

**CoDel queue management** (section 5 of RFC 8289). `CodelRate` is the fixed-point Newton iteration with
every width and truncation of the source; `CodelQueue` is the queue as a class that keeps a ghost log of
everything it examined, dropped, marked and returned. Its `Valid()` holds after every operation, so it
speaks about whole runs.

**The MIPS interrupt line allocator.** `MipsIrq` keeps the five 32-bit mask registers; `IrqLines` is its
specification, one line per flag.

Findings, each with an input at which it happens:

- Simplifying can turn an m into n (`KconfDupsWitness.SecondPassNeedsTwoValues`), and by the dual rule for a
  disjunction an m into y (`KconfDups.ContradictionExact`); it never changes a y or an n.
- Structural equality is not transitive when y or n are operands, and then depends on the order in which
  operands are written (`KconfEqExact.ReorderedNotEqual`); without them it is exact (`KconfEqExact.ExprEqExact`).
- Menu nesting is decided in two-valued logic: an entry can end up below a symbol that is neither set nor
  visible while the entry is (`KconfNestWitness.NestedButNotReachable`).
- `conf_parse` reports a recursive dependency but never counts it as an error: the return value is cleared
  at the head of the cycle (`KconfCheck.Checker.CheckAll`, `KconfCheck.ReportedNotCounted`).
- Setting a symbol to the value it already has skips the range check and keeps the cache, which can leave a
  stale value (`KconfTable.SymbolTable.SetTristate`, `KconfTable.SetCurrentGoesStale`).
- A choice that is y only by its user value loses that value, and at the next evaluation its y, when a
  visible member has no user value (`KconfChoice.RecalcExact`, `KconfChoice.RecalcLoses`).
- So setting a symbol can be accepted and not stick: recomputing changes another choice that has forgotten its
  user value, and with it what the symbol depends on (`KconfSet.SetMemberExact`, `KconfSet.SetOrdinaryExact`,
  `KconfSetWitness.LosesAcceptedValue`).
- The guard of the CCM length field admits 256^L for L = 2 and 3, where the field reads 0
  (`CcmFormat.LengthFieldExact`, `CcmWitness.LengthReadsZero`).
- CCM decryption formats its first block after counter mode has changed the IV. A message too long for its
  field can carry the counter through a nonce of 0xff bytes into the length byte, and decrypt then accepts
  what encrypt refuses (`CcmAead.DecryptThenEncrypt`, `CcmWitness.OpensWhatNothingSeals`).
- CoDel variables start with a zero estimate, which no Newton step leaves. Entering the dropping state within
  16 intervals of time zero therefore gives gaps of zero length until the next reset
  (`CodelRate.NewtonZeroExact`, `CodelQueue.Codel.DropLoop`, `CodelQueue.EntersWithZeroEstimate`).
- The interrupt allocator shifts by the flag of every core it searches. A core that raises no flag looks like
  flag 31 to a shift by the low five bits, and is then taken for the user of the line
  (`MipsIrq.Bus.SetIrq`, `MipsIrq.HiddenUser`).

## Model

| member | source | states |
|---|---|---|
| `KconfEq.EliminateYnValue` | AIO/drivers/backports/kconf/expr.c:231-315 | folding y and n out of an expression keeps its value on every valuation |
| `KconfEq.EliminateYnNormal` | AIO/drivers/backports/kconf/expr.c:231-315 | the result has no y or n left as an operand, and the tree shrinks exactly when there was something to fold |
| `KconfEq.CancelOp` | AIO/drivers/backports/kconf/expr.c:130-162 | cancelling never grows either slot: the measure that ends the mutual recursion with expr_eq |
| `KconfEq.CancelOpFactors` | AIO/drivers/backports/kconf/expr.c:130-162 | one common part c is removed from both sides: e1 = op(e1', c) and e2 = op(e2', c) on every valuation |
| `KconfEq.EliminateEqOrder` | AIO/drivers/backports/kconf/expr.c:164-187 | comparing what is left after both passes decides the order of the original values |
| `KconfEq.ExprEqSound` | AIO/drivers/backports/kconf/expr.c:189-229 | expressions that expr_eq calls equal have the same value on every valuation |
| `KconfEq.CancelledIsImplied` | AIO/drivers/backports/kconf/menu.c:332-340 | if all of the second expression cancels, it is implied by the first |
| `KconfEq.ExtractEqFactors` | AIO/drivers/backports/kconf/expr.c:848-875 | both sides split exactly into what stays and what was moved to the common slot, whatever the slot held before |
| `KconfEq.ExtractCommonFactors` | AIO/drivers/backports/kconf/expr.c:826-846 | the and/or entry points factor both arguments through the extracted expression |
| `KconfEqExact.ExprEqReflexive` | AIO/drivers/backports/kconf/expr.c:189-229 | every expression is equal to itself, for any mixture of chains, negations and constants |
| `KconfEqExact.ExprEqExact` | AIO/drivers/backports/kconf/expr.c:189-229 | without y and n as operands, two expressions are called equal if and only if they are the same up to the order and the grouping of operands |
| `KconfEqExact.ExprEqReordered` | AIO/drivers/backports/kconf/expr.c:189-229 | in particular a chain equals its reordering |
| `KconfEqExact.ReorderedNotEqual` | AIO/drivers/backports/kconf/expr.c:189-229 | with n among the operands of three spellings of BAR && FOO, a chain of them differs from its own reordering |
| `KconfEqExact.CancelExact` | AIO/drivers/backports/kconf/expr.c:130-162 | cancelling leaves on each side exactly the operands the other side does not have, counted with multiplicity |
| `KconfEqExact.EliminateEqExact` | AIO/drivers/backports/kconf/expr.c:164-187 | a side of expr_eliminate_eq vanishes if and only if all its operands are among those of the other |
| `KconfEqExact.ExtractExact` | AIO/drivers/backports/kconf/expr.c:848-875 | extracting leaves on each side exactly the operands the other side does not have, whatever the slot held before |
| `KconfEqExact.ExtractCommonExact` | AIO/drivers/backports/kconf/expr.c:826-846 | nothing of the first expression is left if and only if all its operands are among those of the second |
| `KconfTransform.Transform` | AIO/drivers/backports/kconf/expr.c:636-771 | rewriting never gains weight, with negation weighing double: the termination measure of the De Morgan steps |
| `KconfTransform.TransformValue` | AIO/drivers/backports/kconf/expr.c:636-771 | the rewritten expression has the same value on every valuation |
| `KconfTransform.TransformNormal` | AIO/drivers/backports/kconf/expr.c:636-771 | the result is in negation normal form and compares no boolean symbol with y, m or n |
| `KconfTransform.TransformFixesNormal` | AIO/drivers/backports/kconf/expr.c:636-771 | an expression is left alone if and only if it is in that form |
| `KconfTransform.TransformIdempotent` | AIO/drivers/backports/kconf/expr.c:636-771 | transforming twice is transforming once |
| `KconfSlots.PutTwoValue` | AIO/drivers/backports/kconf/expr.c:537-550 | two different slots of one chain may be overwritten by operands of the same combined value, whatever is aliased around them |
| `KconfDups.JoinSound` | AIO/drivers/backports/kconf/expr.c:346-502 | a joined operand means the same as the two it replaces on every valuation, and is no larger and no deeper |
| `KconfDups.Dups1Correct` | AIO/drivers/backports/kconf/expr.c:504-554 | the first pass, comparing a tree with itself through slots, keeps the value on every valuation; it counts nothing only if it changes nothing, and otherwise leaves a constant to fold |
| `KconfDups.ContradictionExact` | AIO/drivers/backports/kconf/expr.c:570-604 | the two-valued rule of the second pass keeps the value of the chain if and only if that value is not m |
| `KconfDups.Dups2Correct` | AIO/drivers/backports/kconf/expr.c:556-610 | the second pass keeps every value other than m and makes the same progress |
| `KconfDups.RoundCorrect` | AIO/drivers/backports/kconf/expr.c:617-629 | a round that counts a transformation leaves a strictly smaller tree once folded, so the loop ends |
| `KconfDups.SimplifiedSettles` | AIO/drivers/backports/kconf/expr.c:612-634 | the fixpoint keeps every value other than m, never grows, keeps negation normal form, and another round finds nothing to do (what that means for the result is said by SimplifiedIrreducible and SimplifiedUnstruck) |
| `KconfDups.SimplifiedValue` | AIO/drivers/backports/kconf/expr.c:612-634 | the whole eliminator preserves meaning wherever no symbol used as a value is m |
| `KconfDups.EliminateDups` | AIO/drivers/backports/kconf/expr.c:612-634 | the loop ends and computes that fixpoint |
| `KconfDupsExact.JoinTable` | AIO/drivers/backports/kconf/expr.c:346-502 | two operands are joined if and only if they are equal or one of the listed rules, spelled out on the operands, speaks of them |
| `KconfDupsExact.JoinSame` | AIO/drivers/backports/kconf/expr.c:351-352 | an operand is joined with itself under either operator |
| `KconfDupsExact.Dups1Zero` | AIO/drivers/backports/kconf/expr.c:504-554 | a first pass that counts nothing has compared every two operand slots and joined none |
| `KconfDupsExact.SimplifiedIrreducible` | AIO/drivers/backports/kconf/expr.c:612-634 | no chain of the result, at any depth, has two operands that are identical, equal, or joined by a rule |
| `KconfDupsExact.Dups2Zero` | AIO/drivers/backports/kconf/expr.c:556-610 | a second pass that counts nothing has found no operand contradicting any other slot of its chain |
| `KconfDupsExact.SimplifiedUnstruck` | AIO/drivers/backports/kconf/expr.c:612-634 | no chain of the result, at any depth, has an operand all of whose negation is found in another slot: some operand of the negation is missing there |
| `KconfDupsWitness.SecondPassNeedsTwoValues` | AIO/drivers/backports/kconf/expr.c:577-604 | with FOO = BAR = m, (FOO or BAR) and (not FOO and not BAR) is m and simplifies to n |
| `KconfCompare.CompareExprValue` | AIO/drivers/backports/kconf/expr.c:877-936 | the translated comparison with y or n is the truth of the comparison, when no operand under a negation is m and symbols carry the letters of their values |
| `KconfCompare.CompareRounded` | AIO/drivers/backports/kconf/expr.c:877-936 | on every valuation and for every expression, the translated comparison with y or n is the comparison of the expression with each symbol rounded to y or n by its string |
| `KconfCompare.CompareExact` | AIO/drivers/backports/kconf/expr.c:877-936 | so it is the truth of the comparison if and only if rounding does not change whether the expression has the value compared with |
| `KconfCompare.CompareNotExact` | AIO/drivers/backports/kconf/expr.c:877-936 | a negation, of an operand that itself meets the two conditions above, is translated faithfully if and only if its operand is not m |
| `KconfCompare.CompareStringExact` | AIO/drivers/backports/kconf/expr.c:877-936 | a symbol that is neither boolean nor tristate is translated faithfully if and only if its string does not read as the wrong letter |
| `KconfCompare.TransBoolVisible` | AIO/drivers/backports/kconf/expr.c:317-341 | on negation normal form, whether the value is n does not change |
| `KconfCompare.TransBoolExact` | AIO/drivers/backports/kconf/expr.c:317-341 | no comparison of a tristate with n by != is left, and an expression is left alone if and only if it has none |
| `KconfCompare.TransBoolNotExact` | AIO/drivers/backports/kconf/expr.c:317-341 | above a rewritten comparison a negation keeps its value if and only if the symbol is not m |
| `KconfCompare.PropertyVisibleCorrect` | AIO/drivers/backports/kconf/menu.c:306-311 | with or without a menu condition and a condition of its own, the visibility stored for a property of a non-tristate symbol is n exactly if their conjunction is n, when that conjunction is not m |
| `KconfCompare.InheritedValue` | AIO/drivers/backports/kconf/menu.c:294-311 | at any depth, the dependency an entry ends up with has the value of the conjunction of all conditions stated on the way down, unless that is m |
| `KconfCompare.InheritIrreducible` | AIO/drivers/backports/kconf/menu.c:294-297 | no chain of an inherited dependency has two operands that are equal or that a rule joins |
| `KconfCompare.DependsSymbolSound` | AIO/drivers/backports/kconf/expr.c:797-824 | an expression said to depend on a symbol, of any type, is n whenever the string of the symbol is n; for boolean and tristate symbols, whenever its value is n |
| `KconfCompare.DependsSymbolExact` | AIO/drivers/backports/kconf/expr.c:797-824 | exactly the expressions with a conjunct that is the symbol, or compares it so that it is not n |
| `KconfCompare.NestsUnconditional` | AIO/drivers/backports/kconf/menu.c:322-340 | below a prompt without a condition an entry nests if and only if it mentions the symbol |
| `KconfCompare.NestsExact` | AIO/drivers/backports/kconf/menu.c:322-340 | otherwise, as long as neither simplified side is a constant, a disjunction or has y or n as an operand: an entry that mentions the symbol nests if and only if it depends on it or repeats every condition of the prompt; between two single conditions the second is never tried |
| `KconfCompare.NotNoRounded` | AIO/drivers/backports/kconf/menu.c:322-324 | on every valuation, the simplified form both sides of the nesting test are brought to is y exactly if the rounded condition is not n |
| `KconfCompare.NotNoExact` | AIO/drivers/backports/kconf/menu.c:322-324 | so it says whether the condition is not n if and only if rounding does not change that |
| `KconfCompare.NotNoValue` | AIO/drivers/backports/kconf/menu.c:322-324 | in particular when no operand under a negation is m and every symbol used as a value is boolean or tristate |
| `KconfCompare.NestedBelowRounded` | AIO/drivers/backports/kconf/menu.c:327-340 | on every valuation, an entry nested below a symbol and not n, before and after rounding, has that symbol set or its rounded prompt visible |
| `KconfCompare.NestedBelowReachable` | AIO/drivers/backports/kconf/menu.c:327-340 | when neither condition has an operand m under a negation or a symbol of another type as a value, an entry nested below a symbol can be visible only while that symbol is set or visible |
| `KconfNestWitness.NestedButNotReachable` | AIO/drivers/backports/kconf/menu.c:327-340 | with A = m and S = n, an entry depending on not A and not S is nested below S, whose prompt depends on A = n, and is visible as m while S is n and its prompt invisible |
| `KconfPrint.PrintThenParse` | AIO/drivers/backports/kconf/expr.c:979-1123 | reading back the tokens printed for any expression over named symbols and y, m and n gives it back with its chains grouped to the left |
| `KconfPrint.LeftAssocValue` | AIO/drivers/backports/kconf/zconf.tab.c:1981-2019 | the left-grouped expression has the same value |
| `KconfPrint.PrintLeftAssoc` | AIO/drivers/backports/kconf/expr.c:1053-1123 | regrouping does not change what is printed, in any context |
| `KconfPrint.PrintsAlike` | AIO/drivers/backports/kconf/expr.c:1053-1123 | two expressions print alike if and only if they differ only in grouping |
| `KconfPrint.ComparisonMeaning` | AIO/drivers/backports/kconf/zconf.tab.c:1981-2019 | the token of equality is read as equality of strings, and that of inequality as inequality |
| `KconfPrint.Precedence` | AIO/drivers/backports/kconf/zconf.tab.c:1981-2019 | && binds tighter than ||, by the value of what is read |
| `KconfPrint.Parentheses` | AIO/drivers/backports/kconf/zconf.tab.c:1981-2019 | parentheses override that |
| `KconfPrint.NegationPrecedence` | AIO/drivers/backports/kconf/zconf.tab.c:1981-2019 | ! binds tighter than &&, unless parentheses say otherwise |
| `KconfPrint.ParenthesesExact` | AIO/drivers/backports/kconf/expr.c:1053-1123 | parentheses are printed exactly around || inside && and around either inside ! |
| `KconfCalc.EquationLocal` | AIO/drivers/backports/kconf/symbol.c:292-393 | a symbol's visibility, reverse dependency, default and value look only at the symbols its declaration mentions |
| `KconfCalc.DefaultFirst` | AIO/drivers/backports/kconf/symbol.c:115-125 | the default is at most the value and at most the condition of the first default whose condition is not n, and equal to one of them |
| `KconfCalc.DefaultNone` | AIO/drivers/backports/kconf/symbol.c:115-125 | there is such a default if and only if some condition is not n, and if none is the default is n |
| `KconfCalc.AnyPromptMaximum` | AIO/drivers/backports/kconf/symbol.c:193-198 | the visibility before promotion is at least that of every prompt, and n or equal to that of one |
| `KconfCalc.PromotedFields` | AIO/drivers/backports/kconf/symbol.c:199-225 | visibility and reverse dependency by cases: for a symbol that acts as a boolean, y unless n |
| `KconfCalc.EquationValue` | AIO/drivers/backports/kconf/symbol.c:330-374 | the value by cases: invisible or without a user value, the larger of default and reverse dependency; else the user value up to the visibility, but not below the reverse dependency; a boolean is y unless all of these are n |
| `KconfFixpoint.FixpointSolves` | AIO/drivers/backports/kconf/symbol.c:292-393 | equations that look only at symbols of smaller rank have a solution |
| `KconfFixpoint.SolutionsAgree` | AIO/drivers/backports/kconf/symbol.c:292-393 | and no two |
| `KconfCalc.SolutionSolves` | AIO/drivers/backports/kconf/symbol.c:292-393 | without cyclic dependencies the system of value equations has a solution |
| `KconfCalc.SolutionUnique` | AIO/drivers/backports/kconf/symbol.c:292-393 | and only one |
| `KconfCalc.SolutionLegal` | AIO/drivers/backports/kconf/symbol.c:372-374 | in every solution booleans are never m, and without modules nothing is: the valuations the simplifier is proved for |
| `KconfCalc.UserValueLocal` | AIO/drivers/backports/kconf/symbol.c:481-515 | a user value for a symbol changes nothing the symbol depends on |
| `KconfCalc.UserValueEffect` | AIO/drivers/backports/kconf/symbol.c:481-515 | the value a symbol takes once the user asks for val, with its visibility and reverse dependency unchanged |
| `KconfCalc.RangeExact` | AIO/drivers/backports/kconf/symbol.c:462-479 | in configurations without choices, for a symbol the user can change, the values within range are exactly those that, once set, are its value |
| `KconfCalc.SetCurrentExact` | AIO/drivers/backports/kconf/symbol.c:485-486 | asking for the current value, which skips the range check, keeps it if and only if the symbol is invisible, or the value is selected or within the visibility |
| `KconfCalc.SetCurrentSolution` | AIO/drivers/backports/kconf/symbol.c:485-513 | if the symbol keeps its value, no symbol changes |
| `KconfTable.SymbolTable.CalcExpr` | AIO/drivers/backports/kconf/expr.c:938-977 | evaluating an expression through the cache gives its value in the unique solution, and disturbs no symbol being computed |
| `KconfTable.SymbolTable.CalcPrompts` | AIO/drivers/backports/kconf/symbol.c:193-198 | the loop over the prompts computes their disjunction in the unique solution |
| `KconfTable.SymbolTable.CalcVisibility` | AIO/drivers/backports/kconf/symbol.c:188-226 | visibility and reverse dependency agree with the unique solution |
| `KconfTable.SymbolTable.CalcDefault` | AIO/drivers/backports/kconf/symbol.c:115-125 | the loop computes the specified default in the unique solution: the first whose condition is not n, limited by that condition (DefaultFirst, DefaultNone) |
| `KconfTable.SymbolTable.CalcNewValue` | AIO/drivers/backports/kconf/symbol.c:319-380 | the new value is the one of the unique solution, which EquationValue gives by cases |
| `KconfTable.SymbolTable.CalcValue` | AIO/drivers/backports/kconf/symbol.c:292-415 | every symbol marked valid and not in progress has the value of the unique solution, and no symbol in progress is entered again |
| `KconfTable.SymbolTable.CalcAll` | AIO/drivers/backports/kconf/symbol.c:292-415 | the same for symbols asked for in any order |
| `KconfTable.SymbolTable.ClearAllValid` | AIO/drivers/backports/kconf/symbol.c:430-440 | clearing the cache leaves it consistent, with the symbol that enables modules computed again |
| `KconfTable.SymbolTable.SetTristate` | AIO/drivers/backports/kconf/symbol.c:481-515 | for every symbol, computed or not: a value is accepted exactly if it is current or within the range of the stored fields, and a change leaves a consistent cache; for a computed symbol the solution then gives it that value, and setting the current value keeps the cache right if and only if recomputing would keep the value |
| `KconfTable.SymbolTable.SetThenGet` | AIO/drivers/backports/kconf/symbol.c:481-515 | the value read back is the one accepted, for a computed symbol |
| `KconfTable.SetCurrentGoesStale` | AIO/drivers/backports/kconf/symbol.c:485-513 | a tristate with prompt visibility m and default y, computed and then set to y, stays y in the cache while its value is m |
| `KconfChoice.PickExact` | AIO/drivers/backports/kconf/symbol.c:234-290 | a choice that is y picks a member if and only if one is visible, and then a visible one |
| `KconfChoice.PickOrder` | AIO/drivers/backports/kconf/symbol.c:234-258 | it is the member the user picked if that is visible, else the member of the first default whose condition is not n and whose member is visible, else the first visible member |
| `KconfChoice.ChoiceCases` | AIO/drivers/backports/kconf/symbol.c:319-374 | the value of a choice by cases, and that y without a visible member becomes n |
| `KconfChoice.MemberCases` | AIO/drivers/backports/kconf/symbol.c:332-374 | the value of a member by cases: picked or not at visibility y, its user value up to m at visibility m, else its default at the value of the choice |
| `KconfChoice.MutualExclusion` | AIO/drivers/backports/kconf/symbol.c:332-336 | of the members with visibility y at most one is y, and one is exactly if the choice is y and the member picked has visibility y |
| `KconfChoice.SetMemberThenGet` | AIO/drivers/backports/kconf/symbol.c:496-513 | within one group: setting a member of visibility y to y selects it, every other member of visibility y is n, no visibility changes, and the choice keeps its user value |
| `KconfChoice.SetModuleMember` | AIO/drivers/backports/kconf/symbol.c:462-479 | within one group: a member of visibility m takes exactly the values in its range and leaves choice and other members alone, when the choice keeps its value at the next evaluation |
| `KconfChoice.RecalcExact` | AIO/drivers/backports/kconf/symbol.c:268-276 | a choice that is y is y again at the next evaluation if and only if it is selected, or has a user value and no visible member lacks one |
| `KconfChoice.RecalcLoses` | AIO/drivers/backports/kconf/symbol.c:268-276 | a tristate choice that is y by its user value, with one visible member without one, is n at the next evaluation |
| `KconfChoice.ForgettingKeeps` | AIO/drivers/backports/kconf/symbol.c:268-276 | a choice that keeps its value without the forgotten user value keeps the values of all members |
| `KconfChoice.SelectExact` | AIO/drivers/backports/kconf/symbol.c:496-513 | within one group, whatever visibilities were stored: a member set to y ends up y with visibility y if and only if that is its visibility with the choice at its own user value; then it is the pick and every other member of visibility y is n |
| `KconfChoice.SetOtherExact` | AIO/drivers/backports/kconf/symbol.c:481-515 | within one group: setting a member to n or m changes neither choice, pick nor other members, and the exact condition for the member to take the value |
| `KconfGuard.Dups1Cap` | AIO/drivers/backports/kconf/expr.c:504-554 | the first pass never raises the value of a conjunction above that of its conjuncts other than disjunctions |
| `KconfGuard.Dups2Cap` | AIO/drivers/backports/kconf/expr.c:556-610 | nor does the second |
| `KconfGuard.SimplifiedCap` | AIO/drivers/backports/kconf/expr.c:612-634 | so simplifying does not either, on every valuation, m included |
| `KconfGuard.MemberPromptGuarded` | AIO/drivers/backports/kconf/menu.c:294-311 | however the dependencies of a choice member simplify, its prompt is invisible while the choice is n, and below y, or invisible for a boolean member, while a tristate choice is m |
| `KconfSystem.GroupLocal` | AIO/drivers/backports/kconf/symbol.c:188-290 | a choice group built from its declarations depends only on symbols ranked below the choice |
| `KconfSystem.SysSolves` | AIO/drivers/backports/kconf/symbol.c:292-415 | with choice groups as well, acyclic dependencies give a solution |
| `KconfSystem.SysUnique` | AIO/drivers/backports/kconf/symbol.c:292-415 | and only one |
| `KconfSystem.SysSolutionSafe` | AIO/drivers/backports/kconf/symbol.c:372-374 | in which no boolean is m, choices and members included |
| `KconfSystem.GroupWellFormed` | AIO/drivers/backports/kconf/menu.c:378-387 | guarded prompts keep members invisible while the choice is n, and below y while a tristate choice is m, under values in which no boolean is m |
| `KconfSystem.MemberVisibleIs` | AIO/drivers/backports/kconf/symbol.c:193-203 | in a solution the visibility of a member within its group is that of its prompts |
| `KconfSystem.ChosenByDefault` | AIO/drivers/backports/kconf/symbol.c:234-258 | in a solution, a choice that is y without a pick of the user goes to the member of the first default that holds, and to no other member of visibility y |
| `KconfSystem.SolutionsAgreeBelow` | AIO/drivers/backports/kconf/symbol.c:481-515 | user states whose equations agree below a rank under one solution have solutions that agree there |
| `KconfSystem.GroupUnaffected` | AIO/drivers/backports/kconf/symbol.c:481-515 | two solutions that differ only in the user state of a group agree on everything the group depends on, and on the group |
| `KconfSet.SetMemberExact` | AIO/drivers/backports/kconf/symbol.c:481-515 | setting a member to y from any user state and recomputing all symbols: against the values recomputing gives without the set, the group is the same, and the member ends up y with visibility y if and only if it is selectable there; then the choice is y and every other member of visibility y is n |
| `KconfSet.SetMemberOtherExact` | AIO/drivers/backports/kconf/symbol.c:481-515 | setting a member to n or m likewise: choice and other members are as without the set, and the exact condition for the member to take the value |
| `KconfSet.SetOrdinaryExact` | AIO/drivers/backports/kconf/symbol.c:481-515 | setting an ordinary symbol, in configurations with choices, likewise: its new value, and that the values within range are exactly those that stick for a symbol the user can change |
| `KconfSet.StableAgrees` | AIO/drivers/backports/kconf/symbol.c:268-276 | where every choice ranked below is stable, recomputing after an evaluation changes nothing |
| `KconfSet.EvaluatedSolves` | AIO/drivers/backports/kconf/symbol.c:268-276 | when every choice is stable, evaluating leaves a user state with the same solution and nothing more to forget |
| `KconfSet.SystemSetThenGet` | AIO/drivers/backports/kconf/symbol.c:481-515 | when every choice ranked below is stable: setting a member of visibility y to y after an evaluation makes the choice and the member y and every other member of visibility y n, and changes neither the visibility of any member nor anything the group depends on |
| `KconfSet.SystemSetModule` | AIO/drivers/backports/kconf/symbol.c:481-515 | when the choice and every choice ranked below are stable: a member of visibility m set to n or m takes exactly the values within range, and the choice, the other members and what the group depends on stay as they were |
| `KconfSet.SystemSetOrdinary` | AIO/drivers/backports/kconf/symbol.c:481-515 | when every choice ranked below is stable: for an ordinary symbol the user can change, the values within the stored range are exactly those that stick |
| `KconfSetWitness.AcceptedAndLost` | AIO/drivers/backports/kconf/symbol.c:268-276 | a boolean member, n with visibility y, set to y: a tristate choice it depends on has forgotten its user value, and recomputing makes both choices and the member n |
| `KconfSetWitness.LosesAcceptedValue` | AIO/drivers/backports/kconf/symbol.c:481-515 | such values exist for a configuration of two choices with three members and no cyclic dependencies |
| `KconfChoice.Choice.ChoiceDefault` | AIO/drivers/backports/kconf/symbol.c:234-258 | the two loops find the first applicable default, else the first visible member |
| `KconfChoice.Choice.CalcChoice` | AIO/drivers/backports/kconf/symbol.c:260-290 | visibilities, pick, value and surviving user flag of the group |
| `KconfChoice.Choice.CalcSymbol` | AIO/drivers/backports/kconf/symbol.c:292-393 | the choice symbol gets the value and pick of the specification |
| `KconfChoice.Choice.CalcMember` | AIO/drivers/backports/kconf/symbol.c:332-374 | a member gets the visibility and value of the specification |
| `KconfChoice.Choice.CalcGroup` | AIO/drivers/backports/kconf/symbol.c:292-410 | the whole group holds the values of the specification |
| `KconfChoice.Choice.Set` | AIO/drivers/backports/kconf/symbol.c:481-515 | the new user state of choice and members, and exactly which values are accepted |
| `KconfChoice.Choice.Select` | AIO/drivers/backports/kconf/symbol.c:481-515 | within one group, setting then evaluating leaves that member alone at y |
| `KconfCheck.Checker.CheckDeps` | AIO/drivers/backports/kconf/symbol.c:1192-1224 | a symbol whose check ends without a report has everything it reaches ordered before it |
| `KconfCheck.Checker.CheckSymDeps` | AIO/drivers/backports/kconf/symbol.c:1121-1153 | the same for all properties of a symbol, with early exit |
| `KconfCheck.Checker.CheckExprDeps` | AIO/drivers/backports/kconf/symbol.c:1090-1119 | the same for all symbols of an expression, with early exit |
| `KconfCheck.Checker.CheckAll` | AIO/drivers/backports/kconf/zconf.tab.c:2280-2283 | on every graph the run ends, and it reports a recursive dependency if and only if the graph has a cycle; the error counter stays 0 either way |
| `KconfCheck.ReportedNotCounted` | AIO/drivers/backports/kconf/zconf.tab.c:2280-2283 | two symbols whose prompts depend on each other are reported, and the error counter is 0 |
| `KconfCheck.TopologicalIsAcyclic` | AIO/drivers/backports/kconf/symbol.c:1192-1224 | the finishing order of a run without reports rules out every cycle |
| `KconfCheck.DependsOnIsEdge` | AIO/drivers/backports/kconf/symbol.c:1121-1153 | every dependency of the evaluator is an edge the checker follows |
| `KconfCheck.SelectIsNoEdge` | AIO/drivers/backports/kconf/symbol.c:1131-1139 | properties that select or group symbols are not followed |
| `KconfCheck.CheckedIsRanked` | AIO/drivers/backports/kconf/symbol.c:1192-1224 | a run without reports yields the ranking the evaluator needs, so a checked configuration has exactly one solution |
| `KconfForest.Flatten` | AIO/drivers/backports/kconf/menu.c:355-405 | dissolving entries without a prompt keeps the preorder |
| `KconfForest.FlattenIsFlat` | AIO/drivers/backports/kconf/menu.c:395-404 | afterwards no child without a prompt has children |
| `KconfForest.FlattenExact` | AIO/drivers/backports/kconf/menu.c:395-404 | an entry is on a level afterwards if and only if only entries without a prompt were between it and that level; it keeps its children exactly if it has a prompt |
| `KconfForest.FinalizeNode` | AIO/drivers/backports/kconf/menu.c:319-405 | finalizing an entry keeps the preorder of its children and later siblings together, for every nesting decision; which siblings it takes in is said by FinalizeNodePlaces and AbsorbedNest |
| `KconfForest.FinalizeNodePlaces` | AIO/drivers/backports/kconf/menu.c:319-351 | an entry with children leaves its siblings alone; one that declares no symbol, or is not followed by an entry that nests, gets no children; any other takes that entry as its first child and stops at the first sibling left that does not nest |
| `KconfForest.FinalizeNodeDeepFlat` | AIO/drivers/backports/kconf/menu.c:319-405 | below a finalized entry no entry without a prompt has children, at any depth |
| `KconfForest.FinalizeListPlaces` | AIO/drivers/backports/kconf/menu.c:319-320 | every sibling after a list has been finalized was one before and followed that rule with the siblings then behind it |
| `KconfForest.FinalizeList` | AIO/drivers/backports/kconf/menu.c:319-320 | and so does finalizing a list whose later members may be absorbed on the way |
| `KconfForest.Absorb` | AIO/drivers/backports/kconf/menu.c:325-351 | the absorbed siblings followed by those that stay are the siblings in their old order |
| `KconfForest.AbsorbedNest` | AIO/drivers/backports/kconf/menu.c:325-351 | every entry taken in was a later sibling and nests below the entry that takes it |
| `KconfForest.AbsorbRest` | AIO/drivers/backports/kconf/menu.c:325-351 | the siblings left are an untouched end of the list that starts with an entry that does not nest |
| `KconfMenu.LinkedAppend` | AIO/drivers/backports/kconf/menu.c:347-351 | two linked stretches are one linked list exactly if the first ends at the second |
| `KconfMenu.DistinctPreorder` | AIO/drivers/backports/kconf/menu.c:319-405 | no entry is linked twice exactly if the preorder names none twice |
| `KconfMenu.Reparent` | AIO/drivers/backports/kconf/menu.c:396-400 | every child gets the new parent and the last one is found |
| `KconfMenu.Hoist` | AIO/drivers/backports/kconf/menu.c:395-404 | the pointers afterwards spell the children lifted behind the entry, parents included |
| `KconfMenu.FlattenChildren` | AIO/drivers/backports/kconf/menu.c:355-405 | the pointers afterwards spell the flattened children |
| `KconfMenu.AbsorbSiblings` | AIO/drivers/backports/kconf/menu.c:325-351 | the pointers afterwards spell the absorbed children and the remaining siblings |
| `KconfMenu.FinalizeChildren` | AIO/drivers/backports/kconf/menu.c:319-320 | the pointers afterwards spell the finalized list |
| `KconfMenu.Finalize` | AIO/drivers/backports/kconf/menu.c:319-405 | the pointers afterwards spell exactly the specified forest, with every parent pointer right; it ends on every tree |
| `KconfMenu.FinalizedPointers` | AIO/drivers/backports/kconf/menu.c:319-351 | where those pointers lead: to the children there were, or else to the sibling behind the entry if that nests below it, whose parent is now the entry; the next sibling left does not nest |
| `KconfMenu.Climb` | AIO/drivers/backports/kconf/confdata.c:806-811 | climbing finds the next entry still to come, or the end |
| `KconfMenu.Step` | AIO/drivers/backports/kconf/confdata.c:799-811 | each step of the walk leaves exactly the entries after the current one |
| `KconfMenu.Walk` | AIO/drivers/backports/kconf/confdata.c:779-812 | the pointer walk visits the preorder of the tree |
| `KconfMenu.FinalizeThenWalk` | AIO/drivers/backports/kconf/confdata.c:779-812 | after finalizing, the walk visits every entry once, in the order declared |
| `KconfEscape.EscapeThenUnescape` | AIO/drivers/backports/kconf/confdata.c:153-167 | reading back a saved string gives the string, whatever follows the closing quote |
| `KconfEscape.SaveThenLoad` | AIO/drivers/backports/kconf/confdata.c:153-167 | a NUL-free string written by the escaping passes and loaded in place from the same buffer is the string, terminated |
| `KconfEscape.EscapeLength` | AIO/drivers/backports/kconf/symbol.c:910-923 | the length the counting pass accounts for is the length of the escaped text |
| `KconfEscape.EscapeConcat` | AIO/drivers/backports/kconf/symbol.c:928-940 | escaping works character by character |
| `KconfEscape.EscapeCharacter` | AIO/drivers/backports/kconf/symbol.c:928-940 | a quote and a backslash get a backslash in front, and every other character stays |
| `KconfEscape.QuotedSize` | AIO/drivers/backports/kconf/symbol.c:910-923 | the counting loop counts the quoted text and its terminator |
| `KconfEscape.EscapeStringValue` | AIO/drivers/backports/kconf/symbol.c:903-944 | the filling pass writes the quoted escaped text and its terminator into exactly the bytes counted |
| `KconfEscape.UnescapeInPlace` | AIO/drivers/backports/kconf/confdata.c:156-166 | the shifting loop accepts exactly the texts with a closing quote, leaves the unescaped value terminated, and never touches memory outside the text |
| `CcmMac.CbcConcat` | AIO/drivers/backports/compat/crypto-ccm.c:195-232 | chaining over a concatenation is chaining over its parts |
| `CcmBytes.PadIsZeros` | AIO/drivers/backports/compat/crypto-ccm.c:262-273 | padding is the data followed by zero bytes only, to the next multiple of 16 |
| `CcmBytes.BigEndianDigit` | AIO/drivers/backports/compat/crypto-ccm.c:94-103 | byte i of a field of n bytes is the digit of weight 256^(n-1-i) |
| `CcmMac.MacState.ComputeMac` | AIO/drivers/backports/compat/crypto-ccm.c:195-232 | any amount of data, added to a partial block, continues the chain of exactly the bytes fed so far, with fewer than 16 pending |
| `CcmMac.MacState.GetDataToCompute` | AIO/drivers/backports/compat/crypto-ccm.c:234-274 | for every splitting of the data into segments, empty ones included, the state becomes the CBC-MAC over the fed bytes and the data followed by zero bytes only, to a multiple of 16 |
| `CcmFormat.LengthFieldExact` | AIO/drivers/backports/compat/crypto-ccm.c:89-105 | the length field reads back if and only if the length is below 256^csize; the one longer length admitted by the guard is written as 0 |
| `CcmFormat.FirstBlockLayout` | AIO/drivers/backports/compat/crypto-ccm.c:154-174 | the first block byte for byte |
| `CcmFormat.FormatLayout` | AIO/drivers/backports/compat/crypto-ccm.c:276-310 | what enters the MAC: the first block, the prefixed associated data if any, and the message, each followed by fewer than 16 zero bytes to a whole block |
| `CcmFormat.ParametersExact` | AIO/drivers/backports/compat/crypto-ccm.c:325-332 | exactly the IVs with 2 <= L <= 8 are admitted, and exactly the even tag sizes from 4 to 16 (lines 135-152) |
| `CcmFormat.PrefixLayout` | AIO/drivers/backports/compat/crypto-ccm.c:176-193 | the prefix of the associated data byte for byte, with both lengths |
| `CcmFormat.HeaderReadsBack` | AIO/drivers/backports/compat/crypto-ccm.c:154-174 | width, tag size, presence of associated data, nonce and message length can be read from the first block |
| `CcmFormat.PrefixReadsBack` | AIO/drivers/backports/compat/crypto-ccm.c:176-193 | the length of the associated data can be read from its prefix |
| `CcmFormat.FormatDecodable` | AIO/drivers/backports/compat/crypto-ccm.c:154-193 | all inputs can be recovered from the formatted blocks, for every message shorter than 256^L |
| `CcmAead.CounterStaysInField` | AIO/drivers/backports/compat/crypto-ccm.c:359-377 | as long as the counter is below 256^L, counter mode leaves the nonce bytes alone |
| `CcmAead.AcceptedCounters` | AIO/drivers/backports/compat/crypto-ccm.c:359-377 | every counter block used for an accepted length is flags, nonce and counter |
| `CcmAead.EncryptedBytes` | AIO/drivers/backports/compat/crypto-ccm.c:359-384 | byte i of the encrypted message takes byte i mod 16 of the encryption of counter block 1 + i / 16, and the tag takes counter block 0 |
| `CcmAead.AdvancedIvFormattable` | AIO/drivers/backports/compat/crypto-ccm.c:447-452 | whatever counter mode did to the IV, formatting after it stays inside the block |
| `CcmAead.SameFirstBlock` | AIO/drivers/backports/compat/crypto-ccm.c:430-452 | decrypt formats the same first block as encrypt if the counter fits its field; if not, encrypt refuses the length, and decrypt does too unless the counter carries into the length byte and the wider field holds the length |
| `CcmAead.CarryMeansOnes` | AIO/drivers/backports/compat/crypto-ccm.c:430-452 | such a carry needs every nonce byte but the last to be 0xff |
| `CcmAead.EncryptThenDecrypt` | AIO/drivers/backports/compat/crypto-ccm.c:334-461 | decrypt accepts what encrypt produced and returns the message, for every cipher, tag size and IV of the same nonce |
| `CcmAead.IvLeftBehind` | AIO/drivers/backports/compat/crypto-ccm.c:373-377 | the IV that encrypt leaves behind has the same nonce |
| `CcmAead.DecryptThenEncrypt` | AIO/drivers/backports/compat/crypto-ccm.c:404-461 | what decrypt accepts is what encrypt produces from the message if and only if the counter fits its field; otherwise encrypt refuses the message, the counter carried into the length byte, and every nonce byte but the last is 0xff |
| `CcmWitness.LengthReadsZero` | AIO/drivers/backports/compat/crypto-ccm.c:98-103 | 65536 is admitted in a two-byte field, which then reads 0 |
| `CcmWitness.OpensWhatNothingSeals` | AIO/drivers/backports/compat/crypto-ccm.c:404-461 | with L = 2, a nonce of 0xff bytes and the cipher of zeros, 1048560 zeros with a zero tag are accepted, while encrypt refuses every message of that length |
| `CcmRequest.Memneq` | AIO/drivers/backports/compat/crypto-ccm.c:40-48 | the accumulating comparison returns 1 exactly if the buffers differ |
| `CcmRequest.MacChain` | AIO/drivers/backports/compat/crypto-ccm.c:276-310 | the MAC over the formatted blocks is the chain over its three pieces |
| `CcmRequest.Request.Auth` | AIO/drivers/backports/compat/crypto-ccm.c:276-310 | whatever the segments, the MAC is one-shot CBC-MAC over B0, the associated data and the message, each followed by zero bytes only to a multiple of 16 |
| `CcmRequest.Request.ClearCounter` | AIO/drivers/backports/compat/crypto-ccm.c:359 | the counter bytes of the IV are cleared and no others |
| `CcmRequest.Request.Encrypt` | AIO/drivers/backports/compat/crypto-ccm.c:334-385 | the request yields the specified ciphertext and tag, or the specified error, and leaves the advanced IV |
| `CcmRequest.Request.Decrypt` | AIO/drivers/backports/compat/crypto-ccm.c:404-461 | the request yields the specified message, or the specified error |
| `CcmRequest.Request.RoundTrip` | AIO/drivers/backports/compat/crypto-ccm.c:334-461 | encrypting and then decrypting the result with the IV left in the request gives the message back, and fails only if encryption does |
| `CodelRate.StepExact` | AIO/drivers/backports/backport-include/net/codel.h:189-199 | while the product of count and the squared estimate is at most twice its bound, no intermediate value underflows or overflows 64 bits |
| `CodelRate.NewtonKeepsUnder` | AIO/drivers/backports/backport-include/net/codel.h:189-199 | from such a state the step restores count * rec^2 <= 2^32 and is the exact step rounded down, not truncated |
| `CodelRate.NewtonZeroExact` | AIO/drivers/backports/backport-include/net/codel.h:189-199 | the step returns 0 if and only if the estimate was 0 |
| `CodelRate.GapExact` | AIO/drivers/backports/backport-include/net/codel.h:206-211 | the gap is the interval times the estimate over 2^16, rounded down: bounded on both sides |
| `CodelRate.GapReset` | AIO/drivers/backports/backport-include/net/codel.h:206-211 | with the estimate of a reset the gap is the interval up to one part in 2^16 |
| `CodelRate.GapBound` | AIO/drivers/backports/backport-include/net/codel.h:206-211 | the control law's gap d satisfies count * d^2 <= interval^2 |
| `CodelLog.ActsAreJustified` | AIO/drivers/backports/backport-include/net/codel.h:214-250 | in every log a queue keeps, each packet dropped or marked was just examined and ends a stretch longer than interval, without an empty poll, in which every examined packet had waited at least target and left more than maxpacket queued |
| `CodelLog.OutcomesGrow` | AIO/drivers/backports/backport-include/net/codel.h:255-348 | what a stretch of the log dropped and returned is what the queue lost at its front, in order |
| `CodelQueue.RestartUnder` | AIO/drivers/backports/backport-include/net/codel.h:330-341 | resuming with the odd-made difference of counts does not raise the count and keeps the bound |
| `CodelQueue.Codel.constructor` | AIO/drivers/backports/backport-include/net/codel.h:177-180 | the zeroed variables meet every invariant |
| `CodelQueue.Codel.ShouldDrop` | AIO/drivers/backports/backport-include/net/codel.h:214-250 | backlog stays the total length queued, the timer and its window stay right, and the answer is true exactly if the packet is above both thresholds and the timer has run out |
| `CodelQueue.Codel.CountDrop` | AIO/drivers/backports/backport-include/net/codel.h:286-289 | the next count keeps the pacing bound until count wraps |
| `CodelQueue.Codel.Schedule` | AIO/drivers/backports/backport-include/net/codel.h:305-310 | the next drop moves on by the interval times the estimate over 2^16, rounded down, which is at most interval / sqrt(count) |
| `CodelQueue.Codel.EnterDropping` | AIO/drivers/backports/backport-include/net/codel.h:325-345 | the new count, estimate and schedule after restart and after reset, the schedule bounded on both sides (after a reset, one interval up to one part in 2^16); the pacing bound holds after both; the estimate is 0 afterwards exactly if it was 0 and the last drop time is recent |
| `CodelQueue.Codel.DropLoop` | AIO/drivers/backports/backport-include/net/codel.h:284-312 | the loop ends, never handles a null packet, counts each drop or mark once, stops only at a mark, a future schedule or a timer no longer run out, and with a zero estimate drops until the delay is low |
| `CodelQueue.Codel.FirstDrop` | AIO/drivers/backports/backport-include/net/codel.h:314-345 | exactly one packet is dropped, or marked if it can carry the mark, and the dropping state is entered |
| `CodelQueue.EntersWithZeroEstimate` | AIO/drivers/backports/backport-include/net/codel.h:255-348 | four packets of 1000 bytes, dequeued at times 10 and 200 with target 5 and interval 100, enter the dropping state with a zero estimate |
| `CodelQueue.Codel.Dequeue` | AIO/drivers/backports/backport-include/net/codel.h:255-348 | every invariant survives (order and conservation, exact backlog, justified drops and marks, pacing bound); outside the dropping state exactly one packet is dropped or marked if and only if the front packet is due, and that enters the state; inside it something is dropped or marked if and only if the front packet is due and the schedule has come, and the state goes on exactly while the timer stays run out; when nothing is done the front packet is returned and only the timer and the largest packet change |
| `IrqMask.IrqFlag` | AIO/drivers/backports/drivers/bcma/driver_mips.c:97-111 | a quirk gives the index of the core; otherwise the core raises no flag exactly if its selector is 0, and else a flag below 32 |
| `IrqMask.ShiftAmount` | AIO/drivers/backports/drivers/bcma/driver_mips.c:177-179 | the search shifts by the flag itself, and by 31 for a core that raises no flag |
| `IrqMask.FlagsSet` | AIO/drivers/backports/drivers/bcma/driver_mips.c:166-167 | setting a bit of a 32-bit mask adds that flag and no other |
| `IrqMask.FlagsCleared` | AIO/drivers/backports/drivers/bcma/driver_mips.c:157-159 | clearing a bit removes that flag and no other |
| `IrqLines.RunExtends` | AIO/drivers/backports/drivers/bcma/driver_mips.c:143-191 | one more call of the allocator is one more step of the run |
| `IrqLines.RunResult` | AIO/drivers/backports/drivers/bcma/driver_mips.c:143-191 | after any sequence of assignments a flag is where its last assignment put it, or on line 0 if a later one took that private line; a flag never assigned is on no line |
| `IrqLines.RunExclusive` | AIO/drivers/backports/drivers/bcma/driver_mips.c:143-191 | after any sequence lines 1 to 4 carry at most one flag each |
| `MipsIrq.Bus.MipsIrq` | AIO/drivers/backports/drivers/bcma/driver_mips.c:118-134 | the lookup loop returns the line that carries the core's flag, 5 if none, 6 if it has no flag |
| `MipsIrq.Bus.ClearOld` | AIO/drivers/backports/drivers/bcma/driver_mips.c:155-161 | the flag leaves its line, nothing else moves, and the masks stay disjoint |
| `MipsIrq.Bus.FoundIsUser` | AIO/drivers/backports/drivers/bcma/driver_mips.c:177-183 | the first core the search matches is the user of the line, unless the flag is 31 and a core that raises no flag comes before it |
| `MipsIrq.Bus.Displace` | AIO/drivers/backports/drivers/bcma/driver_mips.c:169-184 | whoever held the private line is on line 0 afterwards, and nobody else moved; it fails if and only if the user has flag 31 and is hidden behind a core that raises no flag |
| `MipsIrq.Bus.SetIrq` | AIO/drivers/backports/drivers/bcma/driver_mips.c:143-191 | on every bus: it fails if and only if the core raises no flag or the displaced one is hidden; otherwise the masks stay disjoint, every flag ends where the specification puts it, none is lost, and the recorded interrupt numbers change accordingly |
| `MipsIrq.Bus.SetIrqName` | AIO/drivers/backports/drivers/bcma/driver_mips.c:193-207 | a missing core changes nothing; with distinct flags every recorded interrupt number stays equal to what the exported lookup computes |
| `MipsIrq.Bus.AssignAll` | AIO/drivers/backports/drivers/bcma/driver_mips.c:390-421 | after a whole sequence of assignments from reset every flag is where the run puts it; it succeeds when every core raises a flag and none is hidden |
| `MipsIrq.HiddenUser` | AIO/drivers/backports/drivers/bcma/driver_mips.c:169-184 | a core without a flag, one with flag 31 on line 1, and a third asking for line 1: the allocator stops |

## Left out

- Allocation, sharing and freeing of expression nodes: expressions are values; in-place updates through slots are updates at paths of one tree.
- E_LIST and E_RANGE expressions, and symbols of type int, hex and string beyond a fixed string value: range clamping and number parsing depend on C library conversions.
- Changes of `modules_val` while evaluating: it is a parameter of the configuration.
- The WRITE and CHANGED flags, and the warning about unmet direct dependencies: they do not influence values.
- Choice groups in the cycle checker and in the memoising evaluator: `KconfSystem` states the equations of whole configurations with choices, and `KconfChoice` evaluates one group imperatively.
- A choice member whose prompt is declared away from its choice: members have the prompts that `KconfGuard.MemberPrompt` builds, or any others with the same guard.
- KconfMenu.Finalize: takes the nesting decision as an arbitrary function of the two entries; that decision itself is `KconfCompare.NestsBelow`, and the rewriting of dependencies in the same pass is `KconfCompare.Inherited`.
- The LR automaton and the lexer: the expression reductions are a grammar read by recursive descent with the same precedence and associativity.
- CcmRequest.Memneq: does not model the word-at-a-time loop compiled in on some architectures, which adds nothing to the byte loop.
- Scatter lists are sequences of byte segments; page mapping, asynchronous completion and key setup are not part of this model.
- CcmRequest.Request.Decrypt: requires a length below 2^32, the range of the source's counter of bytes; the sum of the length and 16 is not wrapped.
- Time in CoDel: positive unbounded integers instead of a wrapping 32-bit clock; the callback that pulls a packet and the enqueue that counts its bytes are those of a plain queue.
- CodelQueue.Codel.CountDrop: the pacing bound is claimed until `count` wraps around 2^32; the wrap itself is modelled.
- The drop counter of CoDel is never reset here; in a queue discipline the caller resets it after each dequeue.
- The definition of reciprocal_divide is not part of this repository; the control law takes its documented meaning, the high half of a 64-bit product.
- A C shift by 63 has no defined result; `ShiftAmount` takes the low five bits, as the MIPS instruction does. The index of a core with a quirk is below 32, as a bus has at most 16 cores. BUG_ON is a failing result, after which nothing is promised.
- The network, Bluetooth, media, NFC, SSB and USB drivers, the compatibility shims for older kernels, the dialogs of the configuration tools, and the register sequences of the bus driver outside interrupt assignment.
