# Configuration engine and deck bookkeeping

A verified model of the parts of the Crazyflie firmware repository that decide
things: the Kconfig engine that its build uses (`scripts/kconfig`), the
dependency scanner of the build (`scripts/basic/fixdep.c`), and the firmware
modules that accept decks at start-up and show their memories to a client
(`src/deck/core`). `dafny verify dfyconfig.toml` checks all of it.

Configuration values are n < m < y. AND is minimum, OR is maximum, NOT mirrors
n and y. A *well-formed valuation* gives y, m and n their own values, never
puts a boolean symbol at m, and puts no tristate symbol at m while MODULES is
n; all value statements quantify over every such valuation.

| file | what it holds |
|---|---|
| `Expr.dfy` | symbols, dependency expressions, valuations, comparison of symbols |
| `ExprEq.dfy` | constant folding, common-term elimination, equality of expressions |
| `ExprDups.dfy` | joining redundant terms, the pairwise walk, its fixpoint |
| `ExprSelf.dfy` | every expression equals its copy, no term is left twice |
| `ExprTransform.dfy` | normal form, rewriting for boolean symbols, stored visibility |
| `ExprNesting.dfy` | translated comparisons and the submenu nesting test |
| `ExprLaws.dfy`, `NestingLaws.dfy` | what the rewrites, joins and nesting tests do, said of the single symbols and comparisons |
| `ExprPrint.dfy` | the printer and a reader for the expression grammar; where parentheses stand |
| `ExprHeap.dfy`, `ExprHeapDups.dfy` | the same rewrites on linked nodes, in place, each proved to do what the functions on values do |
| `SymbolEval.dfy` | the lazy, memoised evaluator against a denotational meaning; setting a value |
| `SymbolLaws.dfy` | what that meaning is: prompts, dependencies, defaults, user values, the WRITE flag |
| `DepCheck.dfy` | the depth-first search for recursive dependencies |
| `MenuTree.dfy`, `MenuShape.dfy` | relinking the menu tree; which entry ends up below which |
| `MenuDeps.dfy` | handing dependencies down the menu tree |
| `ConfFile.dfy`, `ConfLaws.dfy` | configuration lines written and read in place; what each kind of line stores |
| `ConfWrite.dfy` | the walk over the menu links |
| `ConfSession.dfy` | writing files repeatedly: the change counter against the flags |
| `SaveLoad.dfy` | saving and loading across the evaluator, the walk and the file text |
| `Fixdep.dfy` | the aligned word scan and its hash table |
| `DeckMemory.dfy` | the deck memory map |
| `DeckInfo.dfy`, `DeckLaws.dfy` | discovery, conflicts and required estimators; the conflicts bit by bit |

The chain of results: an optimised expression means what the original meant
(`ExprEq`, `ExprDups`, `ExprTransform`) and the pointer code computes exactly
that expression (`ExprHeap`, `ExprHeapDups`); a configuration without reported
recursion is one on which evaluation is well-founded (`DepCheck`), there every
evaluated symbol holds its meaning whatever the order of evaluation
(`SymbolEval`), the walk writes each such symbol once (`ConfWrite` on the links
of `MenuTree`), reading the lines restores what was written (`ConfFile`), and so
saving and loading keeps the value of every symbol (`SaveLoad.RoundTrip`), up to
the one exception named below.

Where a method is proved against a recursive function, further laws say what that
function does without it: they speak of the terms of an expression (`ExprLaws`,
`NestingLaws`), of the values of the expressions in a definition
(`SymbolLaws`), of the answers that decide nesting and hiding (`MenuShape`), of
the characters of a line (`ConfLaws`), or of single bits and bytes (`DeckLaws`,
`DeckMemory.ImageLayout`).

Where a wanted property fails, the exact condition is proved instead:

- `expr_trans_compare` asks `!= n` of symbols one by one. It is right for a bare
  symbol if and only if the symbol compares as it reads (a string symbol is n as
  an operand, but its text need not be "n"), and for a negated symbol if and only
  if it also is not m (`TransCompareBareSymbol`, `TransCompareNegatedSymbol`).
  These are the only causes: over normal expressions, the form `menu_finalize`
  stores, whose bare and negated symbols come from two arbitrary sets, both the
  test and the submenu nesting by elimination are right under a valuation if and
  only if every symbol in the sets passes (`TransCompareNormalExact`,
  `NestingExact`). Where all those symbols are boolean or tristate, that means no
  negated one is m. A single pair needs this of the parent's bare and of the
  entry's negated symbols only (`NestsSound`), and each cause has a pair that
  fails (`NestsUnsound`, `NestsUnsoundBare`).
- `expr_trans_bool` also rewrites under NOT. On arbitrary expressions it keeps the
  promoted value if and only if no tristate symbol is m
  (`ExprTransform.TransBoolExact`); on the normal form, where it is used, always
  (`TransBoolPromoted`).
- Saving and loading changes a value if and only if some tristate symbol without
  user value has its prompt visible as m, its default at y, and is not selected to
  y: it reads back as a user value, which the prompt limits to m
  (`SaveLoad.RoundTrip`).
- A configuration file is complete if and only if the change counter was 0 or no
  symbol of it was written since the flags were set up
  (`ConfSession.Session.Write`). Setting values and writing files keeps this so;
  writing a minimal file does not, and the full file written next would be empty
  (`DefconfigThenWrite`).
- A string value with a newline is not restored by reading
  (`ConfFile.StringRestoredExactly`, if and only if).
- Setting a symbol to the value it already has skips the range check. It comes
  back after recalculation, and the cached table stays right, if and only if the
  prompt is invisible, the value is at most the visibility, or it equals the
  reverse dependency (`SymbolEval.SetThenRecalculate`,
  `SymbolEval.SymbolTable.SetTristate`).
- `sym_check_deps` called at the top always returns null, because the result is
  dropped when the search unwinds to the closing symbol, so outside choices
  `conf_parse` (`scripts/kconfig/zconf.y:519-524`) never counts a recursion; the
  reports themselves are exact (`DepCheck.Checker.CheckAll`).
- An identifier `CONFIG_MODULE` is never found by `fixdep`, because the suffix
  test reads back into the prefix, and neither is an occurrence at offset 0
  (`Fixdep.HitsExact`, from offset 1).
- The section test of `handleMemRead` admits deck numbers up to twice the
  number of decks (`DeckMemory.GuardTooWide`, if and only if). The documentation
  gives 19 bytes to the name of a deck memory info; the record has room for 18,
  and the code is followed.

## Model

| member | source | states |
|---|---|---|
| `ExprEquality.EliminateYNValue` | scripts/kconfig/expr.c:246-327 | Constant folding keeps the value of every expression wherever y reads y and n reads n. |
| `ExprEquality.EliminateYNFolds` | scripts/kconfig/expr.c:246-327 | After folding no AND or OR has y or n as an operand, and a folded expression is left alone. |
| `ExprEquality.EliminateEq1Common` | scripts/kconfig/expr.c:141-173 | Both trees lose the same part: for every valuation there is one value c such that each tree was c combined with what is left of it. |
| `ExprEquality.ExprEqSound` | scripts/kconfig/expr.c:200-244 | If `expr_eq` answers 1, the two expressions have the same value under every valuation. |
| `ExprEquality.EliminateEqImplies` | scripts/kconfig/expr.c:175-195 | If `expr_eliminate_eq(dep, base)` leaves base as y, then dep was at most base under every valuation, through both the first and the second stage. |
| `ExprEquality.EliminateEq1Cancels` | scripts/kconfig/expr.c:141-173 | On groups of literals each side loses exactly the terms it shares with the other, counted with multiplicity, y and n aside. |
| `ExprEquality.ExprEqExact` | scripts/kconfig/expr.c:200-244 | Two AND-groups (or OR-groups) of literals compare equal if and only if their contents agree: an absorbing constant, or else the same multiset of terms without y and n. |
| `ExprEquality.ExprEqReordered` | scripts/kconfig/expr.c:200-244 | In particular any reordering and regrouping of the same literals compares equal. |
| `ExprLaws.EliminateEq1First` | scripts/kconfig/expr.c:141-173 | Of two groups of literals each side loses, of equal terms, the first as many as the other side has: they become neutral in their places and nothing moves. |
| `ExprLaws.ComparisonMeans` | scripts/kconfig/expr.c:953-994 | With a boolean or tristate symbol, y, m or n on one side, each of the six comparisons is about the dictionary order of the two value strings. |
| `ExprLaws.ContainsAtom` | scripts/kconfig/expr.c:751-777 | A symbol is contained if and only if it is one of the bare symbols or an operand of one of the comparisons the expression is made of. |
| `ExprLaws.ContainsEnough` | scripts/kconfig/expr.c:751-777 | Two valuations that agree on the contained symbols give the expression the same value. |
| `ExprSelf.EqualSelf` | scripts/kconfig/expr.c:200-244 | `expr_eq` answers 1 for every expression and its copy, whatever is nested in it. |
| `ExprSelf.NoTermTwice` | scripts/kconfig/expr.c:571-592 | The group `expr_eliminate_dups` returns never holds the same term twice. |
| `ExprDups.JoinOrValue` | scripts/kconfig/expr.c:361-423 | A joined pair has the value of the OR of the two terms, under every well-formed valuation. |
| `ExprDups.JoinAndValue` | scripts/kconfig/expr.c:425-517 | A joined pair has the value of the AND of the two terms; the comment at line 499 says otherwise for one case, the code at line 500 is right. |
| `ExprDups.DupsGroupValue` | scripts/kconfig/expr.c:519-569 | The pairwise walk of a group against itself keeps the value of the group. |
| `ExprDups.DupsGroupShrinks` | scripts/kconfig/expr.c:519-569 | A walk that joins something strictly lowers the number of terms other than y and n of a folded expression; a walk that joins nothing changes nothing. |
| `ExprDups.QuietGroupSettled` | scripts/kconfig/expr.c:519-569 | A walk that joins nothing proves that no two terms of any group on the spine can be joined. |
| `ExprDups.EliminateDupsValue` | scripts/kconfig/expr.c:571-592 | `expr_eliminate_dups` keeps the value of every expression under every well-formed valuation. |
| `ExprDups.EliminateDupsSettled` | scripts/kconfig/expr.c:571-592 | On exit no two terms of any AND or OR group on the spine are joinable. |
| `ExprDups.SettledUnchanged` | scripts/kconfig/expr.c:571-592 | An expression without joinable terms comes back as it is. |
| `ExprDups.EliminateDupsIdempotent` | scripts/kconfig/expr.c:571-592 | Running it again changes nothing. |
| `ExprLaws.JoinOrExact` | scripts/kconfig/expr.c:361-423 | Which terms are joined by OR, and to what: equal terms; for a tristate symbol two tests for equality with two of y, m and n, which become a test for inequality with the third; for a boolean symbol the symbol and its negation. Nothing else is. |
| `ExprLaws.JoinAndExact` | scripts/kconfig/expr.c:425-517 | The same for AND: equal terms; a symbol with its test for y, not n or not m; for a tristate symbol an equality and an inequality with constants, and two inequalities with two of y, m and n. Nothing else is. |
| `ExprLaws.DupsKeepLast` | scripts/kconfig/expr.c:519-569 | In a group of symbols the walk keeps the last one of equal terms in its place and makes the others neutral. |
| `ExprTransform.TransformValue` | scripts/kconfig/expr.c:594-749 | `expr_transform` keeps the value of every expression under every well-formed valuation (the termination measure, in which NOT doubles, is the function Weight). |
| `ExprTransform.TransformNormal` | scripts/kconfig/expr.c:594-749 | Afterwards NOT stands only over symbols other than y, m and n, and no boolean symbol is tested for y, m or n. |
| `ExprTransform.TransformLeafCount` | scripts/kconfig/expr.c:594-749 | The number of leaves is unchanged. |
| `ExprTransform.TransformIdempotent` | scripts/kconfig/expr.c:594-749 | A second transformation changes nothing. |
| `ExprLaws.TransformOrder` | scripts/kconfig/expr.c:594-749 | The bare symbols and comparisons of the result speak about the same symbols in the same order, those that become y, m or n aside. |
| `ExprTransform.TransBoolPolarity` | scripts/kconfig/expr.c:332-356 | Outside NOTs rewriting `T!=n` to `T` keeps when an expression is n, inside NOTs when it is y. |
| `ExprTransform.TransBoolPromoted` | scripts/kconfig/expr.c:332-356 | With no such test under an odd number of NOTs, the value after promoting m to y is unchanged. |
| `ExprTransform.TransBoolUnderNot` | scripts/kconfig/expr.c:337-351 | Below one NOT the rewriting is wrong for every tristate symbol at m: the promoted value goes from n to y. |
| `ExprTransform.TransBoolExact` | scripts/kconfig/expr.c:332-356 | On arbitrary expressions the rewriting keeps the promoted value under a valuation if and only if no tristate symbol is m. |
| `ExprLaws.TransBoolAtoms` | scripts/kconfig/expr.c:332-356 | Exactly the tests `T!=n` of tristate symbols are replaced, by the symbol; every other symbol and comparison stays, in order. |
| `ExprTransform.CombineValue` | scripts/kconfig/menu.c:310-312 | Transforming, conjoining and eliminating duplicates yields the minimum of the two dependencies. |
| `ExprLaws.CombineInOrder` | scripts/kconfig/menu.c:310-312 | Where nothing can be joined the result is the given dependency, then the transformed own one; a missing one is left out. |
| `ExprTransform.EliminateDupsNormal` | scripts/kconfig/expr.c:571-592 | Eliminating duplicates keeps an expression in the form `expr_transform` produces. |
| `ExprTransform.PropertyVisibilityMeaning` | scripts/kconfig/menu.c:310-328 | The visibility stored for a property is the conjunction of the parent's, the entry's and its own dependency; for symbols that are not tristate it is the same after promoting m to y, also where `expr_trans_bool` was applied. |
| `ExprLaws.PropertyVisibilityForm` | scripts/kconfig/menu.c:310-328 | The visibility is missing exactly if all three dependencies are; for a tristate symbol it has no terms left to join, for any other symbol no test `T!=n`. |
| `ExprNesting.TransCompareExact` | scripts/kconfig/expr.c:808-871 | The test for `!= n` or `= y` is two-valued and decides exactly that question, as long as no NOT stands over a value m and every bare symbol compares as it reads. |
| `ExprNesting.NotsTwoValuedDecided` | scripts/kconfig/expr.c:808-871 | That condition holds under every valuation when NOT is applied to two-valued operands only. |
| `ExprNesting.TransCompareBareSymbol` | scripts/kconfig/expr.c:863-864 | For a bare symbol the translated test for `!= n` is right if and only if the symbol compares as it reads: it is boolean, tristate, y, m or n, or its text is "n". |
| `ExprNesting.TransCompareNegatedSymbol` | scripts/kconfig/expr.c:835-836 | For a negated symbol the test is right if and only if the symbol compares as it reads and is not m. |
| `ExprNesting.DependsImplies` | scripts/kconfig/expr.c:779-806 | An expression that depends on a boolean or tristate symbol is n whenever the symbol is n. |
| `ExprNesting.DependsContains` | scripts/kconfig/expr.c:751-806 | Whatever depends on a symbol contains it. |
| `ExprNesting.DependsExact` | scripts/kconfig/expr.c:779-806 | The implication holds for all expressions and valuations if and only if the symbol is boolean, tristate, y, m or n. |
| `NestingLaws.DependsConjunct` | scripts/kconfig/expr.c:779-806 | An expression depends on s if and only if one of its conjuncts is s, s=y, s=m or s!=n. |
| `NestingLaws.ConjunctNests` | scripts/kconfig/menu.c:346-348 | An entry with such a conjunct nests below s whatever the visibility of the prompt of s. |
| `NestingLaws.EliminatedExactly` | scripts/kconfig/expr.c:175-195 | Of two AND-groups of literals the second is reduced to y if and only if it has no n and the first has all its other terms, counted with multiplicity; of two single literals the second must be y. |
| `NestingLaws.NestsExactly` | scripts/kconfig/menu.c:341-364 | Where both prepared visibilities are such groups, an entry nests if and only if it contains the symbol and either has a conjunct asking for it or has all terms of the prompt. |
| `NestingLaws.VisibleForm` | scripts/kconfig/menu.c:342-353 | A prepared visibility is in normal form and has no terms left to join. |
| `NestingLaws.TransCompareAtoms` | scripts/kconfig/expr.c:808-871 | The test for y or n compares every bare symbol with the constant and leaves every comparison as it is, in order. |
| `NestingLaws.TestForM` | scripts/kconfig/expr.c:808-871 | The test for m is right for a bare boolean or tristate symbol and for a comparison, says the opposite for a negated symbol, and of an AND or OR gives the value instead of a test; the source asks for n only. |
| `ExprNesting.VisibleExact` | scripts/kconfig/menu.c:343-345 | The prepared visibility is y exactly when the dependency is not n, for dependencies that are decided: no NOT stands over a value m and every bare symbol compares as it reads (DepDecided). |
| `ExprNesting.NormalTestSafe` | scripts/kconfig/expr.c:808-871 | On the normal form the test for `!= n` says y of an expression that is n only because of a bare symbol whose text is not "n"; nothing under a NOT can cause it. |
| `ExprNesting.NormalTestComplete` | scripts/kconfig/expr.c:808-871 | On the normal form the test says n of an expression that is not n only because of a negated symbol that is m or whose text is not "n"; no bare symbol can cause it. |
| `ExprNesting.TransCompareNormalExact` | scripts/kconfig/expr.c:808-871 | Over normal expressions whose bare and negated symbols come from two arbitrary sets, the test is right for all of them if and only if every symbol of both sets compares as it reads and no negated tristate symbol is m. |
| `ExprNesting.NestsSound` | scripts/kconfig/menu.c:342-361 | Nested by dependency on a boolean or tristate symbol (or y, m, n), an entry is n whenever that symbol is; nested by elimination, it is n whenever the parent is, if the bare symbols of the parent compare as they read and the negated symbols of the entry do too and are not m, both expressions being normal. |
| `ExprNesting.NestingExact` | scripts/kconfig/menu.c:342-361 | Over normal expressions whose bare and negated symbols come from two arbitrary sets, nesting by elimination is safe under a valuation if and only if every symbol of both sets compares as it reads and no negated tristate symbol is m. |
| `ExprNesting.NestsUnsound` | scripts/kconfig/menu.c:342-361 | For every symbol t that is a tristate at m or does not compare as it reads: an entry depending on `s!=c && !t` is nested below a prompt visible `if t=n`, and is visible where that prompt is not. |
| `ExprNesting.NestsUnsoundBare` | scripts/kconfig/menu.c:342-361 | For every symbol t that does not compare as it reads, with no symbol at m anywhere: an entry depending on `s!=c && t!=n` is nested below a prompt visible `if t`, and is visible where that prompt is not. |
| `ExprPrint.PrintThenRead` | scripts/kconfig/expr.c:1073-1161 | Reading a printed expression back with the grammar of the configuration language yields the expression regrouped to the right, which has the same value. |
| `ExprPrint.PrintUnambiguous` | scripts/kconfig/expr.c:997-1029 | Two expressions print as the same tokens if and only if they differ in grouping only, so no needed parenthesis is ever dropped. |
| `ExprPrint.PrintTokens` | scripts/kconfig/expr.c:1073-1161 | Without parentheses the tokens are those of the expression from left to right, and there is exactly one pair for each OR in an AND and each AND or OR in a NOT. |
| `ExprHeap.Copy` | scripts/kconfig/expr.c:65-104 | A copy shares no node with the original and has its value. |
| `ExprHeap.EliminateYN` | scripts/kconfig/expr.c:246-327 | Folding in place: the same node comes back, over a subset of its nodes, holding what folding the value gives. |
| `ExprHeap.TransBool` | scripts/kconfig/expr.c:332-356 | The in-place rewriting does what the rewriting on values does. |
| `ExprHeap.Transform` | scripts/kconfig/expr.c:594-749 | The in-place transformation, which reuses the nodes of a negated group, returns a proper tree holding the transformed value. |
| `ExprHeap.PushNot` | scripts/kconfig/expr.c:690-709 | Pushing a NOT into a group reuses both nodes, adds one and loses none of the operands. |
| `ExprHeap.Rewriter.EliminateEq1` | scripts/kconfig/expr.c:141-173 | Two disjoint trees are rewritten in place into the pair of trees the elimination on values gives. |
| `ExprHeap.Rewriter.EliminateEq` | scripts/kconfig/expr.c:175-195 | The same for both stages followed by folding. |
| `ExprHeap.Rewriter.Equal` | scripts/kconfig/expr.c:200-244 | The comparison answers as on values, changes neither tree, and restores `trans_count`. |
| `ExprHeap.Rewriter.JoinOr` | scripts/kconfig/expr.c:361-423 | Returns a new tree with the join, or null exactly when there is none, and changes nothing. |
| `ExprHeap.Rewriter.JoinAnd` | scripts/kconfig/expr.c:425-517 | Returns a new tree with the join, or null exactly when there is none, and changes nothing. |
| `ExprHeapDups.VisitPair` | scripts/kconfig/expr.c:534-566 | One pair of distinct terms of the same tree: the group below the first is walked, then the pair is joined into the second and the first becomes neutral. |
| `ExprHeapDups.EliminateDups1` | scripts/kconfig/expr.c:519-569 | Two pointers walking the same tree while its terms are overwritten meet every ordered pair of terms in row order; terms and `trans_count` end as in the walk on values. |
| `ExprHeapDups.DupsOfGroup` | scripts/kconfig/expr.c:541-542 | Called with both pointers at one group, the walk leaves a proper tree with the walked value and counts the joins. |
| `ExprHeapDups.EliminateDups` | scripts/kconfig/expr.c:571-592 | The loop until nothing is joined terminates, computes the settled value in place and restores `trans_count`. |
| `SymbolEval.SymbolTable.CalcExpr` | scripts/kconfig/expr.c:917-995 | Evaluating an expression, with the evaluations it triggers, yields its meaning and touches only lower symbols. |
| `SymbolEval.SymbolTable.CalcVisibility` | scripts/kconfig/symbol.c:209-261 | Leaves the denotational visibility and reverse and direct dependency values in the symbol, after evaluating what they mention. |
| `SymbolEval.SymbolTable.CalcValue` | scripts/kconfig/symbol.c:327-474 | Leaves the symbol valid and holding its denotational value; a valid symbol is not touched; symbols of higher rank are not touched. |
| `SymbolEval.SymbolTable.CalcTop` | scripts/kconfig/symbol.c:327-474 | Keeps the invariant that every valid symbol holds its denotational fields, WRITE flag included. |
| `SymbolEval.SymbolTable.CalcAll` | scripts/kconfig/symbol.c:327-474 | Any sequence of evaluations in any order leaves each listed symbol valid with its meaning. |
| `SymbolEval.SymbolTable.ClearAllValid` | scripts/kconfig/symbol.c:476-485 | After clearing, the invariant holds with no flag taken back and MODULES has been evaluated again. |
| `SymbolEval.SymbolTable.SetTristate` | scripts/kconfig/symbol.c:506-540 | Accepts exactly the current value and the values within range, and refuses without any change. When it accepts a new value, recalculation gives that value, the flags are set up again, MODULES has been evaluated again, and the table is correct for the new user value under the rounding in force during that evaluation; symbols MODULES does not depend on leave MODULES alone. When it accepts the current value, the table stays correct if and only if that value would come back. |
| `SymbolEval.MeaningRange` | scripts/kconfig/symbol.c:380-417 | A boolean symbol, or a tristate one with MODULES at n, is never m, and no value is below the reverse dependency. |
| `SymbolEval.MeaningWellFormed` | scripts/kconfig/symbol.c:327-474 | The denotational values form a well-formed valuation. |
| `SymbolEval.MeantExprValue` | scripts/kconfig/expr.c:917-995 | Under that valuation every expression has the value the evaluator gives it. |
| `SymbolLaws.VisibilityLaw` | scripts/kconfig/symbol.c:209-235 | No prompt is above the visibility, and the visibility is the value of one of them, with m read as y for a boolean symbol or while MODULES is n; without prompts it is n. |
| `SymbolLaws.DependencyLaw` | scripts/kconfig/symbol.c:236-261 | A missing reverse dependency is n and a missing direct one y; otherwise they are the values of their expressions, m becoming y for a direct one always and for a reverse one where m is no value. |
| `SymbolLaws.DefaultLaw` | scripts/kconfig/symbol.c:115-125 | The first default whose condition is not n gives the smaller of its value and its condition, and equals one of them; if there is none the symbol has no default. |
| `SymbolLaws.ValueLaw` | scripts/kconfig/symbol.c:378-418 | The value is the larger of the reverse dependency and what the symbol contributes itself, with m read as y where m is no value: the smaller of user value and visibility if there is a user value and the prompt is visible, else the first active default, else n. |
| `SymbolLaws.DefaultValueLaw` | scripts/kconfig/symbol.c:392-418 | So a symbol that is not selected and has no user value in effect has the smaller of value and condition of its first active default, rounded, or n if there is none. |
| `SymbolLaws.ContributesOne` | scripts/kconfig/symbol.c:378-400 | That contribution is a single value. |
| `SymbolLaws.WriteLaw` | scripts/kconfig/symbol.c:380-400 | A symbol is to be written if and only if it is visible, has a reverse dependency above n, or has an active default. |
| `SymbolLaws.RangeLaw` | scripts/kconfig/symbol.c:487-504 | A value is within range if and only if the prompt goes beyond the reverse dependency and recalculation with that user value would give it. |
| `SymbolEval.SetThenRecalculate` | scripts/kconfig/symbol.c:487-540 | A value within range that is set is exactly what recalculation gives; a value that was merely current comes back if and only if the prompt is invisible, the value is at most the visibility, or it equals the reverse dependency. |
| `SymbolEval.SameMeaning` | scripts/kconfig/symbol.c:506-540 | Symbols that do not transitively depend on the symbol set keep their values. |
| `SymbolEval.SameEvaluated` | scripts/kconfig/symbol.c:506-540 | They keep visibility, reverse dependency and WRITE flag too. |
| `DepCheck.Checker.CheckDeps` | scripts/kconfig/symbol.c:1280-1312 | A search keeps stack, CHECK and CHECKED flags consistent, restores the stack, marks the symbol checked, and finishes it after everything it searches unless something was reported. It returns exactly the first symbol of the last report, as long as the search of that symbol is under way. |
| `DepCheck.Checker.CheckSymDeps` | scripts/kconfig/symbol.c:1209-1241 | The symbols below are looked up in order, reverse dependency first, then property by property, and from left to right; all of them unless a recursion is being reported, and then none after it. |
| `DepCheck.Checker.PrintRecursive` | scripts/kconfig/symbol.c:1094-1172 | Each report is the part of the stack from the symbol to the top: a real cycle of the dependency graph made of symbols marked CHECK. |
| `DepCheck.Checker.CheckAll` | scripts/kconfig/symbol.c:1280-1312 | Every listed symbol is looked up and ends up checked, reports or not; a recursion is reported if and only if the graph has a cycle; the result returned at the top is always null, so the error counter of the caller stays 0. |
| `DepCheck.OrderAcyclic` | scripts/kconfig/symbol.c:1280-1312 | The order in which symbols are finished proves that there is no cycle. |
| `DepCheck.SuccExact` | scripts/kconfig/symbol.c:1209-1241 | What is searched below a symbol: what its reverse dependency contains, the conditions of its properties except choices and selects, and the values of its defaults. |
| `DepCheck.SuccDefined` | scripts/kconfig/symbol.c:1209-1241 | For the definitions the evaluator works on these are exactly the symbols contained in any expression it reads. |
| `ExprPrint.NamesPrinted` | scripts/kconfig/symbol.c:1174-1207 | The left-to-right order of the search is the order in which the symbols are printed. |
| `DepCheck.NoReportRanked` | scripts/kconfig/symbol.c:1280-1312 | A configuration without report is one on which evaluation is well-founded. |
| `MenuForest.FinalizePreorder` | scripts/kconfig/menu.c:339-424 | Whatever is nested and flattened, the entries keep their display order. |
| `MenuShape.FinalizeTwoPasses` | scripts/kconfig/menu.c:282-444 | The single pass over the links, which takes siblings in and lifts children as it goes, gives what two simple passes give: grouping a chain from its last entry, then lifting the children of hidden entries everywhere. |
| `MenuShape.GroupedLaw` | scripts/kconfig/menu.c:339-374 | After grouping an entry that had children has the same entries below it; an entry for a symbol has following siblings at its top that all nest, and the first sibling it does not have below it does not nest; any other entry has none. |
| `MenuShape.LiftedLaw` | scripts/kconfig/menu.c:376-424 | Lifting takes the children of hidden entries away, leaves every other entry all it had below it, and keeps the order. |
| `MenuShape.FinalizeShape` | scripts/kconfig/menu.c:282-444 | Both hold for what the whole restructuring puts below a menu. |
| `MenuTree.Menus.FinalizeRoot` | scripts/kconfig/menu.c:282-444 | On the links of the whole tree: they form a tree again, every parent link is the real parent, the preorder is unchanged, and each entry is finalised exactly once. Which entries are below which is given by nests and hidden alone (Restructured): first every entry with children keeps all below it and one for a symbol gets the following siblings up to the first that does not nest; then every hidden entry loses its children and every other one keeps all it had. |
| `MenuTree.Menus.Finalize` | scripts/kconfig/menu.c:282-444 | On one menu of a sibling chain: the links come to show the restructured chain, which is the one nests and hidden call for, and no link outside it changes. |
| `MenuTree.Menus.FinalizeChildren` | scripts/kconfig/menu.c:339-340 | The loop over the children finalises each, also those that siblings took in meanwhile. |
| `MenuTree.Menus.AbsorbSiblings` | scripts/kconfig/menu.c:341-374 | Following siblings are finalised and cut out into the child list: each of them nests, and the first sibling left does not. |
| `MenuTree.Menus.FlattenChildren` | scripts/kconfig/menu.c:376-424 | Children of entries without prompt text are lifted behind them, with their parent links corrected. |
| `MenuDeps.Menu.Finalize` | scripts/kconfig/menu.c:303-340 | The two loops over the children, in place and recursively, hand dependencies down the whole tree. |
| `MenuDeps.Menu.Receive` | scripts/kconfig/menu.c:310-328 | One round stores the combined dependency and the visibility of every property. |
| `MenuDeps.PropagateMeans` | scripts/kconfig/menu.c:303-340 | Every entry's dependency ends up as the conjunction of its own and of the dependencies and prompt conditions of all blocks around it, and so does every condition, after promoting m to y where the symbol is not tristate. |
| `ConfFile.UnescapeInverts` | scripts/kconfig/confdata.c:157-171 | Removing escapes up to the closing quote gives back every string that was escaped, whatever follows. |
| `ConfLaws.EscapedShortest` | scripts/kconfig/symbol.c:928-969 | The escaped text stands for the string, and every other text that does is longer. |
| `ConfLaws.UnescapedExact` | scripts/kconfig/confdata.c:157-171 | A string is read if and only if the text begins with one that stands for it, each character plain or behind a backslash, and then a quote. |
| `ConfFile.EscapeString` | scripts/kconfig/symbol.c:928-969 | The escaping loop fills a buffer of exactly the computed size with the quoted string; `ConfLaws.EscapedShortest` says what the escaping is. |
| `ConfFile.Unquote` | scripts/kconfig/confdata.c:157-171 | Removing backslashes in place by shifting the rest of the buffer leaves the unescaped string, or reports the missing quote. |
| `ConfFile.ReadPrinted` | scripts/kconfig/confdata.c:488-508 | Reading a printed line stores the value it was printed from: tristate, number or string. |
| `ConfLaws.PrintForms` | scripts/kconfig/confdata.c:487-508 | The exact text printed for every kind of value. |
| `ConfFile.WriteThenRead` | scripts/kconfig/confdata.c:251-407 | Reading all printed lines stores all values. |
| `ConfFile.StoreAllGives` | scripts/kconfig/confdata.c:251-407 | With distinct names every symbol then has the value it was written with. |
| `ConfFile.StringRestoredExactly` | scripts/kconfig/confdata.c:487-508 | A string symbol is restored from its line if and only if its value has no newline. |
| `ConfFile.ReadTextNoNewlines` | scripts/kconfig/confdata.c:251-407 | No file can give a symbol a value with a newline in it. |
| `ConfFile.Reader.SetSymVal` | scripts/kconfig/confdata.c:126-194 | On a line buffer: the value stored, if any, is the one the value text denotes for the type. |
| `ConfFile.Reader.ReadLineIn` | scripts/kconfig/confdata.c:300-382 | The parser that cuts the line buffer in place stores what the line says. |
| `ConfFile.Reader.TrimLine` | scripts/kconfig/confdata.c:346-353 | Cuts the newline and a carriage return before it. |
| `ConfFile.Reader.ReadFile` | scripts/kconfig/confdata.c:251-407 | The loop over all lines of a file, NUL bytes included, stores what the text says. |
| `ConfLaws.LogicLine` | scripts/kconfig/confdata.c:128-155 | For every boolean or tristate symbol and every value text, with any line end: the first character alone decides. y stores y, n stores n, m stores m for a tristate symbol, and anything else leaves the values as they were. |
| `ConfLaws.NumberLine` | scripts/kconfig/symbol.c:565-594 | A number is stored as written if and only if it is an optional minus and decimal digits without leading zero, or an optional 0x and hexadecimal digits, by the type of the symbol; otherwise nothing changes. |
| `ConfLaws.StringLine` | scripts/kconfig/confdata.c:164-176 | A string is stored if and only if the text opens with a quote and has a closing one without a backslash; what follows is ignored. |
| `ConfLaws.UnknownLine` | scripts/kconfig/confdata.c:354-360 | A name that is not declared, or is y, m or n, stores nothing. |
| `ConfLaws.UnsetLine` | scripts/kconfig/confdata.c:303-338 | `# CONFIG_name is not set`, whatever follows, sets exactly boolean and tristate symbols to n; another text behind the name changes nothing. |
| `ConfLaws.OtherLine` | scripts/kconfig/confdata.c:300-382 | Any line without `CONFIG_` in its place, or without the = or space behind the name, changes nothing. |
| `ConfLaws.LineByLine` | scripts/kconfig/confdata.c:300-302 | A file is read line by line from the front, the last line with or without its newline. |
| `ConfWrite.Writer.WriteAll` | scripts/kconfig/confdata.c:790-823 | The walk over list, next and parent links ends, visits every entry below the root once in preorder, and writes the lines that order calls for. |
| `ConfWrite.Writer.ClimbUp` | scripts/kconfig/confdata.c:817-822 | Climbing finds the next entry in preorder or the end. |
| `ConfWrite.LinesOnce` | scripts/kconfig/confdata.c:805-810 | A symbol is written if and only if some entry of it is to be written, and only once. |
| `ConfWrite.LinesOrdered` | scripts/kconfig/confdata.c:800-823 | Symbols are written in the order of their first entries. |
| `ConfSession.Session.Set` | scripts/kconfig/symbol.c:506-540 | A value that changes something sets the flags up again and raises the change counter; a refused or unchanged one leaves both. |
| `ConfSession.Session.Write` | scripts/kconfig/confdata.c:787-836 | A file lists every symbol to be written if and only if the change counter was 0 or none of them was written since the flags were set up; if all were, it is empty. Afterwards the next file is complete. |
| `ConfSession.Session.WriteDefconfig` | scripts/kconfig/confdata.c:668-739 | The minimal file lists exactly the symbols of the full list that are not skipped, in its order, and leaves the WRITE flag of every listed symbol cleared with the counter raised. |
| `ConfSession.KeptEach` | scripts/kconfig/confdata.c:682-728 | Each symbol is listed or skipped on its own, in its place. |
| `ConfSession.Session.DefconfigThenWrite` | scripts/kconfig/confdata.c:668-836 | Written after a minimal file the full one is empty, and the one after that is complete again. |
| `ConfSession.LinesWithout` | scripts/kconfig/confdata.c:805-810 | Symbols written before are missing from a file, and nothing else is. |
| `SaveLoad.SaveLoadExact` | scripts/kconfig/symbol.c:378-418 | Loading the written values keeps the value of every symbol if and only if every written value is one its prompt can produce. |
| `SaveLoad.NotSticking` | scripts/kconfig/symbol.c:380-399 | The only value that does not come back: a symbol without user value whose prompt is visible as m, whose default is y, and which is not selected to y. |
| `SaveLoad.TextRead` | scripts/kconfig/confdata.c:251-407 | Reading the text of the written lines stores the value of every written symbol and nothing else. |
| `SaveLoad.RoundTrip` | scripts/kconfig/confdata.c:790-823 | Writing in menu order and reading the text back keeps every value if and only if no symbol owes its y to a default above its prompt. |
| `SaveLoad.AgreesExact` | scripts/kconfig/confdata.c:423-447 | The comparison `conf_read` makes finds nothing unsaved if and only if all values were restored. |
| `SaveLoad.AgreesMeans` | scripts/kconfig/confdata.c:423-447 | All symbols agree if and only if user values exist for exactly the symbols to be written, and are their values. |
| `SaveLoad.Loader.Read` | scripts/kconfig/confdata.c:409-477 | `conf_unsaved` counts the listed symbols that do not agree with what was read, and is 0 if and only if all do; dropping the user values of invisible symbols changes no value. |
| `SaveLoad.Loader.DropInvisible` | scripts/kconfig/confdata.c:449-460 | User values of invisible symbols are dropped only when nothing was unsaved, and the table stays correct. |
| `Fixdep.WordHits` | scripts/basic/fixdep.c:251-256 | The four offsets an aligned word answers for hold at most one occurrence of CONFIG_, and the word tells which. |
| `Fixdep.HitsExact` | scripts/basic/fixdep.c:257-275 | A name is found exactly when some offset holds CONFIG_ and an identifier ending inside the file, with _MODULE taken off; the identifier MODULE itself is never found. |
| `Fixdep.ScanExact` | scripts/basic/fixdep.c:233-276 | Over any sequence of files exactly the names used are reported, each once. |
| `Fixdep.FirstsDistinct` | scripts/basic/fixdep.c:233-242 | The list of first occurrences has no repetition and is exactly the names not seen before. |
| `Fixdep.FirstsOrdered` | scripts/basic/fixdep.c:233-242 | Names are put out in the order of their first occurrences. |
| `Fixdep.HitsOrdered` | scripts/basic/fixdep.c:257-275 | Names are found in the order of their offsets. |
| `Fixdep.AllHitsOrdered` | scripts/basic/fixdep.c:244-276 | Files are scanned one after the other. |
| `Fixdep.IdentCharExact` | scripts/basic/fixdep.c:264 | The characters of an identifier, one by one: the letters, the digits and the underscore. |
| `Fixdep.StrippedExact` | scripts/basic/fixdep.c:269-270 | Exactly one trailing _MODULE is taken off. |
| `Fixdep.KnownHashes` | scripts/basic/fixdep.c:187-195 | The hash function gives the published values of 32-bit FNV-1a. |
| `Fixdep.Scanner.IsDefinedConfig` | scripts/basic/fixdep.c:200-210 | The chain lookup answers whether the name is among those seen. |
| `Fixdep.Scanner.DefineConfig` | scripts/basic/fixdep.c:215-228 | Adding a name keeps every chain in agreement with the set of names seen. |
| `Fixdep.Scanner.UseConfig` | scripts/basic/fixdep.c:233-242 | A name is put out only the first time. |
| `Fixdep.Scanner.ParseConfigFile` | scripts/basic/fixdep.c:244-276 | The aligned scan of a file puts out the names of the byte scan from offset 1, first occurrences only. |
| `Fixdep.Scanner.ScanAll` | scripts/basic/fixdep.c:244-276 | The same over any number of files with one table. |
| `DeckMemory.PopulateDeckMemoryInfoBuffer` | src/deck/core/deck_memory.c:133-157 | Fills one 32-byte block in place and nothing else: flags, hash, size, base address, name with optional id. |
| `DeckMemory.PopulateDeckMemoryInfos` | src/deck/core/deck_memory.c:165-182 | Fills both blocks of a deck, zeros for a missing memory. |
| `DeckMemory.HandleInfoSectionRead` | src/deck/core/deck_memory.c:184-223 | A read of any length at any address of the section returns exactly that slice of one flat image and leaves the rest of the buffer alone. |
| `DeckMemory.AdjacentReads` | src/deck/core/deck_memory.c:184-223 | Adjacent reads concatenate to the whole read. |
| `DeckMemory.BlockParsed` | src/deck/core/deck_memory.c:133-157 | Every field of a memory definition can be read back from its block by the documented layout. |
| `DeckMemory.DeckParsed` | src/deck/core/deck_memory.c:165-223 | Reading the two blocks of any deck at their documented addresses gives back its memory definition and base address, or a record that is not valid. |
| `DeckMemory.ImageLayout` | src/deck/core/deck_memory.c:96-182 | Byte by byte, with literal positions and flag values: the version, and for each memory of each deck its flags, hash, size, base address and name, or 32 zeros. |
| `DeckMemory.BaseRoutes` | src/deck/core/deck_memory.c:225-241 | An advertised base address plus any offset leads back to the same deck, selector and offset. |
| `DeckMemory.RouteIsBase` | src/deck/core/deck_memory.c:307-322 | An address is routed to a memory if and only if it lies in the section its base address starts, provided the base does not wrap. |
| `DeckMemory.GuardTooWide` | src/deck/core/deck_memory.c:319 | The guard lets through a deck number that does not exist if and only if the address lies in the sections behind the last deck, up to twice their number. |
| `DeckMemory.HandleMemRead` | src/deck/core/deck_memory.c:307-325 | A read shows the image in section 0, and calls the read function of deck, memory and offset exactly when that memory exists, is readable and starts there. |
| `DeckInfo.MasksConflict` | src/deck/core/deck_info.c:193-218 | Meeting the accumulated masks is meeting one of the decks before, for peripherals other than the buses and for GPIOs. |
| `DeckInfo.Decks.EnumerateDecks` | src/deck/core/deck_info.c:133-185 | The first four decks of all usable backends are taken over in order. |
| `DeckLaws.ConflictExact` | src/deck/interface/deck_core.h:50-69 | Two drivers conflict if and only if they share a GPIO bit, or a peripheral bit other than 2, 3, 10, 11 and 12, the pins of I2C and SPI. |
| `DeckLaws.AcceptedExactly` | src/deck/core/deck_info.c:187-225 | The start-up check accepts exactly the lists in which no two decks share such a bit. |
| `DeckLaws.DiscoveredOrder` | src/deck/core/deck_info.c:139-175 | Backends are asked in order; a usable one gives its decks in order, with the dummy driver where none was found, any other gives none. |
| `DeckLaws.FirstFour` | src/deck/core/deck_info.c:163-178 | The decks taken over are the first four, or all if there are fewer. |
| `DeckInfo.Decks.CheckPeriphAndGpioConflicts` | src/deck/core/deck_info.c:187-225 | All decks are kept if no pair conflicts, otherwise none is; what a conflict is, pin by pin, is stated by `DeckLaws.AcceptedExactly`. |
| `DeckInfo.Decks.RegisterRequiredEstimator` | src/deck/core/deck_info.c:243-263 | Records the first requirement and reports an error exactly for a different one. |
| `DeckInfo.Decks.ScanRequiredSystemProperties` | src/deck/core/deck_info.c:227-241 | All decks are kept if their requirements agree, otherwise none; the first requirement stays recorded either way. |
| `DeckInfo.AgreeMeans` | src/deck/core/deck_info.c:243-263 | The requirements agree if and only if each deck asks for nothing or for the recorded estimator. |
| `DeckInfo.Decks.DeckInfoInit` | src/deck/core/deck_info.c:69-80 | All discovered decks are kept, or none, and a second call changes nothing. |

## Left out

- Symbols of unknown type met in automatically written files (S_OTHER), and choice groups in the evaluator and in the dependency check: they change flags across symbols.
- Expressions shared between properties: `menu_finalize` links the same tree into `dir_dep` and `rev_dep`; trees do not share nodes here.
- Memory management: a freed node that is replaced through `struct expr **` is overwritten with its replacement instead of being allocated anew, and the union of symbol and expression pointers is two fields.
- Numbers in expressions: the comparison of two symbols that are neither boolean, tristate nor y, m, n is one total function of the pair.
- Int, hex and string symbols in the evaluator, their ranges, and `sym_set_string_value`; they appear only as texts that are compared, written and read.
- SaveLoad.RoundTrip: MODULES has the same value before and after.
- MODULES changing while symbols are evaluated, SYMBOL_AUTO, the CHANGED flags, environment symbols and the unmet-dependency warning.
- SymbolEval.SymbolTable.SetTristate: when the new value changes MODULES, what later evaluations round to is not followed further, since values evaluated before keep the old rounding.
- SymbolEval.SymbolTable.CalcVisibility: choice values and the CHANGED flags, as above.
- SymbolEval.SymbolTable.CalcValue: int, hex and string symbols and choices, as above.
- SymbolEval.SymbolTable.ClearAllValid: the change counter is a field of `ConfSession.Session`, and the rounding value of MODULES is updated by `SetTristate`.
- ExprNesting.NestsSound: asks that the symbols named in its row compare as they read and that negated ones are not m; NestingExact shows that this is the exact limit.
- ExprNesting.VisibleExact: asks for decided dependencies; NormalTestSafe and NormalTestComplete say which half fails otherwise.
- NestingLaws.NestsExactly: where a prepared visibility is not a group of literals, elimination is covered in one direction only, by `ExprEquality.EliminateEqImplies`; so are nested groups in `NestingLaws.EliminatedExactly` and `ExprLaws.EliminateEq1First`.
- ExprLaws.DupsKeepLast: groups with other terms than bare symbols; for those the place of a joined term follows from `ExprHeapDups.VisitPair`.
- ExprTransform.PropertyVisibilityMeaning: the value that `select` adds to the reverse dependency is not covered, since `expr_trans_bool` does not preserve it.
- MenuForest.FinalizePreorder: which entries nest or are hidden is an arbitrary answer for each pair or entry; the answers themselves are the subject of `ExprNesting`.
- Choice value checks, warnings and the M_SYMBOL visibility added to choices in `menu_finalize`.
- MenuDeps.PropagateMeans: entries that nest later keep the dependency they had; nesting adds none.
- MenuDeps.Menu.Finalize: the conjunction added later to values of a choice, and the dependencies `select` collects.
- ConfSession.Session.WriteDefconfig: which symbols equal their default is a given predicate.
- ConfWrite.Writer.WriteAll: menu headings, comments, int, hex and string lines and file handling are left out; the clearing before the walk is in `ConfSession`.
- SaveLoad.Loader.Read: int, hex and string symbols, choices and the change counter are left out.
- ConfFile.Reader.ReadFile: every line gets a buffer of its own, so what an earlier line left behind a line of one character is not read; default files, warnings and choice consistency are left out.
- The path text `print_config` derives from a name, the dependency file parser and the memory mapping of `fixdep`.
- Fixdep.StrHash: characters count as unsigned bytes, which agrees with the source for identifiers.
- Writes to deck memories and the command section; `properties()` of a deck is taken as constant during one read, and the deck's own read function is only recorded as called.
- DeckMemory.HandleMemRead: addresses the guard lets through without a deck behind them are excluded, because the source dereferences a null pointer there.
- DeckMemory.PopulateDeckMemoryInfoBuffer: a name with id that does not fit its field is excluded; the source would write outside it.
- Looking up drivers by identifier or name: a discovered deck carries the driver that was found, or none.
- User interfaces, randomised configurations, regular expression search, and all hardware access.
