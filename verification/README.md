# The Kconfig engine and sstrip, modelled in Dafny

The model covers the configuration engine under `trunk/base/package/config` (dependency
expressions, menu tree, symbol evaluation, configuration files) and the size computation of
`trunk/base/toolchain/sstrip`.

* **Expressions** (`Tristate`, `Expr`, `Equality*`, `OperandLaws`, `ExtractLaws`, `Join*`, `Transform`, `Slots`, `Dups*`,
  `Nesting*`, `Workspace`). A dependency is a tree over n < m < y. `Workspace` holds the
  rewriting functions of `expr.c` in their own form: they overwrite what slots hold and count
  rewrites in a global. A `struct expr **` is a path into a tree, so that the two slots passed
  to `expr_eliminate_dups1` and `expr_eliminate_dups2` may be the same or lie inside one
  another. Each method equals a specification function; the laws are about those functions.
  `DupsWalk` has the one induction over the order in which these two rewrite; termination,
  value and normal form are instances of it.
  A valuation is *typed* if boolean symbols are never m, the string of a boolean or tristate
  symbol spells its value, and constants have their fixed values. `Evaluator.FinalTyped` shows
  that calculated configurations are typed, so the laws hold for every one of them.
* **Menus** (`Menu`, `MenuBuild`, `MenuFinalize`, `MenuNesting`, `MenuStore`, `MenuWalk`, `MenuListing`). Menus are indices
  into a store of next, parent and list pointers; `Seg` says which ordered forest the pointers
  stand for. Whether a following entry passes the dependency tests of `menu_finalize` is an
  arbitrary parameter there; `Nesting.Nests` is the test itself.
* **Symbols** (`Configuration`, `Evaluator`, `ValueLaws`, `CheckDeps`, `DepsLaws`, `ConfParse`,
  `SymbolTable`).
  `Configuration.Setup` defines each symbol's value by recursion on a rank; `Evaluator` is the
  caching evaluator, and `CheckDeps.RankedIffNoCycle` shows that ranks exist exactly when the
  recursion check, which includes choice symbols, reports nothing. `ConfParse` joins the two.
* **Text** (`Printing`, `Reading`, `ConfString`). Printing and reading expressions, and escaping and
  unescaping string values in a `.config` line.
* **sstrip** (`SStrip`).

Where the source and its comments disagree the model follows the code: the comment at
`expr.c:488` says that `(a!='m') && (a!='n')` becomes `(a='m')`, while the code builds `a='y'`;
and `expr.c:571-574` recurses into `e2` without the `return` its counterpart has, which is why
an operand also meets inner nodes of the tree it is part of.

Properties that the code does not have in general are stated with their exact extent:

* Simplification may settle an m: `DupsExample.DupsSettlesMod` has the input, and
  `DupsLaws.DropContradictedRefines` says that dropping an operand keeps the value exactly if it
  was not m.
* `expr_trans_compare` compares what it *reads*, each symbol being y or n by its string, and not
  the value: `Nesting.TransCompareExact` says exactly when that is the same, and
  `NestingExample.ComparedWrongly` has a NOT over an m and an undefined symbol for which it is not.
* So `menu_finalize` may nest an entry below one without which it is visible:
  `Nesting.NestingSound` is what holds of every dependency, `Nesting.NestingExact` the exact
  condition for the values, and `NestingExample.NestedByNot` and `NestingExample.NestedByUndefined`
  are two inputs.
* `expr_eq` is complete up to order and association (`OperandLaws.ExprEqComplete`) and not up to
  distribution (`EqualityLaws.DistributedUnequal`).
* A segment whose end wraps around is lost: `SStrip.WrappedSegmentCut`.
* `Nesting.TransBoolUnderNot`, `Reading.RoundTrip`, `ConfString.LineRoundTrip` and
  `SStrip.TerminatesIff` are exact for `expr_trans_bool` under a NOT, for the shape that is read
  back, for line breaks in a value, and for the end of the loop.

## Model

| member | source | states |
|---|---|---|
| EqualityLaws.EliminateYnValue | trunk/base/package/config/expr.c:235-316 | Removing constant operands keeps the value under every typed valuation. |
| EqualityLaws.EliminateYnShrinks | trunk/base/package/config/expr.c:235-316 | The result has no y or n operand left, is strictly smaller if there was one, and is the argument itself otherwise. |
| EqualityLaws.EliminateYnRules | trunk/base/package/config/expr.c:235-316 | The neutral constant goes, the absorbing one stays alone, two other operands stay in order. |
| EqualityLaws.EliminateYnInside | trunk/base/package/config/expr.c:235-316 | Operands are reduced before the node, and once is enough. |
| EqualityLaws.CancelContext | trunk/base/package/config/expr.c:135-166 | Cancelling takes the same AND (or OR) context out of both expressions. |
| EqualityLaws.EliminateEqContext | trunk/base/package/config/expr.c:168-188 | Under every valuation both old values are one order-preserving function (a clamp) of the new ones. |
| EqualityLaws.StrippedToYes | trunk/base/package/config/menu.c:262-270 | When the second expression is reduced to y, the first one was at most the second everywhere. |
| EqualityLaws.ExprEqSound | trunk/base/package/config/expr.c:193-233 | Expressions found equal have equal values under every typed valuation. |
| EqualityLaws.DistributedUnequal | trunk/base/package/config/expr.c:193-233 | On mixed operators it is not complete: a && (b or c) and its distributed form have equal values and are told apart. |
| OperandLaws.CancelOperands | trunk/base/package/config/expr.c:135-166 | Wherever equality decides whether two operands have the same shape, cancelling is multiset difference of the operands in both directions. |
| OperandLaws.NotCancelled | trunk/base/package/config/expr.c:147-151 | Equal y, n or quoted symbols are not cancelled; every other equal pair of symbols is. |
| OperandLaws.ExprEqComplete | trunk/base/package/config/expr.c:193-233 | On expressions without y, n or quoted symbols as operands, equality is found exactly if they are the same up to order and association, at every level. |
| Join.JoinValue | trunk/base/package/config/expr.c:350-506 | A joined operand pair has exactly the value of the pair, for every rewrite of both functions. |
| Join.JoinShape | trunk/base/package/config/expr.c:350-506 | A join is smaller than its two operands together and no node the operator could split again. |
| JoinLaws.JoinIff | trunk/base/package/config/expr.c:350-506 | Two operands are joined exactly if they are found equal or are one of the listed pairs of literals over one symbol. |
| JoinLaws.OrResult | trunk/base/package/config/expr.c:379-405 | What each pair under OR becomes: s=c or s=d becomes s!= the third value, a boolean or its negation y. |
| JoinLaws.AndResult | trunk/base/package/config/expr.c:443-500 | What each pair under AND becomes. |
| Transform.TransformValue | trunk/base/package/config/expr.c:640-775 | Normalising keeps the value under every typed valuation. |
| Transform.TransformNormal | trunk/base/package/config/expr.c:640-775 | The result is in negation normal form and compares no boolean with y, m or n. |
| Transform.TransformIdempotent | trunk/base/package/config/expr.c:640-775 | Normalising twice is normalising once, and exactly the normal expressions stay as they are. |
| Transform.TransformExpr | trunk/base/package/config/expr.c:640-775 | It terminates: De Morgan steps and resolved comparisons never add weight. |
| Transform.TransformIs | trunk/base/package/config/expr.c:640-775 | It computes the normal form given by a single descent that carries the sign. |
| Dups.Dups1 | trunk/base/package/config/expr.c:508-558 | A pass keeps the spine of the tree, so no slot in use dangles, never grows it, and changes it only if it counts. |
| Dups.Dups2 | trunk/base/package/config/expr.c:560-614 | The same for the second pass, whose second slot may enclose the first. |
| DupsWalk.Dups1Follows | trunk/base/package/config/expr.c:508-558 | What holds of each join, and carries over to sequences and to operands, holds of the whole first pass on any two spine slots. |
| DupsWalk.Dups2Follows | trunk/base/package/config/expr.c:560-614 | The same for dropped operands and the second pass. |
| DupsLaws.RoundProgress | trunk/base/package/config/expr.c:623-635 | A round that counts something leaves strictly fewer nodes after constants are removed, so the loop ends. |
| DupsLaws.Dups1Value | trunk/base/package/config/expr.c:508-558 | The first pass, called with any two spine slots, keeps the value exactly. |
| DupsLaws.ExtractEqOpValue | trunk/base/package/config/expr.c:830-879 | Extraction is conservative: the common part put back gives both old values. |
| ExtractLaws.ExtractParts | trunk/base/package/config/expr.c:852-879 | Under the same condition extraction collects the multiset intersection of the operands and leaves both differences. |
| ExtractLaws.ExtractNothing | trunk/base/package/config/expr.c:830-850 | Nothing is collected exactly if no operand is found equal to one of the other side; then both stay as they are. |
| ExtractLaws.ContradictedIff | trunk/base/package/config/expr.c:582-600 | A normal operand is dropped exactly if the operands of its negation occur among those of what it meets; with none but neutral constants, exactly if such a constant occurs there. Both are free of constant operands, or the first is a tree over literals. |
| DupsLaws.DropContradictedRefines | trunk/base/package/config/expr.c:581-609 | Dropping a contradicted operand makes the tree the constant n (or y), which before it was or was m; the value is kept exactly if it was not m. |
| DupsLaws.Dups2Refines | trunk/base/package/config/expr.c:560-614 | The second pass may settle an m, and nothing else. |
| DupsLaws.EliminateDupsRefines | trunk/base/package/config/expr.c:616-638 | Simplification only refines: y stays y, n stays n, only an m may become n or y. |
| DupsResult.EliminateDupsExact | trunk/base/package/config/expr.c:616-638 | Wherever no symbol used as an expression is m the value is exactly preserved. |
| DupsResult.ExactWithoutDrops | trunk/base/package/config/expr.c:616-638 | If no round drops an operand the value is preserved under every typed valuation, m included. |
| DupsResult.FlatWithoutDrops | trunk/base/package/config/expr.c:560-614 | From a tree of one operator nothing is ever dropped. |
| DupsResult.Dups1CleanIff | trunk/base/package/config/expr.c:508-558 | The first pass leaves a tree alone exactly if at no level two operands of one operator tree are found equal or are a pair that joins. |
| DupsResult.Dups2CleanIff | trunk/base/package/config/expr.c:560-614 | The second pass leaves a tree alone exactly if at no level an operand meets its negation in another part of its operator tree. |
| DupsResult.CleanIff | trunk/base/package/config/expr.c:508-614 | A round changes nothing exactly if both hold. |
| DupsResult.EliminateDupsClean | trunk/base/package/config/expr.c:616-638 | At no level of the result are two operands of one tree equal or a pair that joins, nor does one meet its negation; a second call returns it unchanged. |
| DupsResult.TwiceIsOnce | trunk/base/package/config/expr.c:616-638 | A literal beside itself is simplified to the literal. |
| DupsExample.DupsSettlesMod | trunk/base/package/config/expr.c:594-603 | (s && y) or !s is simplified to y for every tristate s: the value changes exactly where s is m. |
| DupsNormal.EliminateDupsNormal | trunk/base/package/config/expr.c:616-638 | Simplification keeps negation normal form. |
| DupsNormal.PropertyVisibility | trunk/base/package/config/menu.c:219-239 | Derived visibilities stay normal and free of redundancy and of comparisons to relax, and the boolean rewriting never changes whether a property is visible. |
| Nesting.TransCompareValue | trunk/base/package/config/expr.c:881-940 | A spelled-out comparison with y or n is the comparison of the expression as read, for every expression. |
| Nesting.TransCompareExact | trunk/base/package/config/expr.c:881-940 | It is the comparison of the value exactly if reading does not change whether that is the constant; with boolean and tristate symbols only, exactly unless an m is read as the constant. |
| NestingExample.ComparedWrongly | trunk/base/package/config/expr.c:912-933 | Two inputs where it is not: a NOT over m, and an undefined symbol. |
| Nesting.NotCompareExact | trunk/base/package/config/expr.c:912-913 | The exact condition for a NOT, and for one over an operand that is settled below: the operand is not m. |
| Nesting.VisibleValue | trunk/base/package/config/menu.c:252-263 | The normalised comparison with n is y or n just as the dependency is read, whatever simplification did. |
| Nesting.VisibleExact | trunk/base/package/config/menu.c:252-263 | It says whether the dependency is visible exactly if reading does not change that. |
| DupsNormal.VisibleNormal | trunk/base/package/config/menu.c:252-263 | What the test compares is normal, free of redundancy and never m. |
| Nesting.DependsSymbolSound | trunk/base/package/config/expr.c:801-828 | A dependency found to depend on a symbol of any type is n, and read as n, unless the symbol is set. |
| NestingLaws.DependsIff | trunk/base/package/config/expr.c:801-828 | An expression is found to depend on a symbol exactly if one of its conjuncts is s, s=y, s=m or s!=n. |
| NestingLaws.ContainsIff | trunk/base/package/config/expr.c:777-799 | And to contain it exactly if the symbol occurs in it. |
| NestingLaws.NestsByDemand | trunk/base/package/config/menu.c:258-261 | An entry with such a conjunct is nested whatever the prompt; one that does not mention the symbol never is. |
| NestingLaws.NestsIff | trunk/base/package/config/menu.c:258-271 | Otherwise, for conjunctions, it is nested exactly if it mentions the symbol and has all operands of the prompt's visibility among its own; two single literals are not compared. |
| Nesting.NestingSound | trunk/base/package/config/menu.c:251-276 | An entry is nested only below one that is set or whose prompt is read as visible whenever the entry's dependency is; for all dependencies, prompts and symbols. |
| Nesting.NestingExact | trunk/base/package/config/menu.c:251-276 | For the values this fails only if one of the two is misread; with boolean and tristate symbols, exactly if the dependency is an m read as n and nothing above is visible. |
| NestingExample.NestedByNot | trunk/base/package/config/menu.c:262-270 | An input where an entry with dependency m is nested below a hidden one: a NOT over an m. |
| NestingExample.NestedByUndefined | trunk/base/package/config/menu.c:262-270 | An input where an entry with dependency y is nested below a hidden one: an undefined symbol. |
| NestingExample.StoredForm | trunk/base/package/config/menu.c:225-228 | These dependencies are stored in this very form. |
| Nesting.InheritRefines | trunk/base/package/config/menu.c:219-223 | The stored dependency is the conjunction of own and inherited one, up to settling an m. |
| Nesting.TransBoolKeepsNo | trunk/base/package/config/expr.c:321-345 | On normal form the boolean rewriting keeps which values are n and never raises one. |
| Nesting.TransBoolRelaxes | trunk/base/package/config/expr.c:321-345 | It rewrites every comparison of a tristate symbol with n by != to the symbol, and changes exactly the expressions with one. |
| Nesting.TransBoolUnderNot | trunk/base/package/config/expr.c:321-345 | Under a NOT it breaks exactly on m. |
| Workspace.Workspace.EliminateYn | trunk/base/package/config/expr.c:235-316 | In place: the slot holds the specified result and nothing else changes. |
| Workspace.Workspace.TransformExpr | trunk/base/package/config/expr.c:640-775 | In place, re-entering itself after double negation and De Morgan. |
| Workspace.Workspace.TransBool | trunk/base/package/config/expr.c:321-345 | In place on every node of the tree. |
| Workspace.Workspace.ExprEq | trunk/base/package/config/expr.c:193-233 | Decides the specified equality on copies; expressions and trans_count are left as they were. |
| Workspace.Workspace.EliminateEq | trunk/base/package/config/expr.c:168-188 | In place on two slots, with the number of cancelled pairs added to trans_count. |
| Workspace.Workspace.CancelEq | trunk/base/package/config/expr.c:135-166 | The mutually recursive worker, in place. |
| Workspace.Workspace.ExtractEq | trunk/base/package/config/expr.c:852-879 | In place on two slots, with the collected operands. |
| Workspace.Workspace.Dups1 | trunk/base/package/config/expr.c:508-558 | In place on two slots of one tree that may coincide or be nested. |
| Workspace.Workspace.Dups2 | trunk/base/package/config/expr.c:560-614 | In place on such slots, without the missing return. |
| Workspace.Workspace.EliminateDups | trunk/base/package/config/expr.c:616-638 | The while loop computes the specified result and restores trans_count. |
| Printing.EnclosedIff | trunk/base/package/config/expr.c:1022-1023 | Parentheses are printed exactly around an OR under AND, and around both under NOT. |
| Reading.ParseIff | trunk/base/package/config/zconf.tab.c:1672-1705 | Tokens are read as an expression exactly if they spell it in the grammar with its precedences. |
| Reading.ReadUnit | trunk/base/package/config/zconf.tab.c:1672-1695 | A name, comparison, negation or parenthesis is read as a unit. |
| Reading.ReadTree | trunk/base/package/config/zconf.tab.c:1697-1705 | Operands of one operator are read left-associatively, up to where more may follow. |
| Reading.TreeOfLaws | trunk/base/package/config/expr.c:1015-1079 | What is printed spells the expression associated to the left. |
| Printing.LeftwardLaws | trunk/base/package/config/expr.c:1044-1053 | Associating to the left keeps the value and changes exactly the expressions that are not left-leaning. |
| Reading.RoundTrip | trunk/base/package/config/expr.c:1015-1079 | Printing and reading back gives the left-associated expression, with the same value; the same expression exactly if it is left-leaning. |
| Evaluator.FinalTyped | trunk/base/package/config/symbol.c:206-312 | The values the evaluator defines form a typed valuation. |
| ValueLaws.ValueByProperties | trunk/base/package/config/symbol.c:206-268 | With prompt visibility p, value d of the first visible default and reverse dependency r, a symbol gets its setting or else d, bounded by p and raised to r; d where p and r are n; y for m in a boolean. |
| ValueLaws.VisibilityIs | trunk/base/package/config/symbol.c:137-152 | The visibility is that of the most visible prompt. |
| ValueLaws.DefaultIs | trunk/base/package/config/symbol.c:113-123 | The default is the first one that is visible, none if none is. |
| ValueLaws.SelectRaises | trunk/base/package/config/symbol.c:153-164 | No symbol is below its reverse dependency. |
| ValueLaws.SelectedBy | trunk/base/package/config/menu.c:242-246 | A select raises the symbol to the selecting symbol's value, as far as its dependency goes. |
| ValueLaws.TextByProperties | trunk/base/package/config/symbol.c:270-289 | A string, int or hex symbol has its setting exactly if visible and set, else the string its first visible default names. |
| ValueLaws.UndefinedValue | trunk/base/package/config/symbol.c:206-235 | A symbol of no such type has its name as string. |
| Evaluator.Evaluator.SymCalcValue | trunk/base/package/config/symbol.c:206-312 | Afterwards the symbol is valid and every valid symbol holds value, visibility and reverse dependency of the recursive definition; no symbol being calculated is asked for again. |
| Evaluator.Evaluator.ExprCalcValue | trunk/base/package/config/expr.c:942-981 | Evaluating an expression through the cache gives its value under the defined valuation and keeps the cache right. |
| Evaluator.Evaluator.SymCalcVisibility | trunk/base/package/config/symbol.c:137-165 | Visibility and reverse dependency of the symbol become the defined ones. |
| Evaluator.Evaluator.GetDefault | trunk/base/package/config/symbol.c:113-123 | The first default whose visibility is not n. |
| Evaluator.Evaluator.SymClearAllValid | trunk/base/package/config/symbol.c:314-324 | The cache is coherent with the current settings whatever it held. |
| Evaluator.Evaluator.SymSetTristateValue | trunk/base/package/config/symbol.c:365-391 | For a calculated symbol other than MODULES: accepted exactly if allowed or already there; then the cache is coherent and the symbol's value is the one asked for, also on the path that invalidates nothing. |
| Evaluator.RangeExact | trunk/base/package/config/symbol.c:346-363 | A value is admitted exactly if the prompt can raise the symbol above its reverse dependency and some setting brings the value about. |
| Evaluator.SettingTakesEffect | trunk/base/package/config/symbol.c:272-290 | An admitted setting is the symbol's next value. |
| Evaluator.SettingReachesUp | trunk/base/package/config/symbol.c:382-388 | A setting changes no value of lower rank. |
| Evaluator.SettingWithoutEffect | trunk/base/package/config/symbol.c:382-388 | A setting that leaves the symbol's own value alone changes nothing anywhere. |
| DepsLaws.EdgeIff | trunk/base/package/config/symbol.c:736-749 | A symbol depends on those in its reverse dependency, in the visibility of prompts, defaults and ranges, and in the values of defaults unless it is a choice. |
| DepsLaws.SelectsIgnored | trunk/base/package/config/symbol.c:740-741 | Without all selects and choice lists the same recursions are reported. |
| DepsLaws.ChoiceDefaultsIgnored | trunk/base/package/config/symbol.c:745-746 | Nor do the default values of choices matter. |
| CheckDeps.Checker.SymCheckDeps | trunk/base/package/config/symbol.c:722-756 | The search terminates, restores every CHECK bit, and finds a symbol only if that symbol closes a cycle; default values of choice symbols are not followed. |
| CheckDeps.Checker.SymCheckExprDeps | trunk/base/package/config/symbol.c:692-720 | The same for the symbols of an expression. |
| CheckDeps.Checker.ReportRecursion | trunk/base/package/config/zconf.tab.c:1935-1940 | A recursive dependency is reported if and only if there is one, in whatever order symbols come, with choices or without. |
| CheckDeps.OkClean | trunk/base/package/config/symbol.c:722-756 | A search that finds nothing means no cycle can be reached, given that symbols already done are clean. |
| CheckDeps.RankedIffNoCycle | trunk/base/package/config/zconf.tab.c:1935-1940 | The symbols can be ranked exactly if there is no cycle. |
| CheckDeps.ValidIffNoCycle | trunk/base/package/config/zconf.tab.c:1935-1940 | Without choices, the evaluator can be set up exactly if there is no cycle. |
| ConfParse.CheckAndCalculate | trunk/base/package/config/zconf.tab.c:1918-1943 | If the check reports nothing, every symbol asked for is calculated and holds its value. |
| SymbolTable.RunIdentifies | trunk/base/package/config/symbol.c:578-622 | Over every run two lookups give the same symbol exactly if they name the same key; y, m, n are fixed and no name is always new. |
| SymbolTable.ConstantsFixed | trunk/base/package/config/symbol.c:585-592 | y, m and n give the fixed constants, and no other name does. |
| SymbolTable.SymbolHash.SymLookup | trunk/base/package/config/symbol.c:578-622 | The chained hash table implements the map of names and constness. |
| SymbolTable.SymbolHash.SymFind | trunk/base/package/config/symbol.c:624-651 | Finds the symbol that is not constant, without adding one. |
| SymbolTable.SymbolHash.Search | trunk/base/package/config/symbol.c:597-607 | The chain of one bucket yields the symbol listed for a key, or nothing. |
| MenuBuild.MenuBuilder.MenuAddEntry | trunk/base/package/config/menu.c:44-58 | Writing through the tail pointer adds the entry last in the innermost open menu. |
| MenuBuild.MenuBuilder.MenuAddMenu | trunk/base/package/config/menu.c:64-68 | Opening the last entry changes no pointer of the tree. |
| MenuBuild.MenuBuilder.MenuEndMenu | trunk/base/package/config/menu.c:70-74 | Closing returns to the parent menu, with the tail behind the closed one. |
| MenuBuild.InsertSeg | trunk/base/package/config/menu.c:55-57 | The write inserts at that place and moves nothing else. |
| MenuBuild.MenuBuilder.Built | trunk/base/package/config/zconf.tab.c:1934 | Whatever was built can be finalised, and its entries stay in source order. |
| MenuFinalize.FinalizeOrder | trunk/base/package/config/menu.c:198-337 | The pre-order of entries is unchanged, whatever the dependency tests say. |
| MenuNesting.FinalizeIs | trunk/base/package/config/menu.c:198-337 | Below an entry ends up what the tests nest there, handed on past menus without a prompt text, and exactly the siblings it spans are gone from behind it; all told by the tests and the given tree. |
| MenuNesting.FollowerNested | trunk/base/package/config/menu.c:251-281 | An entry with a symbol and no children takes over the next sibling exactly if it passes, holds just the siblings it spans, and stops at one that does not pass. |
| MenuNesting.NothingTaken | trunk/base/package/config/menu.c:206-251 | An entry with children or without a symbol leaves its siblings where they are. |
| MenuNesting.TakenPass | trunk/base/package/config/menu.c:256-276 | Every entry taken over directly passes the tests. |
| MenuNesting.LiftParents | trunk/base/package/config/menu.c:307-316 | By flattening, each entry comes to be directly below the nearest menu around it with a prompt text. |
| MenuNesting.FinalizedParent | trunk/base/package/config/menu.c:198-337 | That menu is what its parent pointer leads to. |
| MenuFinalize.FinalizeSettles | trunk/base/package/config/menu.c:312-321 | Below the finalised entry only menus with a prompt text have children. |
| MenuFinalize.AdoptMaximal | trunk/base/package/config/menu.c:255-276 | Exactly a maximal run of passing entries is taken over. |
| MenuStore.MenuStore.MenuFinalize | trunk/base/package/config/menu.c:198-337 | The pointers become those of the finalised tree with correct parents, no other menu is touched, and every entry is finalised once, in order. |
| MenuStore.MenuStore.FinalizeChildren | trunk/base/package/config/menu.c:249-250 | The loop over the children follows what each one leaves as its next sibling. |
| MenuStore.MenuStore.AdoptFollowers | trunk/base/package/config/menu.c:251-283 | Passing followers become children and the chain is relinked behind them. |
| MenuStore.MenuStore.FlattenChildren | trunk/base/package/config/menu.c:284-322 | Children of entries without a prompt move up behind them, and are looked at in turn. |
| MenuStore.MenuStore.LiftChildren | trunk/base/package/config/menu.c:313-320 | One such move, pointer by pointer. |
| MenuListing.FinalizeAndList | trunk/base/package/config/confdata.c:301-381 | Whatever menu was built and whatever menu_finalize found to nest or flatten, the walk of conf_write lists every entry once, in source order. |
| MenuWalk.Walk | trunk/base/package/config/confdata.c:301-381 | The walk without recursion visits the entries below the root in pre-order and ends. |
| MenuWalk.Climb | trunk/base/package/config/confdata.c:373-380 | Going up stops at the first menu with a later sibling, or at the end. |
| ConfString.UnescapeEscape | trunk/base/package/config/confdata.c:338-354 | Reading back an escaped string stops at the closing quote with the original string. |
| ConfString.LineRoundTrip | trunk/base/package/config/confdata.c:154-191 | A value written as a line is read back unchanged exactly if it has no line break; otherwise conf_read gives up. |
| ConfString.EscapeCharacter | trunk/base/package/config/confdata.c:348-351 | A backslash goes before quotes and backslashes and nothing else. |
| ConfString.SkippedIff | trunk/base/package/config/confdata.c:143-176 | A line is skipped exactly unless a quote follows its first =. |
| ConfString.WriteEscaped | trunk/base/package/config/confdata.c:342-353 | The nested loops produce the escaped string. |
| ConfString.UnescapeInPlace | trunk/base/package/config/confdata.c:177-187 | The memmove loop leaves the unescaped string in the buffer, or finds no closing quote. |
| ConfString.ReadStringLine | trunk/base/package/config/confdata.c:131-191 | Splitting and unescaping one line in the buffer skips it, gives up or stores a value as specified. |
| SStrip.GetMemorySize | trunk/base/toolchain/sstrip/sstrip.c:196-224 | The least size that covers header, program header table and every segment. |
| SStrip.HeadersCovered | trunk/base/toolchain/sstrip/sstrip.c:207-209 | The size starts at the end of the header table, or of the ELF header if that is further. |
| SStrip.TruncateZeros | trunk/base/toolchain/sstrip/sstrip.c:374-399 | The new size is just behind the last byte that is not zero; blank and short files fail. |
| SStrip.StepLaws | trunk/base/toolchain/sstrip/sstrip.c:380-390 | A round over one buffer never cuts off a byte that is not zero, and ends only at the answer. |
| SStrip.TerminatesIff | trunk/base/toolchain/sstrip/sstrip.c:380-390 | The loop ends exactly if the first byte is not the only one that is not zero. |
| SStrip.SegmentBytesKept | trunk/base/toolchain/sstrip/sstrip.c:191-195 | Every byte of a segment that does not wrap around is kept or zero. |
| SStrip.CoveredIff | trunk/base/toolchain/sstrip/sstrip.c:214-220 | An offset is below the size exactly if it is before the end of the headers or of a segment, as computed. |
| SStrip.WrappedCoversNothing | trunk/base/toolchain/sstrip/sstrip.c:216 | A segment that wraps around covers none of its bytes. |
| SStrip.WrappedSegmentCut | trunk/base/toolchain/sstrip/sstrip.c:216 | A file whose segment wraps around, of which a byte that is not zero is cut off. |

## Left out

- Memory management: nodes are values or indices, so freeing and the nodes it leaks do not appear.
- E_RANGE and E_CHOICE inside expressions; expr_eq and expr_transform are not meant for them.
- Evaluator.Evaluator.SymCalcValue: no choice symbols and choice values, and modules_val is fixed, since both re-enter symbols in progress or read modules_val while it changes. The recursion check does include choice symbols.
- CheckDeps.ValidIffNoCycle: for the evaluator, so without choices; RankedIffNoCycle has them.
- ConfParse.CheckAndCalculate: without choices, as the evaluator.
- SStrip.SegmentBytesKept: not for a segment that wraps around, which loses its bytes.
- The flags SYMBOL_WRITE and SYMBOL_CHANGED, menu change flags, warnings and help texts.
- Evaluator.Evaluator.SymSetTristateValue: not for MODULES or choice values; speaks about calculated boolean and tristate symbols; the callers in symbol.c never pass others.
- EqualityLaws.ExprEqSound: no converse, since equality does not distribute; ExprEqComplete says what it decides.
- DupsResult.EliminateDupsExact: one direction only, as an m that is settled inside one operand may be masked by another; DropContradictedRefines is exact for each drop.
- expr_trans_compare against m, which no caller asks for.
- The generated parser and lexer tables: the expression grammar is a precedence parser over tokens, and a printed name stands for its symbol.
- Reading.RoundTrip: names that need quotes are not distinguished from those that do not, because expr_print writes both bare.
- MenuFinalize.FinalizeOrder: dependency tests, symbol types and choice properties are parameters of the relinking; Nesting models the tests on their own.
- MenuBuild.MenuBuilder.MenuAddMenu: only right after adding an entry, as all grammar rules call it.
- SymbolTable.SymbolHash.SymLookup: the sum of characters does not overflow an int, which makes no difference under the mask 0xff.
- conf_read and conf_write beyond string values and the menu walk: file names, number ranges and hexadecimal prefixes.
- String and number settings (sym_set_string_value, ranges) and the terminal interfaces.
- sstrip's modifyheaders and commitchanges, byte order, and reading the headers.
- elf2flt, mklibs and the board examples.
