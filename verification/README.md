# Kconfig, Kbuild and two small tools, proved

This project models the algorithmic core of the repository's Kconfig and Kbuild
evaluator and of two small tools, and proves what each is for: a compiled, compressed
or symbolic form always agrees with the simple meaning it stands for.

| files | what they model |
|---|---|
| `collections.dfy` | what several modules say of sequences, sets and chains of edges |
| `tristate.dfy`, `kconfig_expr.dfy`, `kconfig_eval.dfy` | Kconfig expressions, their construction, rewriting of m, evaluation in a configuration, and the laws of comparisons |
| `dnf.dfy`, `dnf_compiler.dfy`, `dnf_success.dfy`, `resolved_encoding.dfy` | conditions in disjunctive normal form, the slice that absorbs clauses in place, the compiler from expressions, when it succeeds, and what its conditions say of a resolved configuration |
| `resolver.dfy`, `resolver_meaning.dfy`, `resolver_convergence.dfy` | the resolver's passes over scalars, tristates and choices, the equations they solve, what a solved configuration says in terms of the tree and the file, and convergence |
| `menu_finalize.dfy`, `menu_problem.dfy`, `expr_parser.dfy`, `expr_precedence.dfy` | what entries of the menu tree inherit, the accumulation of dependencies, selects and implies, the resolver's problem built from a tree, the expression parser and printer, and the grammar it accepts |
| `kbuild_conditions.dfy`, `kbuild_modes.dfy` | Make conditionals with known tests, conditions and blind tests, beside the concrete execution; and what is built in or a module |
| `preprocessor_boolean.dfy`, `preprocessor_scan.dfy`, `include_closure.dfy`, `include_soundness.dfy` | three-valued preprocessor conditions, the conditional stack, the worklist over includes, and all of them against what compilations open |
| `ordering.dfy`, `group_encoding.dfy`, `source_inputs.dfy`, `source_index.dfy`, `source_canonical.dfy`, `source_metadata.dfy` | the shared index of source files: interning, encoding, canonical order, validation |
| `content_ids.dfy`, `object_variants.dfy`, `object_identity.dfy`, `source_content_ids.dfy`, `action_groups.dfy` | content identifiers, their survival in the index, and objects grouped by recipe and by the configurations that reach them |
| `crc_tables.dfy` | CRC-32 and CRC-64 tables against one-bit-at-a-time division |
| `serial_console.dfy` | the marker search over chunks and the ring that keeps the last bytes of the serial output |

Objects that the source updates in place are classes whose methods are proved against
functions of their old state; the properties are proved about those functions. Loops that
only compute a value are methods that compute a function of their inputs. Errors carry no
text here: a result is `None` or `false` where the source returns an error.

`dafny verify dfyconfig.toml` takes all files together.

Places where the code does not do what one might expect of it, each with an input and its limit:

- A definition without a dependency contributes nothing to the accumulated dependency of a symbol
  defined more than once, where a missing dependency alone counts as y. The accumulated dependency is the
  greatest of the definitions' if and only if none lacks a dependency, or all do, or a written one is y
  (`MenuFinalize.DependencyLimit`, `MenuFinalize.DefinedTwiceIsLost`).
- A bare int, hex or string symbol used as a condition is compiled as n: all expressions are compiled
  right if and only if every such symbol is false (`DnfCompiler.EncodedRightExactly`,
  `DnfCompiler.BareScalarEncoding`).
- A symbol configured inside two choices belongs to both, and the two can want it differently: with acyclic
  dependencies the passes converge if and only if visiting the symbols and choices once, in the order of
  their dependencies, leaves no two choices that want a shared member differently
  (`ResolverConvergence.ConvergesWhenChoicesAgree`, `ResolverConvergence.SharedMemberDiverges`).
- A definition in a file does not change what the scan takes a test to come out as, so a line that is compiled
  can be dropped: a compiled line is flagged if and only if no conditional around it had, up to its current
  branch, a test that came out otherwise than known (`PreprocessorScan.FlagMissedExactly`,
  `PreprocessorScan.UndefinedIsMissed`).
- After an else-if whose test has neither a known outcome nor a condition, behind an undecided test,
  the branches that follow are lost; so a reached line is recorded if and only if no enclosing chain
  had such an else-if before its current branch (`KbuildConditions.ReachedLineRecorded`,
  `KbuildConditions.LostElse`).
- A constant y at the end of a conjunction leaves the mode of what stands before it, so an object that is y in
  a directory that is m is a module: the mode is that of the last part if and only if that part is more than
  a constant y, or what stands before it is y as well (`KbuildModes.CombineAllLast`, `KbuildModes.ModuleStaysModule`).
- A NUL inside a flag makes two different recipes one (`ContentIds.NulInFlag`).
- A content identifier recomputed from the index is the one computed before if and only if the inputs
  were in path order (`SourceContentIds.ContentIdSurvives`).

Outside values appear as parameters: what the host says of numbers and texts (`KconfigEval.Text`), the
truth of preprocessor atoms (an oracle), the files of the source tree and the classification of names
(`IncludeClosure.Sources`), the digest (a function, assumed injective where a result says so), and how many bytes
the output accepted of a write.

## Model

| member | source | states |
|---|---|---|
| `Dnf.AppendClauseMeaning` | internal/kconfig/expr_dnf.go:978-1015 | Appending a clause to any list of clauses means OR-ing it in, whatever is absorbed on the way. |
| `Dnf.AppendClauseAntichain` | internal/kconfig/expr_dnf.go:978-1015 | From an antichain of clauses without repeated labels, appending leads to an antichain of such clauses. |
| `Dnf.AppendAllFromEmpty` | internal/kconfig/expr_dnf.go:939-992 | Any run of appends to an antichain keeps an antichain that means the OR of everything appended. |
| `Dnf.SubsumesIsInclusion` | internal/kconfig/expr_dnf.go:1001-1015 | The absorption test, with its shortcut on lengths, is exactly inclusion of label sets. |
| `Dnf.ClauseSlice.Append` | internal/kconfig/expr_dnf.go:978-992 | Overwriting the slice from the front while reading it, with the early return, leaves exactly the appended DNF. |
| `Dnf.ClauseSlice.Filter` | internal/kconfig/expr_dnf.go:978-992 | The filter loop either finds every cell as it was and the clause absorbed, or leaves the survivors in front. |
| `Dnf.EarlyReturn` | internal/kconfig/expr_dnf.go:978-992 | In an antichain a clause that absorbs the new one rules out that anything before it was overwritten: the early return is harmless. |
| `Dnf.MergeClausesMeaning` | internal/kconfig/expr_dnf.go:1143-1229 | A merged clause is the conjunction of the two and has no repeated label; a refused merge is a contradiction under every valuation. |
| `Dnf.BuildMerge` | internal/kconfig/expr_dnf.go:1143-1229 | The merging loops over the five state maps compute that merge. |
| `Dnf.AndDNFMeaning` | internal/kconfig/expr_dnf.go:939-960 | A successful conjunction means the conjunction under every valuation, is an antichain, and stays within 16384 clauses. |
| `Dnf.BuildAnd` | internal/kconfig/expr_dnf.go:939-960 | The double loop with its size limit computes that conjunction, refusals included. |
| `Dnf.OrDNFMeaning` | internal/kconfig/expr_dnf.go:961-977 | A successful disjunction means the disjunction and stays within the limit when its first operand does. |
| `Dnf.BuildOr` | internal/kconfig/expr_dnf.go:961-977 | The loop with its size limit computes that disjunction, refusals included. |
| `Dnf.NotTermMeaning` | internal/kconfig/expr_dnf.go:1057-1142 | The negation of a term is true exactly when the term is false, under every valid valuation. |
| `Dnf.NotDNFMeaning` | internal/kconfig/expr_dnf.go:1017-1142 | A successful negation is the exact complement under every valid valuation. |
| `Dnf.DoubleNegation` | internal/kconfig/expr_dnf.go:1017-1142 | Negating twice, when both negations succeed, gives an equivalent DNF. |
| `DnfCompiler.EncodeStateMeaning` | internal/kconfig/expr_dnf.go:296-353 | A successful encoding of a state is true exactly when the expression evaluates to it, in every configuration in which its condition terms claim what is the case and no bare scalar in it is true. |
| `DnfCompiler.EncodeStateBodyMeaning` | internal/kconfig/expr_dnf.go:303-466 | The same for the body behind a condition term, through all operators, whatever the condition terms for the expression itself claim. |
| `DnfCompiler.DefinitionsDetermine` | internal/kconfig/expr_dnf.go:303-466 | The bodies settle the condition terms: by induction over the expression, they are as their bodies define them if and only if each claims the state its expression has. |
| `DnfCompiler.DefinedStateMeaning` | internal/kconfig/expr_dnf.go:296-353 | So with condition terms as their bodies define them, an encoding holds exactly when the expression has the state. |
| `DnfCompiler.ComparePairsMeaning` | internal/kconfig/expr_dnf.go:581-607 | The nine-way comparison of two tristate operands adds, from any pair on, exactly the pair of states the operands have. |
| `DnfCompiler.InvariantEnabledMeaning` | internal/kconfig/expr_dnf.go:133-176 | The one-symbol shortcut answers only when the answer is the same in every state of the symbol, and then answers right. |
| `DnfCompiler.EvalTriMeaning` | internal/kconfig/expr_dnf.go:206-295 | Evaluating with the only symbol set to its state agrees with evaluating in the world. |
| `DnfCompiler.EncodeEnabledMeaning` | internal/kconfig/expr_dnf.go:86-132 | A successful encoding of enabled is true exactly when the expression is not n. |
| `DnfCompiler.BareScalarEncoding` | internal/kconfig/expr_dnf.go:467-508 | A bare int, hex or string symbol is encoded right for all states if and only if its value is false. |
| `DnfCompiler.EncodedRightExactly` | internal/kconfig/expr_dnf.go:296-508 | All expressions are encoded right in a configuration if and only if no declared scalar symbol is true in it. |
| `DnfSuccess.BodySucceeds` | internal/kconfig/expr_dnf.go:303-466 | The body of an expression within the clause limit is encoded if and only if its constants are states and its comparisons are of states or of scalars; the bound is on nested comparisons, because condition terms keep everything else small. |
| `DnfSuccess.UnreadableFails` | internal/kconfig/expr_dnf.go:303-508 | What cannot be read so has no encoding, however small. |
| `DnfSuccess.ShortcutExactly` | internal/kconfig/expr_dnf.go:133-176 | The one-symbol shortcut answers if and only if all configurations give the same answer. |
| `DnfSuccess.EnabledSucceeds` | internal/kconfig/expr_dnf.go:86-132 | Within the limit enabled is encoded if and only if the expression is missing, or the shortcut answers, or it is readable and not just a scalar symbol. |
| `ResolvedEncoding.EvalAgrees` | internal/kconfig/config.go:681-800 | What the compiler takes an expression for in the configuration of a resolver state is what the resolver evaluates there. |
| `ResolvedEncoding.ResolvedIsValid` | internal/kconfig/config.go:808-816 | A resolved configuration is a valid one: no bool symbol is ever left at m. |
| `ResolvedEncoding.EncodedAsResolved` | internal/kconfig/expr_dnf.go:296-353 | In a resolved configuration an encoded state holds exactly when the resolver evaluates the expression to it. |
| `ResolvedEncoding.EnabledAsResolved` | internal/kconfig/expr_dnf.go:86-132 | A dependency, m rewritten and encoded as enabled, holds in a resolved configuration exactly when the dependency as written is not n there. |
| `KconfigEval.AndExprMeaning` | internal/kconfig/expr.go:76-97 | The simplified conjunction evaluates to the minimum of its operands, missing ones included. |
| `KconfigEval.OrExprMeaning` | internal/kconfig/expr.go:98-120 | The simplified disjunction of two present operands evaluates to the maximum. |
| `KconfigEval.OrExprMissing` | internal/kconfig/expr.go:98-120 | The disjunction is the maximum if and only if both operands are present, or both missing, or the one that is present is y. |
| `KconfigEval.RewriteMMeaning` | internal/kconfig/expr.go:131-152 | Rewriting m and evaluating without the gate is evaluating the original with it, for every expression. |
| `KconfigEval.RewriteMExactly` | internal/kconfig/expr.go:131-152 | Rewriting is right for all expressions if and only if the modules symbol and the gate agree. |
| `KconfigEval.RewriteMUngated` | internal/kconfig/expr.go:131-152 | On a rewritten expression the gate makes no difference any more. |
| `KconfigEval.EvalFrame` | internal/kconfig/config.go:681-800 | Evaluation depends on nothing but the symbols the expression reads. |
| `KconfigEval.ScalarAsCondition` | internal/kconfig/config.go:724-755 | A declared string used as a condition is n exactly when it is empty or two quotes, and a number exactly when it is zero. |
| `KconfigEval.SymbolAsOperand` | internal/kconfig/config.go:776-794 | In a comparison of texts a symbol is its value without the quotes at its ends, and zero where a number has none. |
| `KconfigEval.ComparisonMeaning` | internal/kconfig/config.go:757-770 | A comparison is y or n: of states when both operands are tristate expressions, else of numbers when both are numbers, else of texts. |
| `KconfigEval.ComparisonSwaps` | internal/kconfig/config.go:757-770 | A comparison read from the other side is the same. |
| `KconfigEval.ComparisonOpposes` | internal/kconfig/config.go:757-770 | Of two opposite operators exactly one holds, for a total order of texts; so all six follow from = and <. |
| `Resolver.ConfigResolver.constructor` | internal/kconfig/config.go:118-152 | The starting state is the imported assignments. |
| `Resolver.ConfigResolver.StepScalar` | internal/kconfig/config.go:153-203 | A scalar step reports a change exactly when the symbol's equation does not hold, and then makes it the new value. |
| `Resolver.ConfigResolver.StepTri` | internal/kconfig/config.go:153-203 | The same for a bool or tristate symbol; the `ResolverMeaning` rows say what its equation comes to. |
| `Resolver.ConfigResolver.StepChoice` | internal/kconfig/config.go:359-382 | The choice step writes every member and reports a change exactly when some member was not as selected. |
| `Resolver.ConfigResolver.Pass` | internal/kconfig/config.go:153-203 | A pass runs the steps in the source's order and reports whether any of them changed something. |
| `Resolver.ConfigResolver.Resolve` | internal/kconfig/config.go:153-203 | The pass loop with its bound of 8n + 8 computes the outcome of repeated passes. |
| `Resolver.QuietPass` | internal/kconfig/config.go:153-203 | A pass reports no change if and only if all equations hold at once, and then it changes nothing. |
| `Resolver.ResolveSolves` | internal/kconfig/config.go:153-203 | On success every symbol's value and written bit equals its defining equation in the final state. |
| `Resolver.SelectionIsVisible` | internal/kconfig/config.go:383-456 | A choice selects one of its visible members, and selects nothing only when none is visible. |
| `Resolver.ExactlyOneYes` | internal/kconfig/config.go:359-417 | A solved choice has exactly one member at y when some member is visible, otherwise none, and never one at m. |
| `Resolver.SelectIsFloor` | internal/kconfig/config.go:333-345 | A solved bool or tristate symbol is at least its reverse dependencies. |
| `ResolverMeaning.AssignedIsKept` | internal/kconfig/config.go:333-345 | A solved symbol that the file assigns, with a prompt that is not n, is worth the lesser of the assignment and its greatest prompt condition, or what selects it where that is more, with y for an m it cannot be; and it is written when not n. |
| `ResolverMeaning.UnassignedIsNo` | internal/kconfig/config.go:333-345 | With all symbols n by default, an unassigned one with a prompt is worth what implies, as far as its dependencies go, and selects demand. |
| `ResolverMeaning.FirstDefaultCounts` | internal/kconfig/config.go:468-481 | Otherwise its first default whose condition is not n counts, capped by that condition, beside implies and selects. |
| `ResolverMeaning.NoDefaultCounts` | internal/kconfig/config.go:468-481 | Without such a default only implies and selects count. |
| `ResolverMeaning.TextIsKept` | internal/kconfig/config.go:483-511 | A solved string is the assigned text when a prompt applies, else its first default that applies, quoted, else the empty text of its type. |
| `ResolverMeaning.ScalarWritten` | internal/kconfig/config.go:483-511 | A scalar is written exactly when a prompt or a default of it applies. |
| `ResolverMeaning.NumberIsKept` | internal/kconfig/config.go:533-595 | A solved number that its first applicable range with two ends allows, or that has none, is as it starts, a hexadecimal one with its prefix. |
| `ResolverMeaning.NumberIsBounded` | internal/kconfig/config.go:533-595 | One below that range becomes its lower end, and else one above it its upper end. |
| `ResolverMeaning.NoNumberIsZero` | internal/kconfig/config.go:533-563 | One whose text reads as no number is zero. |
| `ResolverMeaning.IntIsInRange` | internal/kconfig/config.go:533-626 | So a solved int is within its first range. |
| `ResolverMeaning.ChoosesAssigned` | internal/kconfig/config.go:383-398 | A solved choice makes y the first member that the file assigns y and whose dependencies allow it, and all others n. |
| `ResolverMeaning.ChoosesDefault` | internal/kconfig/config.go:400-448 | Without one, the member that the first fitting default names. |
| `ResolverMeaning.ChoosesOpen` | internal/kconfig/config.go:404-408 | Without that either, the first allowed member that the file leaves open. |
| `ResolverMeaning.ChoosesLast` | internal/kconfig/config.go:410-417 | And at last the last allowed member. |
| `ResolverConvergence.StepFrame` | internal/kconfig/config.go:153-203 | A step writes what it owns and nothing else. |
| `ResolverConvergence.OrderSolves` | internal/kconfig/config.go:153-203 | Visiting the nodes once in dependency order solves all equations if and only if it leaves no two choices that want a shared member differently. |
| `ResolverConvergence.PassSettles` | internal/kconfig/config.go:153-203 | Each pass, in any order, settles at least the next node of the dependency order and keeps the settled ones. |
| `ResolverConvergence.ConvergesWhenChoicesAgree` | internal/kconfig/config.go:153-203 | One such visit decides: n + 1 passes for n symbols, in any visiting order, converge if and only if it leaves no two choices that want a shared member differently, and then they end in what it leaves. |
| `ResolverConvergence.ConvergesExactly` | internal/kconfig/config.go:153-203 | In other words, with acyclic dependencies they converge if and only if the equations have a solution, and then to it. |
| `ResolverConvergence.SharedMemberDiverges` | internal/kconfig/parser.go:246-258 | Two choices that share a member and want it differently: no number of passes is enough. |
| `ResolverConvergence.ConvergesToOneResult` | internal/kconfig/config.go:153-203 | With acyclic dependencies neither starting values nor visiting order show in whether n + 1 passes suffice, nor in the result; and they do suffice when no symbol is in two choices. |
| `ResolverConvergence.BudgetDecides` | internal/kconfig/config.go:153-203 | From the imported assignments, whether the source's bound of 8n + 8 passes is kept is decided by one visit in dependency order. |
| `ResolverConvergence.BudgetSuffices` | internal/kconfig/config.go:153-203 | With no symbol in two choices that bound never fails. |
| `ResolverConvergence.ValuesSpellStates` | internal/kconfig/config.go:171-196 | What a resolved configuration writes for a bool or tristate symbol spells its state. |
| `MenuFinalize.Finalizer.FinalizeMenu` | internal/kconfig/parser.go:772-811 | Finalizing a menu leaves the entry and all below it with what they inherit, and adds its edges of dependency, select and imply in the source's order. |
| `MenuFinalize.Finalizer.FinalizeProperty` | internal/kconfig/parser.go:775-791 | A property ends up with its condition rewritten and conjoined with what it inherits, and adds the edge of a select or imply. |
| `MenuFinalize.Finalizer.FinalizeProperties` | internal/kconfig/parser.go:775-791 | All properties of an entry end up so, and contribute one edge each at most, in order. |
| `MenuFinalize.EntryDependency` | internal/kconfig/parser.go:772-811 | Every entry at any depth ends up with a dependency worth the least of those written at it and around it, the constant m gated. |
| `MenuFinalize.PropertyVisibility` | internal/kconfig/parser.go:775-791 | The condition of every property ends up worth the least of its own, all dependencies around it and, for a prompt, the visibility of all menus around it. |
| `MenuFinalize.AccumulatedMeaning` | internal/kconfig/parser.go:783-793 | An accumulated expression is the greatest contribution of its edges; a definition without dependency contributes nothing. |
| `MenuFinalize.DependencyLimit` | internal/kconfig/parser.go:792-794 | The dependency a symbol ends up with is the greatest of its definitions' if and only if none of them lacks a dependency, or all do, or a written one is y. |
| `MenuFinalize.DefinedTwiceIsLost` | internal/kconfig/parser.go:792-794 | A symbol defined once without dependency and once inside an if on a symbol at n ends up with n, although its greatest dependency is y. |
| `MenuFinalize.SelectObeyed` | internal/kconfig/parser.go:772-794 | In a resolved configuration the target of every select outside a choice is at least the lesser of the selector and the select's condition. |
| `MenuProblem.BuildProblem` | internal/kconfig/parser.go:764-811 | Finalizing a menu tree leaves its symbols, choices and properties with the accumulated dependencies, selects and implies: the problem that is resolved. |
| `MenuProblem.SymbolsOfProblem` | internal/kconfig/parser.go:228-258 | A symbol is in the problem exactly when an entry at some depth of the tree configures it, and then once. |
| `MenuProblem.MembersMeaning` | internal/kconfig/parser.go:246-258 | The members of a choice are the symbols configured below it and below no other choice in it. |
| `MenuProblem.AskHasEdge` | internal/kconfig/parser.go:775-791 | A select or imply written anywhere in the tree has an edge from its entry to its target, with the condition it ends up with. |
| `MenuProblem.SelectsObeyed` | internal/kconfig/parser.go:764-811 | When the tree's problem is resolved, the target of every select written in it, outside choices, is at least the least of the selector, the select's own condition and all dependencies around it. |
| `MenuProblem.ImpliesHonoured` | internal/kconfig/parser.go:764-811 | And where the file has no say, the target of every imply is at least the lesser of what the imply asks for and the dependencies the target ends up with. |
| `MenuProblem.DefinitionCounts` | internal/kconfig/parser.go:792-794 | The dependency a symbol ends up with is at least that of each of its definitions that has one: the least of those written at the entry and around it. |
| `ExprGrammar.ParsePrintParse` | internal/kconfig/parser.go:880-973 | Printing what the parser built and parsing it again gives the same tree, through all levels of precedence. |
| `ExprGrammar.PrintParse` | internal/kconfig/parser.go:880-973 | A tree survives printing and parsing if and only if the parser can build it. |
| `ExprGrammar.OrUndoes` | internal/kconfig/expr.go:38-67 | A printed tree in front of tokens that close an expression is parsed back, and the rest is left. |
| `ExprGrammar.UnaryUndoes` | internal/kconfig/expr.go:154-164 | A parenthesized operand in front of any tokens is parsed back. |
| `ExprParsing.ExprParser.Parse` | internal/kconfig/parser.go:872-886 | The position-advancing parser computes the grammar and takes all tokens or fails; `ExprPrecedence.ParsesExactly` says which language that is. |
| `ExprParsing.ExprParser.ParseOr` | internal/kconfig/parser.go:887-901 | The or-level loop follows the grammar from the position it starts at. |
| `ExprParsing.ExprParser.ParseAnd` | internal/kconfig/parser.go:902-916 | The and-level loop follows the grammar. |
| `ExprParsing.ExprParser.ParseCompare` | internal/kconfig/parser.go:917-933 | The comparison level follows the grammar. |
| `ExprParsing.ExprParser.ParseUnary` | internal/kconfig/parser.go:934-966 | The unary and primary levels follow the grammar. |
| `ExprPrecedence.ParsesExactly` | internal/kconfig/parser.go:872-966 | The parser accepts exactly what follows the rules of or, and, comparison and unary over whole token sequences, and builds what they say: && binds tighter than ||, both group to the left, and the rules are unambiguous. |
| `ExprPrecedence.OrSplitsLast` | internal/kconfig/parser.go:887-901 | Over arbitrary tokens, an expression is the OR of what stands before and behind its last || outside parentheses. |
| `ExprPrecedence.AndSplitsLast` | internal/kconfig/parser.go:902-916 | Where no || stands outside parentheses, it is the AND around the last && there. |
| `ExprPrecedence.ComparisonSplits` | internal/kconfig/parser.go:917-933 | A comparison has unary operands: a negation before it negates its left operand alone. |
| `ExprPrecedence.WordMeaning` | internal/kconfig/parser.go:722-754 | A single word is the symbol of that name, a constant exactly when it is quoted, a state, or a decimal or hexadecimal number. |
| `KbuildConditions.CombineAllMeaning` | internal/kconfig/kbuild.go:3909-3932 | A combined conjunction is enabled exactly when all of its non-empty parts are. |
| `KbuildConditions.CombineAnyMeaning` | internal/kconfig/kbuild.go:3933-3953 | A combined disjunction is enabled exactly when some part is. |
| `KbuildConditions.InvertMeaning` | internal/kconfig/kbuild.go:3954-3970 | Inversion negates if and only if the condition is invertible; constants other than y, n and - are not. |
| `KbuildModes.ConfigMode` | internal/kconfig/kbuild.go:3992-4047 | A symbol's condition is m exactly when the symbol is written at m, and y exactly when at y. |
| `KbuildModes.ComparisonMode` | internal/kconfig/kbuild.go:3992-4047 | A comparison with a state is y exactly when the symbol is, or is not, written so, and n means written neither at m nor at y. |
| `KbuildModes.ModeIsState` | internal/kconfig/kbuild.go:3992-4036 | A condition whose constants are y, m, n or - has mode n, m or y. |
| `KbuildModes.CombineAllMode` | internal/kconfig/kbuild.go:3909-3932 | An enabled conjunction has the mode of its last part that is not dropped, nested conjunctions included. |
| `KbuildModes.CombineAllLast` | internal/kconfig/kbuild.go:3909-3932 | That is the mode of its last part if and only if this part is kept or what stands before it is y as well. |
| `KbuildModes.ModuleStaysModule` | internal/kconfig/kbuild.go:3909-3932 | A symbol at m and then the constant y: combined they are m, where the conjunction is y. |
| `KbuildModes.CombineAnyMode` | internal/kconfig/kbuild.go:3933-3953 | A disjunction with two parts that count is y or n, never m. |
| `KbuildModes.CombineAnyOnly` | internal/kconfig/kbuild.go:3933-3953 | With one part that counts it is that part. |
| `KbuildModes.RunSwitches` | internal/kconfig/kbuild.go:643-786 | Whatever a Makefile's conditionals test, the conditions they record are never m. |
| `KbuildModes.ObjectMode` | internal/kconfig/kbuild.go:623-641 | An enabled object, through all directories that lead to it, has the mode of the innermost line that is more than a constant y: y when a test makes it so, else that of the state or symbol the line names. |
| `KbuildModes.ReachedObjectMode` | internal/kconfig/kbuild.go:623-641 | An object named with a symbol on a line that make reaches is a module exactly when the symbol is written at m, and built in exactly when at y. |
| `KbuildConditions.ConditionalStack.Execute` | internal/kconfig/kbuild.go:643-685 | A directive changes the stack as specified or is refused and changes nothing. |
| `KbuildConditions.ConditionalStack.PushConditional` | internal/kconfig/kbuild.go:687-704 | Opening a conditional pushes one frame that knows what surrounds it. |
| `KbuildConditions.ConditionalStack.ActivateElse` | internal/kconfig/kbuild.go:705-733 | The else branch takes what no branch before it took. |
| `KbuildConditions.ConditionalStack.ActivateElseIf` | internal/kconfig/kbuild.go:734-786 | An else-if branch takes what no branch before it took and its own test allows. |
| `KbuildConditions.RecordedExactly` | internal/kconfig/kbuild.go:609-786 | When all enclosing tests are known or carry a condition, a line is recorded under a configuration exactly when concrete evaluation reaches it. |
| `KbuildConditions.ReachedLineRecorded` | internal/kconfig/kbuild.go:734-786 | In general a reached line is recorded if and only if no enclosing chain had an else-if without condition behind an undecided test. |
| `KbuildConditions.LostElse` | internal/kconfig/kbuild.go:734-786 | A line that is reached and not recorded: the else behind such an else-if. |
| `KbuildConditions.DefinitelyActiveIsReached` | internal/kconfig/kbuild.go:616-622 | A definitely active line is reached under every configuration. |
| `PreprocessorBoolean.ScanOuterParens` | internal/kconfig/config_footprint.go:1372-1392 | The scan answers whether one pair of parentheses is around the whole text. |
| `PreprocessorBoolean.ScanSplit` | internal/kconfig/config_footprint.go:1394-1418 | The scan gives the trimmed operands of a top-level operator, or nothing. |
| `PreprocessorBoolean.EvaluateText` | internal/kconfig/config_footprint.go:1235-1316 | The evaluator, stripping, splitting and stopping early, computes the value of the text. |
| `PreprocessorBoolean.EvaluateMeaning` | internal/kconfig/config_footprint.go:1235-1316 | Evaluating the text of any tree of atoms, negations, conjunctions and disjunctions, with any white space between them, gives its strong Kleene value. |
| `PreprocessorBoolean.EvaluateMonotone` | internal/kconfig/config_footprint.go:1235-1316 | Making unknown atoms known never changes an answer that was known. |
| `PreprocessorBoolean.EvaluateTotal` | internal/kconfig/config_footprint.go:1235-1316 | When every atom is known, every condition is. |
| `PreprocessorScan.ScanLines` | internal/kconfig/config_footprint.go:985-1067 | The loop over the lines records for each line whether it may be active. |
| `PreprocessorScan.TestIsTruth` | internal/kconfig/config_footprint.go:996-1048 | The scan takes the test of every directive for what the standard makes of it: a condition for the value of its tree, an ifdef for its atom, an ifndef for the opposite. |
| `PreprocessorScan.IncludedIsPotentiallyActive` | internal/kconfig/config_footprint.go:985-1067 | However unknown atoms are decided at each line anew, as definitions between the lines may, a line that section 6.10.1 of ISO/IEC 9899:2011 includes is potentially active. |
| `PreprocessorScan.MissedExactly` | internal/kconfig/config_footprint.go:985-1067 | Whatever definitions do to each test, an included line is potentially active if and only if no conditional around it had, up to its current branch, a test that came out otherwise than known. |
| `PreprocessorScan.ScanMissesNothing` | internal/kconfig/config_footprint.go:985-1067 | The same for each line of a file and the flag recorded for it. |
| `PreprocessorScan.FlagMissedExactly` | internal/kconfig/config_footprint.go:985-1067 | The same limit for each line of a file and the flag recorded for it. |
| `PreprocessorScan.UndefinedIsMissed` | internal/kconfig/config_footprint.go:985-1067 | A line that is compiled and dropped: the else of a test for a symbol known to be defined and undefined in the file. |
| `PreprocessorScan.BothTextsCompiled` | internal/kconfig/config_footprint.go:985-1067 | Why each line has its own truths: a default for a macro and a use of it are both included, and no truths that hold throughout the file include both. |
| `PreprocessorScan.KnownConditionsAreExact` | internal/kconfig/config_footprint.go:985-1067 | When every condition is known, potentially active and included are the same. |
| `PreprocessorScan.DecidedFlagsAreExact` | internal/kconfig/config_footprint.go:985-1067 | The same for each line and the flag recorded for it, when the conditions up to the line are known. |
| `IncludeClosure.ComputeClosure` | internal/kconfig/config_footprint.go:604-791 | The worklist fails exactly when some reachable file cannot be scanned or has an active include or .incbin that nothing accounts for; otherwise it returns exactly the references, headers, sources and inputs of the reachable entries. |
| `IncludeClosure.ClosedContainsReachable` | internal/kconfig/config_footprint.go:604-791 | A set with the source and the entries that active includes of its members lead to holds everything reachable. |
| `IncludeClosure.ScanEntry` | internal/kconfig/config_footprint.go:625-760 | One entry fails exactly when it cannot be scanned or something active in it is not accounted for; its inputs are the file, the leaves it includes and the binaries it embeds, and its children what its other active includes resolve to, guarded when vendored and behind the environment header. |
| `IncludeClosure.ScanIncludes` | internal/kconfig/config_footprint.go:637-719 | The loop over the includes, with the flag it carries, contributes what some include says; an include counts as behind the environment header exactly when one at or before it in a wrapper resolves to that header. |
| `IncludeClosure.ScanInclude` | internal/kconfig/config_footprint.go:638-719 | One include fails exactly when it is active and neither modelled, resolved, provided, generated nor the compiler's own, or is a leaf that cannot be read; otherwise it names at most one generated header and enters exactly what it resolves to. |
| `IncludeClosure.ScanBinaries` | internal/kconfig/config_footprint.go:720-760 | The .incbin directives add exactly the files that active ones resolve to, and fail exactly at one that is not accounted for or cannot be read. |
| `IncludeSoundness.OpenedFilesAreInputs` | internal/kconfig/config_footprint.go:604-1067 | However the atoms the scan did not know come out, at each line anew, every file that a compilation opens, going from include to include, is among the inputs of the closure, with its digest. |
| `GroupEncoding.EncodeGroup` | internal/kconfig/compact_content.go:301-307 | The loop writes the numbers in decimal, joined by commas. |
| `GroupEncoding.DecodeGroup` | internal/kconfig/compact_content.go:309-340 | The loop reads such a text and refuses everything else. |
| `GroupEncoding.DecodeEncode` | internal/kconfig/compact_content.go:301-340 | Every rising list of numbers in range is read back as written. |
| `GroupEncoding.EncodeDecode` | internal/kconfig/compact_content.go:301-340 | Whatever is read would be written the same: one text for one group. |
| `SourceInputs.CanonicalSourceInputs` | internal/kconfig/compact_content.go:455-469 | The inputs by path, refused exactly when one is malformed or a path is repeated. |
| `SourceInputs.NeighboursSuffice` | internal/kconfig/compact_content.go:455-469 | In sorted order, comparing neighbours finds every repeated path. |
| `Ordering.LessMeaning` | internal/kconfig/compact_content.go:455-469 | The order of paths: a shorter beginning comes first, and else what is smaller at the first difference. |
| `SourceIndex.ExpandedSourceInputGroup` | internal/kconfig/compact_content.go:416-443 | Expansion gives the files of a group in the order of their numbers, nothing for an unreadable group. |
| `SourceIndex.GroupsAreFileSets` | internal/kconfig/compact_content.go:416-443 | In a well-formed index two groups are the same exactly when they stand for the same files. |
| `SourceInterning.Interner.Intern` | internal/kconfig/compact_content.go:369-409 | Interning fails exactly when the inputs are malformed or disagree with a known digest; every group ever handed out still stands for its inputs. |
| `SourceInterning.Interner.InternFiles` | internal/kconfig/compact_content.go:378-400 | Each file gets its number, known or new, unless its digest disagrees. |
| `SourceInterning.OwnersShareGroups` | internal/kconfig/compact_content.go:369-409 | Owners share a group exactly when they were given the same inputs. |
| `SourceCanonical.ExpansionSurvives` | internal/kconfig/compact_content.go:471-561 | Canonical order leaves what a group stands for, sorted by path. |
| `SourceCanonical.OwnersKeepInputs` | internal/kconfig/compact_content.go:471-561 | Every family and object keeps all of its attributes and expands to its old inputs, sorted by path. |
| `SourceCanonical.InterningSurvives` | internal/kconfig/compact_content.go:369-561 | After any run of the interner, apply and canonical order, a group expands to the inputs it was asked for, sorted by path. |
| `SourceCanonical.CanonicalSharing` | internal/kconfig/compact_content.go:369-561 | After that run, owners share a canonical group exactly when they were given the same inputs. |
| `SourceCanonical.CanonicalIsFixed` | internal/kconfig/compact_content.go:471-561 | Putting the index in canonical order twice is doing it once. |
| `SourceCanonical.ValidatedIsFixed` | internal/kconfig/compact_content.go:471-680 | An index stays as it is if and only if validation accepts it. |
| `SourceMetadata.CompactMetadata.Apply` | internal/kconfig/compact_content.go:411-414 | The metadata takes over the interned files and groups. |
| `SourceMetadata.CompactMetadata.CanonicalizeSourceInputIndex` | internal/kconfig/compact_content.go:471-561 | Rewriting in place succeeds exactly when there is a canonical form and leaves that form, whatever the order in which the set of groups is walked; even when it fails half way no file is lost and no owner loses anything but the number of its group. |
| `SourceMetadata.CompactMetadata.SourceFileIndex` | internal/kconfig/compact_content.go:445-453 | Binary search finds the number of a path, or that it is missing. |
| `SourceMetadata.Validate` | internal/kconfig/compact_content.go:563-680 | Validation accepts exactly an index in order whose references exist, hold their primary source, and leave no group or file unused. |
| `ContentPreimages.PreimageIsInjective` | internal/kconfig/compact_content.go:33-38 | Values without NUL can be told from their NUL-terminated concatenation. |
| `ContentSections.WrittenIsInjective` | internal/kconfig/compact_content.go:33-50 | Sections of tagged values can be told from the text written for them. |
| `ContentIds.ContentHasher.WriteValue` | internal/kconfig/compact_content.go:33-38 | Writing a value appends its parts and a NUL. |
| `ContentIds.ContentHasher.WriteRecord` | internal/kconfig/compact_content.go:44-50 | Writing a record leaves exactly its text. |
| `ContentIds.ObjectVariantContentID` | internal/kconfig/compact_content.go:178-242 | The identifier is the digest of the object's text, field after field in the source's order. |
| `ContentIds.ObjectSections` | internal/kconfig/compact_content.go:178-242 | The text has eighteen sections; the first nine, in this order and under these names, are each a field of the object. |
| `ContentIds.ObjectSectionsBehind` | internal/kconfig/compact_content.go:214-241 | And so are the nine behind them. |
| `ContentIds.ObjectIdDecides` | internal/kconfig/compact_content.go:178-242 | Two objects have the same content identifier exactly when everything they depend on is the same. |
| `SourceContentIds.ContentTextSurvives` | internal/kconfig/compact_content.go:931-990 | For inputs in path order, what a content identifier is recomputed from after interning and canonical order is what it was computed from before. |
| `SourceContentIds.ContentIdSurvives` | internal/kconfig/compact_content.go:931-990 | For inputs in any order, the recomputed identifier is the one computed before if and only if they were in path order. |
| `ContentIds.ConcreteRecipeID` | internal/kconfig/compact.go:473-507 | The identifier is the digest of the recipe's text. |
| `ContentIds.RecipeSections` | internal/kconfig/compact.go:473-507 | The text has thirteen sections; the first seven, in this order and under these names, are each an attribute of the object. |
| `ContentIds.RecipeSectionsBehind` | internal/kconfig/compact.go:488-506 | And so are the six behind them. |
| `ContentIds.RecipeIdDecides` | internal/kconfig/compact.go:473-507 | Two objects have the same recipe identifier exactly when kind, language, mode, flags and all other attributes a rule reads are the same. |
| `ContentIds.ReachabilityID` | internal/kconfig/compact.go:509-515 | The identifier is the digest of the list of names. |
| `ContentIds.ReachabilityIdDecides` | internal/kconfig/compact.go:509-515 | Two lists of names have the same identifier exactly when they are the same. |
| `ContentIds.NulInFlag` | internal/kconfig/compact.go:473-507 | With a NUL inside a flag two recipes that differ have one identifier, whatever the digest: the limit of the results above. |
| `Reachability.Walk.Visit` | internal/kconfig/compact.go:543-569 | The depth-first walk sees a target and all it is made of, and fails only at a target no object stands for. |
| `Reachability.Walk.WalkConfig` | internal/kconfig/compact.go:543-579 | One configuration's name is put exactly on what it reaches. |
| `Reachability.ReachableByConfig` | internal/kconfig/compact.go:541-579 | The names on a target are those of all configurations that reach it; fails exactly when one reaches an unknown target. |
| `ActionPlan.NamesGrow` | internal/kconfig/compact.go:560-569 | What an object is made of is reached by every configuration that reaches the object. |
| `Grouping.GroupsPartition` | internal/kconfig/compact.go:581-621 | Every reached object is in exactly one group, and two are together exactly when their keys are the same. |
| `Grouping.BuildGroups` | internal/kconfig/compact.go:604-621 | Whatever the order in which the keys are walked, the result is one group for each key, ordered by identifier. |
| `ActionPlan.DeriveActionGroups` | internal/kconfig/compact.go:533-622 | Fails exactly at a repeated or unknown target, and otherwise returns such a grouping of exactly the reached objects. |
| `ActionPlan.GroupsAreClasses` | internal/kconfig/compact.go:533-622 | Two reached objects share a group exactly when their recipes and the sets of configurations that reach them agree. |
| `ActionPlan.LegacyIsland` | internal/kconfig/compact.go:3073-3087 | The loop ends, whatever the order of its walks, with exactly what the seeds reach: a closed set. |
| `ActionPlan.IslandIsLeast` | internal/kconfig/compact.go:3073-3087 | No closed set with the seeds is smaller. |
| `ActionPlan.ActionGraphPlan` | internal/kconfig/compact.go:3041-3124 | The plan splits each group by the island, in order, names what is outside after the group and what is inside with the suffix _legacy, and nothing else; fails exactly when two groups clash in name. |
| `ActionPlan.RuleNameMeaning` | internal/kconfig/compact.go:527-531 | A rule name shows how the recipe and the reachability begin, in this order; two are the same exactly when those are. |
| `ActionPlan.OwnedIsNamed` | internal/kconfig/compact.go:3106-3121 | Every target of a group is named after its group, with the suffix exactly when it is in the island. |
| `ActionPlan.MembersOwned` | internal/kconfig/compact.go:3494-3501 | Every member of a grouped composite has a rule: the error about an unowned member cannot occur. |
| `ActionPlan.GroupedKind` | internal/kconfig/compact.go:3406-3411 | A grouped object never is of the kind that a group has no rule for. |
| `ActionPlan.FirstSpeaksForAll` | internal/kconfig/compact.go:3406-3545 | The attributes a rule reads of the first object of an emission, be it the grouped one or the first of those in the island, are those of every object of the emission. |
| `ActionPlan.CompositeMemberGroups` | internal/kconfig/compact.go:3480-3510 | The loops collect the names of the groups the members come from, and fail exactly at an unowned member. |
| `ActionPlan.MembersGoByEmissions` | internal/kconfig/compact.go:3494-3502 | These names are exactly the rule names of the emissions that hold a member, the grouped or the legacy one as the member is outside or inside the island. |
| `ObjectVariants.LanguageMeaning` | internal/kconfig/compact.go:462-471 | Sources in C are those whose path ends in .c, and in assembly those that end in .S or .s. |
| `CrcTables.Crc32TableLE` | internal/cmd/crctables/main.go:136-146 | Every entry of the table built by halving is eight single-bit division steps on its index, for every polynomial. |
| `CrcTables.Crc32TableBE` | internal/cmd/crctables/main.go:148-158 | Every entry of the table built by doubling is eight straight steps on its index at the top of a word. |
| `CrcTables.Crc32TablesLE` | internal/cmd/crctables/main.go:72-81 | Row r of the sliced tables is 8(r + 1) single-bit steps, for every number of rows. |
| `CrcTables.Crc32TablesBE` | internal/cmd/crctables/main.go:83-92 | The same for the straight division. |
| `CrcDivision.ByteLE` | internal/cmd/crctables/main.go:77 | Eight steps on a word are one look-up for its low byte and a shift. |
| `CrcDivision.ByteBE` | internal/cmd/crctables/main.go:88 | Eight straight steps on a word are one look-up for its top byte and a shift. |
| `CrcDivision.SliceByFour` | internal/cmd/crctables/main.go:72-81 | Dividing a whole word is one look-up per byte in four consecutive rows. |
| `CrcDivision.SliceByFourBE` | internal/cmd/crctables/main.go:83-92 | The same for the straight division, from the top byte down. |
| `Crc64Tables.ReflectedCrc64Table` | internal/cmd/crctables/main.go:187-202 | Every entry, built bit by bit with the byte shifted apart, is eight reflected steps on its index. |
| `Crc64Tables.Crc64Table` | internal/cmd/crctables/main.go:204-220 | Every entry is eight straight steps on its index at the top of a word. |
| `ByteStreams.OccursAcross` | e2e/cmd/qemuboot/main.go:81-101 | A marker is in a stream and the next chunk exactly when it is in one of them or across a boundary of one byte less than the marker on each side. |
| `SerialMarker.MarkerWriter.Write` | e2e/cmd/qemuboot/main.go:65-79 | After every write, whatever the output accepted of it, the marker counts as matched exactly when it is in the stream. |
| `SerialMarker.MarkerWriter.Match` | e2e/cmd/qemuboot/main.go:81-101 | A chunk answers yes exactly when the marker is in it or across the boundary before it. |
| `SerialMarker.MarkerWriter.UpdateMarkerTail` | e2e/cmd/qemuboot/main.go:103-118 | The tail kept is the last bytes of the stream, one less than the marker. |
| `SerialMarker.MarkerWriter.MarkerFound` | e2e/cmd/qemuboot/main.go:120-124 | Answers whether the marker is in the stream. |
| `SerialMarker.AnsweredByStream` | e2e/cmd/qemuboot/main.go:65-118 | However a stream is cut into chunks, some chunk answers yes exactly when the marker is in the stream. |
| `SerialCapture.TailBuffer.Write` | e2e/cmd/qemuboot/main.go:132-160 | Whatever the sizes, the ring holds the last bytes of everything written, and truncated says whether that is not all. |
| `SerialCapture.TailBuffer.ToString` | e2e/cmd/qemuboot/main.go:162-174 | Shows the last 1048576 bytes, with the note exactly when more was written. |

## Left out

- The order of terms inside a clause and the text of labels: a clause is a sequence of terms compared by label, and labels are taken as injective.
- Sorting a DNF for output and rendering conditions as labels: formatting.
- Automatic submenus and the flattening of promptless entries in the menu tree, and reading Kconfig files: only the tree that finalizing walks is modelled.
- MenuFinalize.Finalizer.FinalizeMenu: returns the tree with what its entries inherit, where the source stores it in the entries.
- Dependencies that run in a circle: `ResolverConvergence.ConvergesWhenChoicesAgree` and what follows from it are about acyclic ones, and `Resolver.ResolveSolves` about all.
- MenuProblem.BuildProblem: lists symbols and choices in the order of the tree, where the source sorts them by name; for acyclic dependencies the order does not show, by `ResolverConvergence.ConvergesToOneResult`. Transitional symbols are symbols like others.
- The text of comparisons in the encoder's derived terms: a configuration says how each comes out, and a resolved one says it as the resolver compares.
- Reading of numbers and texts by the host in comparisons, ranges and defaults: parameters of evaluation.
- The Rust toolchain check after resolving, and writing the configuration out.
- Expansion of Make variables and functions: a test arrives as known, as a condition, or as blind.
- Removal of comments from preprocessor conditions and white space outside ASCII; the meaning of atoms, integer-valued macros and `__has_include` look-up. Which definitions a file contains: the unknown atoms may come out at every line anew, and a known one comes out as known in `PreprocessorScan.ScanMissesNothing`; `PreprocessorScan.FlagMissedExactly` has the limit for definitions that change a known one.
- IncludeSoundness.OpenedFilesAreInputs: speaks of compilations in which known atoms come out as known, and of includes that name their file; from a guarded entry the environment header counts as opened and is not gone into, as in the closure itself.
- Reading and caching of files, generated headers, and the search order for includes: functions of the model of the source tree.
- PreprocessorBoolean.EvaluateMeaning: states the value for atoms that no rule of the evaluator takes apart, since other atoms are not atoms to the evaluator. In `PreprocessorScan` a text that is that of no such tree comes out as the evaluator says.
- DnfSuccess.BodySucceeds: speaks of expressions whose comparisons are nested at most two deep, up to the bound it computes; beyond that only `DnfSuccess.UnreadableFails` says something, because the limit then depends on what absorbs what.
- KbuildModes.ObjectMode: takes the lines that lead to an object, and their open conditionals, as given.
- DnfCompiler.EncodeStateMeaning: speaks of configurations in which no bare int, hex or string symbol of the expression is true; `DnfCompiler.EncodedRightExactly` has the limit.
- ContentIds.RecipeIdDecides: assumes values without NUL and an injective digest; `ContentIds.NulInFlag` shows what a NUL does.
- ContentIds.ObjectIdDecides: assumes values without NUL and an injective digest.
- ContentIds.ContentHasher.WriteRecord: writes the fields of a record from a table of tags in the source's order, where the source has one statement for each field.
- ActionPlan.GroupsAreClasses: assumes values without NUL and an injective digest; `Grouping.GroupsPartition` needs neither.
- ActionPlan.ActionGraphPlan: takes the groups as derived; comparing them with groups stored earlier, and the reasons for which an object cannot be compiled in a group, are parameters or absent.
- The identifiers of generated header families and compile environments, and of a group itself: built from the same tagged values, or a parameter.
- SourceInterning.Interner.Intern: assumes that there are fewer files than the largest int; a list of files that long cannot exist.
- SourceMetadata.CompactMetadata.CanonicalizeSourceInputIndex: does not say how far the rewriting got when it fails; the source leaves files of equal path in an order that its sort does not settle.
- Sorting: an order of equal keys that the source leaves open never shows, because equal paths, numbers and texts are refused or merged.
- Emission of BUILD files, JSON, and validation of content identifiers beyond their preimages.
- Formatting of the CRC tables as C, and choosing the kind of table.
- Locks, the channel that signals the marker, starting and stopping QEMU: a write is one step, and the channel is closed exactly when the marker is matched.
- SerialMarker.MarkerWriter.Write: the number of bytes the output accepted is a parameter, no more than the length of the write.
- Rust profiles, version codes, ELF helpers, header generators and archive writers: formatting or shallow arithmetic.
