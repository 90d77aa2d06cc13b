# Arend editor passes, inspection and PSI factory — a Dafny model

This project models four pieces of the Arend IntelliJ plugin in Dafny and
proves properties about them.

- **The highlighting pass** (`ArendHighlightingPass`):
  - it counts the typecheckable definitions of a file's group tree;
  - it highlights meta resolvers, infix operators and the failing segment of a long name;
  - it collects the resolved `Concrete.Definition`s;
  - it hands them to the ordering engine. The file's last-modified definition goes first, into the first collector. The rest go into the second collector.
  - it publishes the file's modification stamp and launches a background typechecking run unless both collectors are empty.
- **The silent typechecker pass** (`SilentTypecheckerPass`):
  - it selects the definitions that are neither blacklisted nor typechecked (`countDefinition`, `numberOfDefinitions`);
  - then, by typechecking mode, it typechecks them one by one under a time limit (SMART), runs the dumb typechecker over them (DUMB), or does nothing (OFF);
  - in every mode it resets the file's concrete provider.
- **The redundant-parentheses inspection** (`RedundantParensInspection`):
  - it decides whether a parenthesised expression can lose its parentheses, by three rules:
    - the expression is a plain atom;
    - the common parent patterns;
    - an application used as an argument of an infix operator;
  - its quick fix splices the unwrapped text into the document.
- **The Vclang PSI factory** (`VcPsiFactory`): it builds the source text of the dummy `\function` declarations from which identifiers, prefix, infix and postfix names, literals and expressions are parsed.

Files:

- `core.dfy` (`ArendCore`): `Option`, definition identities, and the `ArendFile` state the passes share.
- `highlighting_pass.dfy` (`HighlightingPass`): the group tree and its count, the long-name index, the ordering of collected definitions, and the `ArendHighlightingPass` class.
- `silent_typechecker_pass.dfy` (`SilentTypechecking`): specification functions for the candidates and the event log of a run, their lemmas, and the `SilentTypecheckerPass` class.
- `redundant_parens.dfy` (`RedundantParens`): the syntax shapes the inspection inspects, its three rules, the hole scan, the problems holder, the document and the quick fix.
- `psi_factory.dfy` (`PsiFactory`): Kotlin's `trimEnd` and `joinToString`, and the code templates.

Things the plugin gets from outside are parameters or data:

- the typechecking engine with its time limit is an oracle `engine: DefId -> Outcome`;
- the concrete provider is the set `concrete` of definitions that have a concrete definition;
- the name validator is a parameter `isPrefixName` / `isInfixName`;
- the results of `unwrapParens`, `isBinOp`, `BinOpIntentionUtil` and the concrete visitor are fields of the syntax datatypes.

Every property holds for every oracle.

## Model

| member | source | states |
|---|---|---|
| HighlightingPass.DefinitionCountIsTCNodes | src/main/kotlin/org/arend/highlight/ArendHighlightingPass.kt:58-70 | The recursive count over statements and dynamic subgroups equals the number of `TCDefinition` nodes in the pre-order list of the group tree. |
| HighlightingPass.GroupCountIsTCNodes | src/main/kotlin/org/arend/highlight/ArendHighlightingPass.kt:60-69 | For a present group, the count is its own `TCDefinition` flag plus its statement and subgroup counts, which is the `TCDefinition` nodes of its subtree. |
| HighlightingPass.StatementsCountIsTCNodes | src/main/kotlin/org/arend/highlight/ArendHighlightingPass.kt:63-65 | The running total after the first n statements counts the `TCDefinition` nodes under those statements. |
| HighlightingPass.SubgroupsCountIsTCNodes | src/main/kotlin/org/arend/highlight/ArendHighlightingPass.kt:66-68 | The running total after the first n dynamic subgroups counts the `TCDefinition` nodes under those subgroups. |
| HighlightingPass.TCNodeCountAppend | src/main/kotlin/org/arend/highlight/ArendHighlightingPass.kt:63-68 | Counting `TCDefinition` nodes is additive over concatenation, which is why the running sums of the two loops are correct. |
| HighlightingPass.NumberOfDefinitions | src/main/kotlin/org/arend/highlight/ArendHighlightingPass.kt:58-70 | The loops return 0 for a missing group, and otherwise exactly the number of `TCDefinition` nodes in the tree. |
| HighlightingPass.LongNameIndexFrom | src/main/kotlin/org/arend/highlight/ArendHighlightingPass.kt:86-89 | Started at i, the loop stops at or after i and no later than the last segment. It passes only segments that are not `ErrorReference`, and it stops before the last segment only at an `ErrorReference`. |
| HighlightingPass.LongNameIndex | src/main/kotlin/org/arend/highlight/ArendHighlightingPass.kt:86-89 | The index is 0 for names of at most one segment. Otherwise it is the first `ErrorReference` before the last segment, or the last segment when there is none. |
| HighlightingPass.FindLongNameIndex | src/main/kotlin/org/arend/highlight/ArendHighlightingPass.kt:86-89 | The `while` loop computes exactly `LongNameIndex`. |
| HighlightingPass.ClassifyLast | src/main/kotlin/org/arend/highlight/ArendHighlightingPass.kt:76-84 | The meta-resolver highlight is given iff the last element is a ref/def identifier and the referent is a meta with a resolver. The operator highlight is given iff it is such an identifier and the referent is an infix global and not such a meta. The result is empty iff neither applies. |
| HighlightingPass.ReferenceHighlights | src/main/kotlin/org/arend/highlight/ArendHighlightingPass.kt:75-111 | An empty element list yields no highlight. Otherwise the classification of the last element comes first. The long-name highlight at the failing index is added iff that index is positive and a range exists for its element. No other long-name highlight is added, and only a long-name highlight may follow the classification, so at most one highlight follows it. |
| HighlightingPass.ArendHighlightingPass.ResolveReference | src/main/kotlin/org/arend/highlight/ArendHighlightingPass.kt:75-111 | The callback appends exactly `ReferenceHighlights` of its arguments to the highlights. |
| HighlightingPass.CollectedDefinitions | src/main/kotlin/org/arend/highlight/ArendHighlightingPass.kt:165-167 | The collected list holds a definition iff the resolver reported it as a `Concrete.Definition`. It is never longer than the reported list. |
| HighlightingPass.CollectedDefinitionsAppend | src/main/kotlin/org/arend/highlight/ArendHighlightingPass.kt:74-171 | Collecting distributes over concatenation. Together with the one-definition case, this fixes the collected list as the concrete definitions in resolution order, each as often as reported. |
| HighlightingPass.ArendHighlightingPass.DefinitionResolved | src/main/kotlin/org/arend/highlight/ArendHighlightingPass.kt:135-170 | One reported definition is appended iff it is a `Concrete.Definition`, and progress advances by one either way. |
| HighlightingPass.ArendHighlightingPass.ReportResolved | src/main/kotlin/org/arend/highlight/ArendHighlightingPass.kt:74-171 | Reporting a sequence appends its concrete definitions in order and advances progress by its length. |
| HighlightingPass.LastModifiedConcrete | src/main/kotlin/org/arend/highlight/ArendHighlightingPass.kt:177 | The ordering starts from a definition iff the file has a last-modified definition whose concrete form is a `Concrete.Definition`, and then it is that definition. |
| HighlightingPass.OtherDefinitionsMembers | src/main/kotlin/org/arend/highlight/ArendHighlightingPass.kt:182-187 | The second collector receives exactly the collected definitions other than the last-modified one, and no more of them than were collected. |
| HighlightingPass.OtherDefinitionsStep | src/main/kotlin/org/arend/highlight/ArendHighlightingPass.kt:183-186 | One loop step appends the definition iff it differs from the last-modified one. |
| HighlightingPass.OrderingMultiset | src/main/kotlin/org/arend/highlight/ArendHighlightingPass.kt:177-187 | Across both collectors every definition is ordered as often as it was collected. The exception is the last-modified one, which is ordered exactly once. |
| HighlightingPass.OrderingCount | src/main/kotlin/org/arend/highlight/ArendHighlightingPass.kt:177-187 | The same count, for one definition. |
| HighlightingPass.OrderingEachOnce | src/main/kotlin/org/arend/highlight/ArendHighlightingPass.kt:177-187 | With distinct collected definitions that include the last-modified one, each collected definition is ordered exactly once and nothing else is ordered. |
| HighlightingPass.ArendHighlightingPass.constructor | src/main/kotlin/org/arend/highlight/ArendHighlightingPass.kt:38-45 | A new pass has empty collectors, no last-modified definition, stamp 0 and the current definition-modification count. |
| HighlightingPass.ArendHighlightingPass.OrderCollected | src/main/kotlin/org/arend/highlight/ArendHighlightingPass.kt:173-187 | The first collector gains the last-modified concrete definition, if any, and the pass records it. The second collector gains the other collected definitions, in collection order. |
| HighlightingPass.ArendHighlightingPass.CollectInfo | src/main/kotlin/org/arend/highlight/ArendHighlightingPass.kt:72-188 | Each call starts a fresh list of definitions: afterwards it holds exactly the concrete definitions of this call's resolution, progress has advanced by the number resolved, and both collectors end as the ordering step states. |
| HighlightingPass.ArendHighlightingPass.CollectInformationWithProgress | src/main/kotlin/org/arend/highlight/ArendHighlightingPass.kt:51-56 | Nothing changes unless the typechecking service is loaded. Otherwise the progress limit is the `TCDefinition` count of the file's tree, and `collectInfo` runs: the collected definitions are exactly this call's concrete ones, progress grows by the number resolved, the last-modified definition is recorded when it is concrete (and otherwise kept), and the two collectors receive it and the others. |
| HighlightingPass.ArendHighlightingPass.ApplyInformation | src/main/kotlin/org/arend/highlight/ArendHighlightingPass.kt:190-209 | The file's modification stamp becomes the maximum of the old stamp and the pass's, so it never decreases. No run is launched when both collectors are empty. Otherwise exactly one launch is recorded, with the larger modification count, both collectors, the last-modified definition, and immediate mode in unit tests or a queued task otherwise. |
| SilentTypechecking.CandidatesMembers | src/main/kotlin/org/arend/highlight/SilentTypecheckerPass.kt:129-133 | A definition is selected iff it belongs to the group, is not blacklisted and is not typechecked. |
| SilentTypechecking.CandidatesStep | src/main/kotlin/org/arend/highlight/SilentTypecheckerPass.kt:129-133 | One `countDefinition` call appends its definition iff it is a candidate. |
| SilentTypechecking.CheckEventsFacts | src/main/kotlin/org/arend/highlight/SilentTypecheckerPass.kt:68-88 | A definition without a concrete definition produces nothing. Otherwise the engine is started first. A warning is issued iff the run was interrupted. A restart is requested iff the run was interrupted and the definition is not the last pending one. |
| SilentTypechecking.CheckEventsStarted | src/main/kotlin/org/arend/highlight/SilentTypecheckerPass.kt:68-88 | One call starts the engine on the definition iff it has a concrete definition, and warns about it iff it was also interrupted. |
| SilentTypechecking.StartedAppend | src/main/kotlin/org/arend/highlight/SilentTypecheckerPass.kt:107-109 | The started and warned definitions of concatenated event logs are the concatenation of their parts. |
| SilentTypechecking.RunStep | src/main/kotlin/org/arend/highlight/SilentTypecheckerPass.kt:107-109 | One loop iteration extends the run's events by that definition's events, and the typechecked map by its result. |
| SilentTypechecking.DumbStep | src/main/kotlin/org/arend/highlight/SilentTypecheckerPass.kt:120-122 | One DUMB iteration appends one dumb check of that definition. |
| SilentTypechecking.RunEventsInOrder | src/main/kotlin/org/arend/highlight/SilentTypecheckerPass.kt:107-109 | A SMART run starts the engine on exactly the pending definitions that have a concrete definition, in list order. It warns on exactly those among them that were interrupted, in list order. |
| SilentTypechecking.RunRestarts | src/main/kotlin/org/arend/highlight/SilentTypecheckerPass.kt:76-81 | A run requests a restart iff some pending definition with a concrete definition was interrupted and is not the last pending one. |
| SilentTypechecking.AfterRunRecords | src/main/kotlin/org/arend/highlight/SilentTypecheckerPass.kt:70-74 | A run never removes a typechecked entry. Every pending definition whose run finished is recorded with its error status. Every dependency that a run of a concrete pending definition typechecked is recorded. Entries of definitions that were not pending are unchanged. Any new entry is a pending definition or such a dependency. |
| SilentTypechecking.RecountSkipsDependencies | src/main/kotlin/org/arend/highlight/SilentTypecheckerPass.kt:99-102 | A dependency that the run typechecked is not a candidate when the group is counted again afterwards. |
| SilentTypechecking.SilentTypecheckerPass.constructor | src/main/kotlin/org/arend/highlight/SilentTypecheckerPass.kt:28-34 | A new pass has no pending definitions, no events and zero progress. |
| SilentTypechecking.SilentTypecheckerPass.CountDefinition | src/main/kotlin/org/arend/highlight/SilentTypecheckerPass.kt:129-133 | The answer is true iff the definition is neither blacklisted nor typechecked, and exactly then it is appended to the pending list. |
| SilentTypechecking.SilentTypecheckerPass.BaseNumberOfDefinitions | src/main/kotlin/org/arend/highlight/SilentTypecheckerPass.kt:129-133 | Counting the whole group appends its candidates in order and returns how many there are. |
| SilentTypechecking.SilentTypecheckerPass.NumberOfDefinitions | src/main/kotlin/org/arend/highlight/SilentTypecheckerPass.kt:135-147 | OFF gives 0 and leaves the list alone. SMART with a last-modified definition considers only that one, so the count is 0 or 1. SMART without one, and DUMB, count the whole group. |
| SilentTypechecking.SilentTypecheckerPass.TypecheckDefinition | src/main/kotlin/org/arend/highlight/SilentTypecheckerPass.kt:68-88 | It returns the definition iff it has a concrete definition. It appends exactly that definition's events, records the dependencies the engine typechecked and the result of a finished run, and advances progress by one. |
| SilentTypechecking.SilentTypecheckerPass.TypecheckPending | src/main/kotlin/org/arend/highlight/SilentTypecheckerPass.kt:107-109 | The loop typechecks every pending definition once, in list order, with the list's last element as the "last pending" definition. |
| SilentTypechecking.SilentTypecheckerPass.TypecheckNext | src/main/kotlin/org/arend/highlight/SilentTypecheckerPass.kt:107-109 | One iteration moves the run's state from prefix i to prefix i+1 and advances progress by one. |
| SilentTypechecking.SilentTypecheckerPass.VisitPending | src/main/kotlin/org/arend/highlight/SilentTypecheckerPass.kt:119-122 | DUMB mode records one dumb check per pending definition, in order. |
| SilentTypechecking.SilentTypecheckerPass.TypecheckSingle | src/main/kotlin/org/arend/highlight/SilentTypecheckerPass.kt:94-105 | A single pending definition is typechecked and the list is cleared. If it ended typechecked without errors and is the file's last-modified definition, that field is cleared and the progress limit becomes the group's candidate count after the run. |
| SilentTypechecking.SilentTypecheckerPass.CollectSmart | src/main/kotlin/org/arend/highlight/SilentTypecheckerPass.kt:92-118 | Nothing happens with no pending definitions. With one, the single-definition path runs. With several, every one is typechecked in order. Either way a final line-marker restart follows. |
| SilentTypechecking.SilentTypecheckerPass.CollectInfo | src/main/kotlin/org/arend/highlight/SilentTypecheckerPass.kt:90-127 | The mode dispatch: the SMART cases as above, DUMB's dumb checks with nothing else changed, and OFF changing nothing. Afterwards the file's concrete provider is the empty one in every mode. |
| RedundantParens.IsBinOp | src/main/kotlin/org/arend/inspection/RedundantParensInspection.kt:65-71 | An atom is a binary operator iff it has no field accesses, is a literal, and its long name or its infix/postfix name is an operator. |
| RedundantParens.HasNoLevelArguments | src/main/kotlin/org/arend/inspection/RedundantParensInspection.kt:59-63 | An application without a long-name head has no level arguments. One with a long-name head has none iff that head has neither a `\levels` expression nor atom-only level arguments. |
| RedundantParens.ChildAppExpr | src/main/kotlin/org/arend/inspection/RedundantParensInspection.kt:42 | A child application exists exactly for a `\new`-level expression with no app prefix, no co-clauses and no with-body, and then it is that expression's application. |
| RedundantParens.NeverNeedsParens | src/main/kotlin/org/arend/inspection/RedundantParensInspection.kt:41-57 | The rule holds iff the expression is an atomic `\new`-level expression (no app prefix, no local co-clauses, no with-body; the helper `IsAtomicNew`) around an application with no arguments, no level arguments and an atom head (the helper `IsAtomicApp`) that is not a binary operator. |
| RedundantParens.ParentAtomFieldsAcc | src/main/kotlin/org/arend/inspection/RedundantParensInspection.kt:85-89 | The wrapping atom-with-field-accesses is found iff the tuple's parent is an atom whose parent has no field accesses. |
| RedundantParens.IsRedundantParensForAnyChild | src/main/kotlin/org/arend/inspection/RedundantParensInspection.kt:91-111 | The parent makes parentheses redundant iff it is one of the sixteen listed kinds. A tuple or tuple component is never one of them. |
| RedundantParens.IsRedundantParensInTupleParent | src/main/kotlin/org/arend/inspection/RedundantParensInspection.kt:113-121 | A component with a type annotation, and one inside an implicit argument, is always redundant. So is one of several components of a tuple, unless it is a bare `\case` without with-body or `\return`. Such a bare `\case` under a tuple, or with no grandparent, is not redundant. A redundant one has a colon, or sits in an implicit argument or in a tuple of several components. |
| RedundantParens.IsCommonRedundantParensPattern | src/main/kotlin/org/arend/inspection/RedundantParensInspection.kt:73-83 | The pattern needs the tuple to be alone in an argument-free `\new`-level expression: atom, field-access-free atom, argument-free application, `\new` expression. Given that chain, the pattern holds iff the next ancestor is one of the listed kinds, or a tuple component where the parentheses are redundant. Field accesses (`(f a).1`) or arguments of the parent application (`(f a) b`) rule it out. |
| RedundantParens.IsApplicationUsedAsBinOpArgumentAt | src/main/kotlin/org/arend/inspection/RedundantParensInspection.kt:140-150 | The verdict is positive iff the parent is an infix binop application and the expression is an atomic `\new`-level expression. Its application must have no level arguments and must not itself be an infix application. |
| RedundantParens.LastTupleHole | src/main/kotlin/org/arend/inspection/RedundantParensInspection.kt:128-136 | The result is the position of the last hole that is the tuple, or none when no hole is. |
| RedundantParens.UsedAsBinOpArgumentMeans | src/main/kotlin/org/arend/inspection/RedundantParensInspection.kt:123-138 | The visitor's result holds iff the tuple's parent is a field-access-free atom, the parent application has a concrete form, and the verdict is positive at the last hole that is the tuple. |
| RedundantParens.ApplicationUsedAsBinOpArgument | src/main/kotlin/org/arend/inspection/RedundantParensInspection.kt:123-138 | Scanning the holes and overwriting `result` at each tuple hole yields exactly that characterisation. |
| RedundantParens.ProblemsHolder.RegisterProblem | src/main/kotlin/org/arend/inspection/RedundantParensInspection.kt:34 | Registering appends the problem. |
| RedundantParens.VisitTuple | src/main/kotlin/org/arend/inspection/RedundantParensInspection.kt:26-36 | The inspection reports the tuple exactly once when it unwraps and one of the three rules holds, and otherwise reports nothing. |
| RedundantParens.Splice | src/main/kotlin/org/arend/inspection/RedundantParensInspection.kt:161 | Replacing a range keeps the text before it, puts the new text in its place and keeps the text after it, with the length adjusted accordingly. |
| RedundantParens.SpliceUndo | src/main/kotlin/org/arend/inspection/RedundantParensInspection.kt:161 | Splicing the old range's text back over the inserted text restores the document. |
| RedundantParens.Document.ReplaceString | src/main/kotlin/org/arend/inspection/RedundantParensInspection.kt:161 | `replaceString` splices the new text over the range. |
| RedundantParens.UnwrapParensFix.Invoke | src/main/kotlin/org/arend/inspection/RedundantParensInspection.kt:157-162 | With a document and an unwrapping tuple, the tuple's range is replaced by the unwrapped text. A tuple that does not unwrap leaves the document unchanged. |
| PsiFactory.TrimEnd | src/main/kotlin/org/vclang/lang/core/psi/VcPsiFactory.kt:47 | `trimEnd` returns a prefix that is empty or ends in a non-whitespace character. Everything it removes is whitespace. |
| PsiFactory.TrimEndUnique | src/main/kotlin/org/vclang/lang/core/psi/VcPsiFactory.kt:47 | Those three properties determine the result. |
| PsiFactory.TrimEndKeeps | src/main/kotlin/org/vclang/lang/core/psi/VcPsiFactory.kt:47 | Nothing before a visible character is trimmed. |
| PsiFactory.TrimEndVisible | src/main/kotlin/org/vclang/lang/core/psi/VcPsiFactory.kt:47 | A text that already ends visibly is unchanged. |
| PsiFactory.SpacePrefixedSnoc | src/main/kotlin/org/vclang/lang/core/psi/VcPsiFactory.kt:45 | Adding a telescope at the end adds a space and that telescope. |
| PsiFactory.TelesText | src/main/kotlin/org/vclang/lang/core/psi/VcPsiFactory.kt:45 | `joinToString(" ", " ")` puts one space before every telescope, and is a single space when there is none. |
| PsiFactory.TelesEndWith | src/main/kotlin/org/vclang/lang/core/psi/VcPsiFactory.kt:45 | A non-empty telescope text ends with a space and the last telescope. |
| PsiFactory.FunctionCode | src/main/kotlin/org/vclang/lang/core/psi/VcPsiFactory.kt:42-47 | The code starts with `\function`, is a prefix of the untrimmed text, and never ends in whitespace. Everything it drops from the untrimmed text is whitespace, which by `TrimEndUnique` makes it exactly the trimmed text. |
| PsiFactory.FunctionCodeStartsWithName | src/main/kotlin/org/vclang/lang/core/psi/VcPsiFactory.kt:42-47 | The name survives trimming up to its last visible character, right after `\function `. |
| PsiFactory.FunctionCodeWithExpr | src/main/kotlin/org/vclang/lang/core/psi/VcPsiFactory.kt:42-47 | With a visibly ending result expression the code is the untrimmed text, ending in ` : expr`. |
| PsiFactory.FunctionCodeWithTeles | src/main/kotlin/org/vclang/lang/core/psi/VcPsiFactory.kt:42-47 | With no result expression and a visibly ending last telescope, the code is `\function name` followed by each telescope after one space. |
| PsiFactory.IdentifierCodeShape | src/main/kotlin/org/vclang/lang/core/psi/VcPsiFactory.kt:11-12 | `IdentifierCode` (`createIdentifier`): for a visibly ending name the code is `\function name`. The lone space of the empty telescope list is trimmed, and an empty name gives `\function`. |
| PsiFactory.ExpressionCodeShape | src/main/kotlin/org/vclang/lang/core/psi/VcPsiFactory.kt:53-55 | `ExpressionCode` (`createExpression`): an expression becomes `\function dummy  : e`, with two spaces because the empty telescope list still contributes its space. |
| PsiFactory.LiteralCodeShape | src/main/kotlin/org/vclang/lang/core/psi/VcPsiFactory.kt:57-59 | `LiteralCode` (`createLiteral`): a literal becomes the only telescope, `\function dummy literal`. |
| PsiFactory.PrefixNameCode | src/main/kotlin/org/vclang/lang/core/psi/VcPsiFactory.kt:14-18 | An invalid prefix name is written behind a backtick. A valid one is written as is, as the literal of `\function dummy`. |
| PsiFactory.InfixNameCode | src/main/kotlin/org/vclang/lang/core/psi/VcPsiFactory.kt:20-27 | The name sits between two `dummy` operands, behind a backtick iff it is not a valid infix name, as the result expression of `\function dummy`. |
| PsiFactory.PostfixNameCode | src/main/kotlin/org/vclang/lang/core/psi/VcPsiFactory.kt:29-35 | The name follows one `dummy` operand and is closed by a backtick, as the result expression of `\function dummy`. |

## Left out

- HighlightingPass.ArendHighlightingPass.ResolveReference: requires that the failing segment index lies inside the element list. Otherwise `resolveReference` would index `list` out of bounds; the model assumes the resolver never supplies more resolved references than elements. Text ranges are reduced to whether a range can be computed for the segment. The colours are the highlight kinds.
- HighlightingPass.ArendHighlightingPass.OrderCollected: `Ordering.order` is modelled as appending the definition to the current listener's collector. The ordering engine's dependency traversal, strongly connected components and deduplication are not part of this model.
- HighlightingPass.ArendHighlightingPass.DefinitionResolved: `resetDefinition` with `updateDefinition`, the declaration, alias and class-parameter highlights (`highlightParameters`), `patternResolved` and the `IntentionBackEndVisitor` are left out. They only add editor decorations or notify other services.
- HighlightingPass.ArendHighlightingPass.ApplyInformation: the background typechecker run itself, the task queue, `clearNameResolverErrors` and the base class's `applyInformationWithProgress` are out of scope. A launch is recorded with what it is given.
- SilentTypechecking.SilentTypecheckerPass.TypecheckDefinition: the time limit, blacklisting inside `runTimed` and cancellation checks are inside the oracle `engine`. The warning's text is reduced to an event.
- SilentTypechecking.AfterRunRecords and SilentTypechecking.SilentTypecheckerPass.TypecheckSingle: the engine's outcome for a definition, including the dependency results it reports, does not depend on the typechecker state. A definition that an earlier run already typechecked as a dependency is run again and its entry overwritten with the same oracle's result. Dependency results never overwrite an existing entry.
- SilentTypechecking.SilentTypecheckerPass.VisitPending: `visitDefinition`'s desugaring, the dumb typechecker and the annotators are recorded as one dumb-check event per definition. The base pass's `visitDefinition` overload is not part of this model, so whether it advances `progress` is not captured: the model leaves `progress` unchanged in DUMB mode.
- SilentTypechecking.SilentTypecheckerPass.CollectSmart: `markFileUpToDate` for the ignored passes depends on cancellation and is left out, and so is `checkCanceled`.
- SilentTypechecking.SilentTypecheckerPass.BaseNumberOfDefinitions: the base group pass is not part of this model. Its `numberOfDefinitions` is modelled as `countDefinition` over the group's definitions in order, counting the successes.
- RedundantParens.UnwrapParensFix.Invoke: requires the tuple's offsets to lie inside the document, which holds for any tuple of the file the document belongs to.
- RedundantParens.VisitTuple: the PSI tree, `unwrapParens`, `isBinOp` on names, `parentArgumentAppExpr`, `appExprToConcrete`, `BinOpIntentionUtil` and the concrete visitor's traversal are not part of this model. Their results are given as data (ancestor kinds, flags and the sequence of holes).
- PsiFactory.PrefixNameCode: the exact code text is stated for names that end visibly. For a name ending in whitespace, only `FunctionCode`'s general properties apply.
- PsiFactory.LiteralCodeShape, PsiFactory.ExpressionCodeShape and PsiFactory.IdentifierCodeShape: the shapes are stated for texts that end visibly (and, for identifiers, for the empty name), where trimming is determined.
- Parsing the code text into PSI (`createFromText`, `childOfType`) and the failure branches (`error(...)`) are library code and are left out.
- `TypingVisitor.kt`, `TypeCheckRunConfigurationEditor.kt`, `AbstractArendBlock.kt`, `VcCoClauseImplMixin.kt`, `ArendActions.kt` and `VcPreludeCompletionTest.kt` are context of other features and are not modelled.
- Concurrency and threading (the atomic `updateAndGet` on the modification stamp is modelled as a single update), clocks, notifications and the daemon's scheduling are left out.
