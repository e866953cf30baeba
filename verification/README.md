# noaqh-lint rules in Dafny

This project models the eleven ESLint rules of the noaqh-lint plugin (`src/rules/*.js`). Each rule
becomes a pure function from a syntax tree (and, where the rule reads it, the file name) to the list
of reports ESLint would collect. Lemmas then state what those reports mean.

## Modules

- `Wrappers`: `Option`.
- `Strings`: the JavaScript string operations the rules use. It has `includes`, `startsWith`,
  `endsWith`, `split` (on one separator or a set of them), `indexOf` on arrays, and ASCII
  `toLowerCase`. Each comes with a slice-based reference definition and the lemma that the two agree.
- `Estree`: the ESTree node kinds the rules read, each with the fields they read. Every other kind
  is an `OtherNode` with children. Children are listed in the order the linter visits them.
- `Linter`: the host side.
  - `Collect` is a stateless rule's enter handler applied to every node in pre-order.
  - `Walk` is the depth-first traversal of a stateful rule. Enter handlers run in pre-order and
    `:exit` handlers in post-order. Each handler gets the node's ancestors, which stand in for
    ESLint's `parent` pointers.
- `CheckedParams`: the parameter lists the two parameter rules visit.
- `DeclaredNames`: the four declaration forms that the two method-naming rules visit.
- One module per rule:
  - `DefaultParam`
  - `DataInputParamsArg`
  - `ExpectInIf`
  - `FeaturesImportFlows`
  - `CrossFeatureImport`
  - `FindBySearchByMethod`
  - `WithRelationMethod`
  - `InputOutputParamsType`
  - `PrismaInServer`
  - `TryCatchInServer`
  - `NPlusOneQuery`

### The regular expressions

Each regular expression is modelled as an index-recursive predicate. A lemma ties it to an
`exists`-style reference definition:

- `/With[A-Z]/`
- `/(Input|Output|Params|Result)$/`
- `/^(findBy|searchBy)[A-Z]/`
- `/[/\\]features[/\\]/`
- `/[/\\]features[/\\]([^/\\]+)[/\\]/` and its unanchored twin, modelled as the capture group of
  the leftmost match
- `/\.\.\/.*\.\.\//`, where `.` does not match line terminators

### The stateful rules

`no-n-plus-one-query` and `no-expect-in-if` keep state across the walk. Their state is threaded
through `Walk`. Each exit handler evaluates the same test as its enter handler, on the same node and
the same ancestors.

### Behaviour of the code worth knowing

- **Verb tier.** The N+1 verb tier matches `get` only as the whole name, and the other six verbs
  as prefixes, all ignoring case (src/rules/no-n-plus-one-query.js:25-33, 52).
- **Accessor name.** In `x.getUserRepository().find()` the accessor's name must contain
  `repository`; `repo` alone is not enough (src/rules/no-n-plus-one-query.js:54-61).
- **Awaited calls are checked twice.** An awaited call is checked by the `AwaitExpression` handler
  and again by the `CallExpression` handler (src/rules/no-n-plus-one-query.js:203-213). A classified
  `await repo.find()` inside a loop is therefore reported twice
  (`NPlusOneQuery.AwaitedCallCheckedTwice`).
- **`Promise.all` search.** The search for `Promise.all` climbs through every ancestor, across
  function boundaries (src/rules/no-n-plus-one-query.js:88-103,
  `NPlusOneQuery.PromiseAllAboveAnyAncestor`).
- **Flag, not a stack.** The `Promise.all` state is one boolean, set and cleared by the callback
  handlers (src/rules/no-n-plus-one-query.js:38, 146-201). The exit of any nested `Promise.all`
  callback clears it (`NPlusOneQuery.FlagAfterWalk`).
- **Loops win.** The loop message takes precedence over the `Promise.all` message
  (src/rules/no-n-plus-one-query.js:73-85). A loop inside a `Promise.all` callback gives loop
  reports (`NPlusOneQuery.LoopInsidePromiseAllExample`).
- **Two independent cross-feature checks.** The two checks of `no-cross-feature-import` run one
  after the other on every import (src/rules/no-cross-feature-import.js:37-50, 54-84), so one import
  can be reported twice (`CrossFeatureImport.BothChecksReportTwice`).
  - The sibling check compares against the path part after the first part named `features`
    (src/rules/no-cross-feature-import.js:76-78).
  - The features check compares against the regular-expression capture
    (src/rules/no-cross-feature-import.js:39-43).
- **Single `../` step.** A specifier with a single `../` is left alone only when it does not contain
  `/features/` (src/rules/no-cross-feature-import.js:37, 54-68,
  `CrossFeatureImport.SingleUpStepNeverReported`).
- **Nothing after the steps.** The sibling check needs a part after the `..` parts
  (src/rules/no-cross-feature-import.js:70-71). `../../..` is never reported by it, but `../../../`
  is, because the trailing separator leaves an empty part
  (`CrossFeatureImport.ClimbThreeTrailingSeparator`).

## Model

| member | source | states |
|---|---|---|
| CheckedParams.ParamsChecked | src/rules/no-default-param.js:46-67 | Function declarations, function expressions and arrow functions have exactly their own parameters checked. A method definition has those of its function value. No other node has any. |
| CheckedParams.MethodParamsCheckedTwice | src/rules/no-default-param.js:52-67 | A class method's parameters are checked twice, once at the MethodDefinition and once at its FunctionExpression value, because the walk visits both. |
| DeclaredNames.CheckedName | src/rules/no-findby-searchby-method.js:40-79 | For each of the four forms, a name is checked exactly when the method key, function id, declarator id or property key is a plain identifier; for a declarator or property the value must also be a function. The name checked is that identifier's. No other node has a name checked. |
| DefaultParam.DisplayName | src/rules/no-default-param.js:25-32 | The reported name is the identifier's own name; otherwise `{...}` exactly for an object pattern, `[...]` exactly for an array pattern, else `unknown`. |
| DefaultParam.ParamListReports | src/rules/no-default-param.js:22-44 | Over a parameter list the reports are exactly one per parameter with a default value, in parameter order. |
| DefaultParam.ReportsAreDirectDefaults | src/rules/no-default-param.js:22-67 | Every report is a default-value report on an AssignmentPattern that is itself a parameter of some visited function or method. |
| DefaultParam.OnlyFunctionsReport | src/rules/no-default-param.js:46-67 | Nodes other than the four function forms report nothing. |
| DefaultParam.MethodDefaultReportedTwice | src/rules/no-default-param.js:62-67 | `m(url, timeout = v)` in a class gives the same timeout report twice. |
| DefaultParam.ArrowDefaultExample | src/rules/no-default-param.js:57-60 | `(url, timeout = 5000) => {}` gives one report naming `timeout`. |
| DefaultParam.DestructuredDefaultExample | src/rules/no-default-param.js:28-29 | A defaulted destructured parameter `({ a } = d) => {}` is reported under the name `{...}`. |
| DefaultParam.InnerDefaultExample | src/rules/no-default-param.js:22-24 | A default inside a destructuring pattern, `({ a = v }) => {}`, is not a parameter default and is not reported. |
| DataInputParamsArg.CaseInsensitive | src/rules/no-data-input-params-arg.js:26-28 | Two parameter names with the same lower-case form are either both forbidden or both allowed. |
| DataInputParamsArg.ParamListReports | src/rules/no-data-input-params-arg.js:24-41 | Over a parameter list the reports are exactly one per plain identifier whose lower-cased name is in the forbidden list, in order. |
| DataInputParamsArg.ReportsAreForbiddenParams | src/rules/no-data-input-params-arg.js:22-65 | Every report is on a forbidden identifier parameter of a visited function, carrying the name as written. |
| DataInputParamsArg.NameExamples | src/rules/no-data-input-params-arg.js:22-35 | `data`, `Data` and `OPTIONS` are forbidden; `userData`, `userId`, a defaulted `data` and a destructured `{ data }` are not. |
| DataInputParamsArg.MethodParamReportedTwice | src/rules/no-data-input-params-arg.js:60-64 | A class method taking `data` is reported twice for that parameter. |
| ExpectInIf.IsExpectCallLoop | src/rules/no-expect-in-if.js:24-46 | The loop that climbs a member-call chain returns exactly the recursive `IsExpectCall` verdict. |
| ExpectInIf.ExpectCallsAreChains | src/rules/no-expect-in-if.js:24-46 | A node counts as an expect call if and only if it is `expect(args)` followed by zero or more `.m(args)` method calls. |
| ExpectInIf.DepthRestored | src/rules/no-expect-in-if.js:49-55 | Walking any subtree leaves `ifDepth` as it found it. |
| ExpectInIf.InsideIfCollects | src/rules/no-expect-in-if.js:57-64 | Inside an `if`, a subtree reports every expect call it contains, in visiting order. |
| ExpectInIf.IfStatementReportsItsExpects | src/rules/no-expect-in-if.js:49-64 | An outermost `if` reports every expect call in its test and branches, however deeply nested. |
| ExpectInIf.NoIfNoReports | src/rules/no-expect-in-if.js:49-64 | Code containing no `if` statement reports nothing. |
| ExpectInIf.ChainedAssertionCountsTwice | src/rules/no-expect-in-if.js:24-64 | `expect(a).toBe(b)` yields two reports, the outer call's and then the inner `expect(a)`'s. |
| FeaturesImportFlows.InFeaturesDirSpec | src/rules/no-features-import-flows.js:24 | The file-name test holds exactly when `features` occurs between two path separators somewhere. |
| FeaturesImportFlows.LintReportsFlowsImports | src/rules/no-features-import-flows.js:21-46 | In a features file, every import whose specifier names a `flows` directory is reported once, in order; other files get no reports. |
| FeaturesImportFlows.AliasImportFlagged | src/rules/no-features-import-flows.js:37 | `@/flows/checkout` is flagged. |
| FeaturesImportFlows.RelativeImportFlagged | src/rules/no-features-import-flows.js:37 | `../../flows/checkout` is flagged. |
| FeaturesImportFlows.BackslashImportFlagged | src/rules/no-features-import-flows.js:38 | `..\flows\checkout` is flagged. |
| FeaturesImportFlows.BareImportFlagged | src/rules/no-features-import-flows.js:39 | `flows/checkout` is flagged by the anchored test. |
| FeaturesImportFlows.NoTrailingSeparatorMiss | src/rules/no-features-import-flows.js:37-39 | `../flows` (no separator after it) is not flagged. |
| FeaturesImportFlows.MixedSeparatorsMiss | src/rules/no-features-import-flows.js:37-39 | `..\flows/checkout` is not flagged: neither form's two separators match. |
| FeaturesImportFlows.LongerNameMiss | src/rules/no-features-import-flows.js:37-39 | `./flowsHelper` is not flagged. |
| FeaturesImportFlows.SlashFilenameExample | src/rules/no-features-import-flows.js:24 | `/src/features/user/a.ts` enables the rule. |
| FeaturesImportFlows.BackslashFilenameExample | src/rules/no-features-import-flows.js:24 | A Windows path `C:\app\features\user\a.ts` enables the rule. |
| FeaturesImportFlows.FilenameNearMisses | src/rules/no-features-import-flows.js:24-27 | A path that starts with `features/`, or has a part merely ending in `features`, does not enable the rule. |
| TryCatchInServer.LintReportsEveryTry | src/rules/no-try-catch-in-server.js:21-38 | In a server file every try statement is reported once, in order; other files get no reports. |
| TryCatchInServer.ServerFileSuffixes | src/rules/no-try-catch-in-server.js:22-26 | Any path ending in `+server.ts`, `+page.server.ts`, `+server.js` or `+page.server.js` is a server file. |
| TryCatchInServer.NotServerFileBy | src/rules/no-try-catch-in-server.js:22-26 | Any name, of any length or extension, with no `+` ten or fifteen places from its end (where the four suffixes would start) is not a server file. |
| TryCatchInServer.OtherFileExamples | src/rules/no-try-catch-in-server.js:22-26 | `users.server.ts`, `hooks.server.ts` and `+page.ts` are not server files for this rule. |
| TryCatchInServer.NestedTryExample | src/rules/no-try-catch-in-server.js:33-38 | A try inside a try in `+server.ts` gives two reports, outer first. |
| PrismaInServer.LintReportsFlaggedNodes | src/rules/no-prisma-in-server.js:21-61 | In an active file every prisma import and every member access on an object named prisma (in any case) is reported once, in order; other files get none. |
| PrismaInServer.ExactSourceRedundant | src/rules/no-prisma-in-server.js:40-43 | The exact `@prisma/client` test adds nothing: an import is flagged exactly when its source contains `prisma`. |
| PrismaInServer.TryCatchFilesAreServerFiles | src/rules/no-prisma-in-server.js:23-31 | Every file the try-catch rule treats as a server file, other than a hooks file, is active for this rule. |
| PrismaInServer.HooksFileExempt | src/rules/no-prisma-in-server.js:23-25 | `hooks.server.ts` would pass the server-file test, yet such a file gets no reports. |
| PrismaInServer.ChainedAccessReportedOnce | src/rules/no-prisma-in-server.js:51-61 | `prisma.user.findMany` is reported once, on the inner `prisma.user`. |
| PrismaInServer.ImportExamples | src/rules/no-prisma-in-server.js:40-43 | `@prisma/client` and `$lib/server/prisma` imports are flagged. |
| PrismaInServer.CapitalisedImportExample | src/rules/no-prisma-in-server.js:42 | The source test is case-sensitive: `$lib/server/Prisma` is not flagged. |
| PrismaInServer.AccessExamples | src/rules/no-prisma-in-server.js:52-55 | `Prisma.TransactionClient` is flagged (name compared in lower case); `this.prisma.user` is not (the object is not an identifier). |
| InputOutputParamsType.TypeName | src/rules/no-input-output-params-type.js:43-54 | A name is checked exactly for type aliases and interfaces whose id is an identifier, and it is that identifier's name. |
| InputOutputParamsType.PatternIsSuffix | src/rules/no-input-output-params-type.js:26-29 | The pattern holds exactly when the name ends in `Input`, `Output`, `Params` or `Result`. |
| InputOutputParamsType.LintReportsFlaggedTypes | src/rules/no-input-output-params-type.js:31-54 | Every flagged type alias or interface is reported once, in order, with its name as data. |
| InputOutputParamsType.NameExamples | src/rules/no-input-output-params-type.js:26-29 | `CreateHearingSheetInput`, `SearchParams` and a bare `Result` are flagged; `InputForm`, `UserInputs` and `Userinput` are not. |
| InputOutputParamsType.DeclarationExamples | src/rules/no-input-output-params-type.js:43-54 | Of `interface CreateUserInput` and `type User` only the interface is reported. |
| FindBySearchByMethod.PatternIsPrefixThenCapital | src/rules/no-findby-searchby-method.js:26-29 | The pattern holds exactly when the name starts with `findBy` or `searchBy` followed by an ASCII capital. |
| FindBySearchByMethod.LintReportsFlaggedDeclarations | src/rules/no-findby-searchby-method.js:31-79 | Every declaration form whose checked name matches is reported once, in order. |
| FindBySearchByMethod.NameExamples | src/rules/no-findby-searchby-method.js:26-29 | `findById` and `searchByTitle` match; `findBy`, `findByid`, `FindById`, `findAll` and `userFindById` do not. |
| FindBySearchByMethod.DeclarationExamples | src/rules/no-findby-searchby-method.js:55-66 | `const findById = () => {}` is flagged, but not when initialised with a non-function or when merely called. |
| FindBySearchByMethod.PropertyDeclarationExample | src/rules/no-findby-searchby-method.js:68-79 | `{ searchByTitle: function () {} }` is flagged. |
| FindBySearchByMethod.ClassExample | src/rules/no-findby-searchby-method.js:40-46 | A class with `findById()` and `find()` gets one report, on `findById`. |
| WithRelationMethod.HasWithPatternSpec | src/rules/no-with-relation-method.js:32-36 | The pattern holds exactly when `With` followed by an ASCII capital occurs somewhere in the name. |
| WithRelationMethod.LintReportsFlaggedDeclarations | src/rules/no-with-relation-method.js:21-86 | In a file whose path contains `Repository` every matching declaration is reported once, in order; other files get none. |
| WithRelationMethod.PositiveNameExamples | src/rules/no-with-relation-method.js:32-36 | `findByIdWithEbayListing` and `getProductWithRelations` match. |
| WithRelationMethod.NegativeNameExamples | src/rules/no-with-relation-method.js:32-36 | `withItems`, `findWith`, `findWithout` and `findWITHItems` do not match. |
| WithRelationMethod.MethodDeclarationWalk | src/rules/no-with-relation-method.js:47-53 | A class method is reported exactly when its name matches. |
| WithRelationMethod.RepositoryFileExample | src/rules/no-with-relation-method.js:21-26 | `findWithItems()` in `userRepository.ts` is reported. |
| WithRelationMethod.OtherFileExamples | src/rules/no-with-relation-method.js:21-26 | The same method in `userService.ts` or lower-case `repository.ts` is not. |
| NPlusOneQuery.ClassificationByTiers | src/rules/no-n-plus-one-query.js:40-71 | A call is classified exactly when the receiver tier or the verb tier matches and the member name is non-empty, and it is classified by that name. |
| NPlusOneQuery.ReceiverTierClassifies | src/rules/no-n-plus-one-query.js:42-49 | A call on a receiver whose lower-cased name contains `repo` is classified by its member name, whatever the verb. |
| NPlusOneQuery.ReceiverTierExample | src/rules/no-n-plus-one-query.js:42-49 | `orderRepository.findAll()` is classified as `findAll`. |
| NPlusOneQuery.VerbTierExample | src/rules/no-n-plus-one-query.js:51-62 | `container.getUserRepository().findById()` is classified as `findById` through the accessor. |
| NPlusOneQuery.PlainReceiverExample | src/rules/no-n-plus-one-query.js:40-67 | `mathUtils.findMax()` is not classified. |
| NPlusOneQuery.NonVerbExample | src/rules/no-n-plus-one-query.js:51-62 | A non-verb member behind a repository accessor (`container.getUserRepository().getUser()`) is not classified: `get` matches only as the whole name. |
| NPlusOneQuery.OtherShapesExample | src/rules/no-n-plus-one-query.js:40-67 | `this.userRepository.findById()` (receiver not an identifier), a bare `findUsers()` and a member without a name are not classified. |
| NPlusOneQuery.PromiseAllAboveAnyAncestor | src/rules/no-n-plus-one-query.js:88-103 | The climb finds `Promise.all` exactly when some ancestor at or above the given one is a `Promise.all(...)` call. |
| NPlusOneQuery.CheckCall | src/rules/no-n-plus-one-query.js:69-86 | At most one report; one exactly for a classified call in a loop or a `Promise.all` callback; the loop message wins, and the report carries the method name. |
| NPlusOneQuery.LoopDepthRestored | src/rules/no-n-plus-one-query.js:105-201 | Walking any subtree leaves `loopDepth` as it found it. |
| NPlusOneQuery.FlagAfterWalk | src/rules/no-n-plus-one-query.js:146-201 | After a subtree the flag is set exactly when it was set before and the subtree holds no `Promise.all` callback. |
| NPlusOneQuery.WalkRestoresState | src/rules/no-n-plus-one-query.js:105-201 | Starting with the flag clear, a walk ends in the state it started in, so every file ends at the initial state. |
| NPlusOneQuery.ReportsAreClassifiedCalls | src/rules/no-n-plus-one-query.js:69-213 | Soundness: every report is on a classified call, carries that method name and uses one of the two messages. |
| NPlusOneQuery.InsideLoopCollects | src/rules/no-n-plus-one-query.js:69-213 | Completeness inside a loop scope: a subtree reports exactly its classified calls and awaited calls, in visiting order, each with the loop message, whatever the flag and whatever scopes it opens. |
| NPlusOneQuery.LoopScopeCollects | src/rules/no-n-plus-one-query.js:105-201 | A loop statement, or an iteration callback not under `Promise.all`, entered outside any loop reports exactly the classified calls and awaited calls below it, with the loop message. |
| NPlusOneQuery.InsidePromiseAllCollects | src/rules/no-n-plus-one-query.js:69-213 | Completeness inside a `Promise.all` callback and outside every loop: a subtree that opens no further scope reports exactly its classified calls and awaited calls, in visiting order, each with the `Promise.all` message, and leaves the state unchanged. |
| NPlusOneQuery.NoScopeNoReports | src/rules/no-n-plus-one-query.js:105-213 | Code with no loop and no iteration callback, walked outside every scope, reports nothing. |
| NPlusOneQuery.AwaitedCallCheckedTwice | src/rules/no-n-plus-one-query.js:203-213 | `await c` reports the verdict on `c` twice, once from each handler. |
| NPlusOneQuery.UserRepositoryVerdicts | src/rules/no-n-plus-one-query.js:69-86 | `userRepository.findById()` gets the loop message in a loop, the `Promise.all` message in a callback, and nothing outside. |
| NPlusOneQuery.LoopExample | src/rules/no-n-plus-one-query.js:122-128 | The call inside a `for...of` body is reported once with the loop message. |
| NPlusOneQuery.TopLevelCallQuiet | src/rules/no-n-plus-one-query.js:69-86 | The same call outside every loop is not reported. |
| NPlusOneQuery.PromiseAllCallbackWalk | src/rules/no-n-plus-one-query.js:146-201 | A `Promise.all` callback walks its body with the flag set and no loop, and ends with the flag cleared. |
| NPlusOneQuery.OuterCallWalk | src/rules/no-n-plus-one-query.js:69-86 | A call `r.m(x)` walked outside every scope reports only what its argument reports. |
| NPlusOneQuery.PromiseAllBodyWalk | src/rules/no-n-plus-one-query.js:88-201 | `Promise.all(r.m(() => { body }))` reports what the body reports when walked with the flag set. |
| NPlusOneQuery.PromiseAllBodyCollects | src/rules/no-n-plus-one-query.js:69-213 | `Promise.all(r.m(() => { body }))` with no loop or iteration callback in the body reports exactly the body's classified calls and awaited calls, with the `Promise.all` message. |
| NPlusOneQuery.PromiseAllExample | src/rules/no-n-plus-one-query.js:146-160 | `Promise.all(ids.map(() => userRepository.findById()))` gives one `Promise.all` report and no loop report. |
| NPlusOneQuery.LoopInsidePromiseAllExample | src/rules/no-n-plus-one-query.js:73-160 | A `for` loop inside a `Promise.all(ids.map(...))` callback: its `userRepository.findById()` gets exactly one report, with the loop message. |
| NPlusOneQuery.MapWithoutPromiseAllExample | src/rules/no-n-plus-one-query.js:146-160 | The same `map` callback outside `Promise.all` counts as a loop and gives one loop report. |
| CrossFeatureImport.FirstMarkerIsLeftmost | src/rules/no-cross-feature-import.js:24-29 | The captured feature is the name in the leftmost `<sep>features<sep><name><sep>` occurrence. |
| CrossFeatureImport.FirstMarkerNone | src/rules/no-cross-feature-import.js:24-27 | There is no capture exactly when no occurrence exists. |
| CrossFeatureImport.FeatureFilesAreInFeaturesDir | src/rules/no-cross-feature-import.js:24-27 | A file that has a feature also passes the flows rule's features-directory test. |
| CrossFeatureImport.ReportsOnlyInFeatureFiles | src/rules/no-cross-feature-import.js:24-27 | Only files with a features directory and a closed feature name get reports. |
| CrossFeatureImport.ReportsAreOnImports | src/rules/no-cross-feature-import.js:32-87 | Every report is the cross-feature report on an import declaration. |
| CrossFeatureImport.FeatureCheckNamesOtherFeature | src/rules/no-cross-feature-import.js:37-49 | The first check fires exactly when the specifier contains `/features/` or two `../` on one line, and its leftmost `features<sep><name><sep>` names another feature. |
| CrossFeatureImport.NoFeaturesNoFeatureCheck | src/rules/no-cross-feature-import.js:37-49 | A specifier without `features` never fires the first check. |
| CrossFeatureImport.SiblingCheckByShape | src/rules/no-cross-feature-import.js:54-84 | For `k` steps up, a target part and the rest, the second check fires exactly when `k >= 3`, the target is not allow-listed and it differs from the file's feature directory. |
| CrossFeatureImport.SiblingNeedsTwoUpSteps | src/rules/no-cross-feature-import.js:54-68 | The second check only fires on specifiers beginning with `../../`, which also meet the first check's path test. |
| CrossFeatureImport.SingleUpStepNeverReported | src/rules/no-cross-feature-import.js:37-68 | A specifier with at most one `../` and no `/features/` is never reported. |
| CrossFeatureImport.BothChecksReportTwice | src/rules/no-cross-feature-import.js:37-84 | When both checks fire on one import, it is reported twice. |
| CrossFeatureImport.ExampleFileFeature | src/rules/no-cross-feature-import.js:24-29 | `src/features/user/command/create/handler.ts` belongs to feature `user`. |
| CrossFeatureImport.ExampleFileSibling | src/rules/no-cross-feature-import.js:76-78 | From that file, a target differs from the feature directory exactly when it is not `user`. |
| CrossFeatureImport.ClimbIntoOtherFeatureReportedTwice | src/rules/no-cross-feature-import.js:32-87 | `../../../features/other/x` from that file is reported twice, once by each check. |
| CrossFeatureImport.BareClimbNeverSibling | src/rules/no-cross-feature-import.js:54-71 | A specifier made only of `..` parts leaves nothing after the steps, so the second check never fires on it. |
| CrossFeatureImport.ClimbThreeWithoutTarget | src/rules/no-cross-feature-import.js:68-71 | `../../..` is never reported by the second check. |
| CrossFeatureImport.ClimbThreeTrailingSeparator | src/rules/no-cross-feature-import.js:56-84 | `../../../` leaves an empty part after three steps, which the second check reports. |
| CrossFeatureImport.ClimbIntoSiblingFeature | src/rules/no-cross-feature-import.js:54-84 | `../../../product/utils` fires only the second check. |
| CrossFeatureImport.ClimbIntoOwnFeature | src/rules/no-cross-feature-import.js:76-78 | `../../../user/query/get-user` fires neither check. |
| CrossFeatureImport.ClimbIntoSharedDirectory | src/rules/no-cross-feature-import.js:74 | `../../../utils/date` is allow-listed and fires neither check. |
| CrossFeatureImport.TwoStepsQuiet | src/rules/no-cross-feature-import.js:68 | `../../product/utils` is below the three-step threshold and fires neither check. |
| CrossFeatureImport.AliasImportOfOtherFeature | src/rules/no-cross-feature-import.js:37-49 | `@/features/product/api` fires the first check only. |
| CrossFeatureImport.AliasImportOfOwnFeature | src/rules/no-cross-feature-import.js:37-49 | `@/features/user/api` fires neither check. |

## Left out

- Plugin registration (`src/index.js`), rule `meta`, message texts and their `{{name}}` templating are not modelled. A report is its message id, its node and its `data` map.
- ESLint's selector engine is not modelled. The `CallExpression > ArrowFunctionExpression` selectors are written as tests on the node and its parent. Parent pointers are replaced by the ancestor sequence passed to each handler.
- Source positions, fixes and suggestions are left out: the rules use none of them.
- `context.filename || context.getFilename()` is modelled as one `filename` parameter, because both give the same string.
- `toLowerCase` is modelled on ASCII letters only. Unicode case mapping is left out because every name the rules compare against is ASCII.
- The syntax tree keeps only the node kinds and fields the rules read. Other kinds are `OtherNode`.
  - `PrivateIdentifier` keys and TypeScript parameter properties are not distinguished.
  - A name exists only on an `Identifier`.
