# opensphere-jscodeshift codemods, modelled in Dafny

This project models the core of the opensphere-jscodeshift codemods. These
jscodeshift transforms move Closure Library code (`goog.provide`,
`goog.require`, Closure classes built from constructor functions and
prototypes) to `goog.module` files, ES6 classes and ES module imports. They
also rewrite a handful of `goog.*` helpers into plain JavaScript.

The JavaScript syntax tree is a Dafny datatype (`Ast.Node`). A file is a
`Program` object whose `body` is a sequence of statements, and the
transforms rewrite that body in place. The process-wide tables live in
classes whose methods update them: the class registry, the global-reference
rules and the logger. Each transform is proved against a specification
function. Lemmas then state what the transform promises: completeness of a
rewrite, which statements are kept, sorting and permutation of the
requires and imports, first-wins bookkeeping, round trips of the naming
rules, and the error paths where the JavaScript throws.

Modules, one per source file or concern:

- Foundations: `Wrappers`, `Strings`, `Seqs`, `Sorting`, `Ast`, `Logger`.
- Utilities: `AstUtils`, `Jscs`, `Goog`, `GoogRequire`, `Es6`, `Imports`, `Deps`, `Karma`, `ClassRegistry`, `OpenSphere`, `ResolveThis`, `Shim`, `ModuleDeps`.
- Class conversion: `ClassComments`, `ClassNames`, `ClassPass`, `Classes`, `ClassModules`.
- Transforms: `ArrayRules`, `CallToBinary`, `CallToBinaryScript`, `ExportProperty`, `FixRequires`, `RequireToImport`, `ToEs6Class`, `ProvideToModule`.

## Model

| member | source | states |
|---|---|---|
| ArrayRules.OlArrayCall | src/transforms/goog/array/find.js:55-57 | the replacement built by `createCall('ol.array.<name>', args)` exists and is a call of `ol.array.<name>` |
| ArrayRules.FindRuleSpares | src/transforms/goog/array/find.js:14-41 | the find rule turns a matched `goog.array.find`/`findIndex` call with two bound arguments into an `ol.array` call on the bound arguments, leaves every other node, and never touches a require |
| ArrayRules.FindReplacementClean | src/transforms/goog/array/find.js:54-68 | a replacement holds no matched call when the replaced call's subtrees hold none |
| ArrayRules.FindPassComplete | src/transforms/goog/array/find.js:54-68 | after a pass no `goog.array.<name>` call with two bound arguments is left anywhere in the file |
| ArrayRules.ReplaceFind | src/transforms/goog/array/find.js:49-75 | with nothing replaced the file is unchanged; otherwise both passes run and `ol.array` is required after the first require, and the file is left as it was (with a failure) when it has no require |
| ArrayRules.ClearRuleSpec | src/transforms/goog/array/clear.js:35-42 | a one-argument `goog.array.clear(a)` becomes `a.length = 0`; every other node is unchanged |
| ArrayRules.ClearComplete | src/transforms/goog/array/clear.js:35-42 | no one-argument `goog.array.clear` call is left anywhere |
| ArrayRules.ReplaceClear | src/transforms/goog/array/clear.js:32-45 | the body becomes the rewrite of every matched call, and no matched call is left |
| ArrayRules.ForEachRuleSpec | src/transforms/goog/array/foreach.js:35-42 | a `goog.array.forEach(a, f, ...)` call with two or more arguments becomes `a.forEach(f, ...)` with the remaining arguments; every other node is unchanged |
| ArrayRules.ForEachRebuilt | src/transforms/goog/array/foreach.js:35-42 | rebuilding a node from its rewritten children does not make it a call on `goog.array` |
| ArrayRules.ForEachReplacementClean | src/transforms/goog/array/foreach.js:38-40 | the replacement of a call whose array is not `goog.array` holds no matched call |
| ArrayRules.ForEachComplete | src/transforms/goog/array/foreach.js:35-42 | unless some call passes `goog.array` itself as the array, no matched `forEach` call is left in a rewritten node |
| ArrayRules.ForEachAllComplete | src/transforms/goog/array/foreach.js:35-42 | the same for a whole statement list |
| ArrayRules.ReplaceForEach | src/transforms/goog/array/foreach.js:32-45 | the body becomes the rewrite of every matched call, and no matched call is left when no call passes `goog.array` as the array |
| AstUtils.CreateFindMemberExprObjectShape | src/utils/ast.js:19-42 | the pattern built from no segments is missing, from one segment is `{property: {name}}`, and from two or more is the left-nested chain of `object`/`property` names |
| AstUtils.ChainMatchesSegments | src/utils/ast.js:19-42 | a chain pattern matches exactly the identifier chains with the same segments |
| AstUtils.PathAndSegmentsAgree | src/utils/ast.js:20 | splitting a dotted path at `.` and passing the segments array build the same pattern |
| AstUtils.IsCallChain | src/utils/ast.js:62-66 | for a path of two or more segments `isCall` recognises exactly the calls whose callee is that identifier chain |
| AstUtils.HasVarDeclared | src/utils/ast.js:51-53 | a variable statement whose first declarator binds the identifier `name` makes `hasVar(root, name)` hold |
| AstUtils.ReplaceFunctionExpressionWithArrow | src/utils/ast.js:73-90 | the result is present exactly for a function expression; it is an arrow with the same parameters and comments and the `expression` flag unset; a body that is a single `return` gives the returned expression as the arrow's body, and any other body is kept as the block |
| AstUtils.ArrowKeepsBody | src/utils/ast.js:73-90 | converting back loses nothing: the block of the arrow (the returned expression wrapped in a `return` again) is the function's own body |
| AstUtils.RewriteMatches | src/utils/ast.js:19-42 | rewriting calls into calls changes no node's match against a member pattern |
| CallToBinary.GetLeftSide | src/calltobinary.js:117-125 | a function option is called on the call, a non-function option is returned as it is, and without an option the left side is the first argument, missing when there is none |
| CallToBinary.ConvertAtCases | src/calltobinary.js:137-153 | `!f(x)` with a left side becomes `left notExpression right`, `f(x)` elsewhere becomes `left expression right`, and a call without a left side is left as it is |
| CallToBinary.NothingReplaceableUnchanged | src/calltobinary.js:137-153 | a tree without a replaceable call is left as it is |
| CallToBinary.CallToBinaryIn | src/calltobinary.js:133-156 | the file's statements become their converted form; the warnings logged and the comments deleted are those of the walks from every replaced call, in the order `root.find` lists them, each read on the tree as the earlier replacements left it |
| CallToBinary.WalkAfter | src/calltobinary.js:141-151 | after one replacement the walk logs the warning and deletes the comments that `Step` gives |
| CallToBinary.Step | src/calltobinary.js:73-109 | the walk from one replaced call logs at most one warning |
| CallToBinary.WalksWarnAtMostOnce | src/calltobinary.js:137-153 | the whole pass logs at most one warning per replaced call |
| CallToBinary.StepKeeps | src/calltobinary.js:77-92 | a walk changes no position but the replaced one except by deleting comments, and only on an object literal ancestor |
| CallToBinary.WalksKeep | src/calltobinary.js:137-153 | the same for all the walks of a pass, at every position no call replaced |
| Ast.SitesAreMatches | src/calltobinary.js:137 | the paths `root.find` hands to `forEach` are exactly the matches: a narrower test holds somewhere in the file exactly when it holds at one of them |
| Ast.SitesAreCollected | src/utils/classes.js:642 | the paths of a search hold the nodes of the same search over the tree, in the same pre-order |
| CallToBinary.ConvertClears | src/calltobinary.js:137-153 | when no left side the options give holds a replaceable call, a converted tree holds none below its root, and its root is replaceable only when it sits under a `!` |
| CallToBinary.ConvertStatementsClear | src/calltobinary.js:137-153 | under the same condition no call the transform would replace is left in the file |
| CallToBinary.LeftArgClean | src/calltobinary.js:124 | the default left side, the call's first argument, meets that condition whenever the right side holds no replaceable call |
| CallToBinary.ContainsComplete | src/transforms/goog/string/contains.js:34-56 | no `goog.string.contains(s, v)` call is left in a converted file |
| CallToBinary.FirstArgumentTablesComplete | src/transforms/goog/isdef.js:9-18 | for `goog.isDef`, `goog.isDefAndNotNull`, `goog.isNull`, `goog.isNumber` and `goog.isString`, no call with an argument is left in a converted file |
| CallToBinary.TypeofTablesComplete | src/transforms/goog/isboolean.js:10-20 | the same for `goog.isBoolean` and `goog.isFunction`, whose left side is `typeof` of the argument |
| CallToBinary.TypeofClean | src/transforms/goog/isboolean.js:10-20 | a `typeof` left side with a literal right side meets the condition of `ConvertClears` |
| CallToBinary.GetLogWarningPrefix | src/calltobinary.js:38-41 | the prefix is `file: ` without a line and `file:line: ` with one |
| CallToBinary.PrefixShapes | src/calltobinary.js:38-41 | the prefixes with and without a line differ, and the one with a line starts with `file:` |
| CallToBinary.FirstStop | src/calltobinary.js:73-109 | the walk stops at the first ancestor, from the parent outwards, where a return or conditional hazard holds, and at the root when none does |
| CallToBinary.TestForJsdocWarning | src/calltobinary.js:73-109 | with no hazard nothing changes; under a `return` the object's comments are deleted and the return warning is logged; at a conditional only the conditional warning is logged |
| CallToBinary.DeletesOnlyUnderReturn | src/calltobinary.js:77-92 | comments are deleted only on the commented, parenthesized object literal directly under a `return`, and on no other ancestor |
| CallToBinary.AlternateIgnored | src/calltobinary.js:95 | the alternate of a conditional never affects the walk |
| CallToBinary.ContainsForms | src/transforms/goog/string/contains.js:34-56 | `goog.string.contains(s, v)` becomes `s.indexOf(v) != -1`, its negation `s.indexOf(v) == -1`, and a call with another number of arguments is unchanged |
| CallToBinary.IsDefForms | src/transforms/goog/isdef.js:9-18 | `goog.isDef(x)` becomes `x !== undefined`, `!goog.isDef(x)` becomes `x === undefined`, and a call with no argument is unchanged |
| CallToBinary.IsBooleanForm | src/transforms/goog/isboolean.js:10-20 | `goog.isBoolean(x)` becomes `typeof x === 'boolean'` |
| CallToBinaryScript.ReplaceCallWithBinaryExpression | scripts/calltobinary.js:55-78 | the outcome and the text written are those of the run over the matched calls in `root.find` order; a failure leaves the file; otherwise every matched call is replaced with its first argument as the left side |
| CallToBinaryScript.ScriptRun | scripts/calltobinary.js:60-75 | the run throws only for a matched call without an argument or a warning read from a node without a location, and what was written before stays written |
| CallToBinaryScript.ReplaceAt | scripts/calltobinary.js:61-74 | one matched call: the builder throws without an argument, and otherwise the walk's outcome and text |
| CallToBinaryScript.ForEachMatch | scripts/calltobinary.js:60-75 | the `forEach` gives the outcome and text of the run |
| CallToBinaryScript.ScriptFailsWithoutArgument | scripts/calltobinary.js:62-71 | a matched call without an argument anywhere in the file makes the transform fail |
| CallToBinaryScript.ScriptPassesWhenLocated | scripts/calltobinary.js:23-36 | when every matched call has an argument and every node has a location, the transform does not fail |
| CallToBinaryScript.ScriptComplete | scripts/calltobinary.js:60-75 | after a pass no matched call with an argument is left, when the right side holds none |
| CallToBinaryScript.SameAsFirstArgument | scripts/calltobinary.js:61-74 | with an argument, the older rewrite replaces a call exactly as the newer one does without a `leftSide` option |
| CallToBinaryScript.ScriptStop | scripts/calltobinary.js:14-46 | the older walk stops at the first ancestor with one of its two hazards, and at the root when none holds |
| CallToBinaryScript.TestForJsdocWarningScript | scripts/calltobinary.js:14-46 | with no hazard nothing is written; at a hazard the warning text is written, and reading the line of a node without a location fails |
| CallToBinaryScript.WalksDiffer | scripts/calltobinary.js:14-46 | a commented, parenthesized alternate stops the older walk but not the newer one, and comments held only in the `comments` array are seen by the newer walk alone |
| ClassComments.DropBothBounds | src/utils/classes.js:131-137 | shifting blank lines off the front and popping them off the end keeps one slice of the lines, with only blank lines outside it and none at its ends |
| ClassComments.DropBothIdempotent | src/utils/classes.js:131-137 | dropping again from what is left drops nothing |
| ClassComments.StrippedSpec | src/utils/classes.js:131-137 | the kept lines are one contiguous run, everything before and after it is blank, and it neither starts nor ends with a blank line |
| ClassComments.StrippedIdempotent | src/utils/classes.js:131-137 | stripping the stripped lines keeps all of them |
| ClassComments.CommentBlockShape | src/utils/classes.js:139-145 | every rebuilt block starts with `*` and a newline and ends with a newline and ` `; when no line holds a newline, splitting it at newlines gives `*`, the kept lines and ` ` |
| ClassComments.CreateCommentBlockFromParts | src/utils/classes.js:129-146 | the loops return the text of the rebuilt block |
| ClassComments.ClassifyLine | src/utils/classes.js:160-181 | one iteration routes its line and updates the `inParam` flag as the routing function says |
| ClassComments.RouteLines | src/utils/classes.js:155-182 | the class lines are the lines routed to the class, and the constructor lines are ` * Constructor.` followed by the lines routed to the constructor |
| ClassComments.SplitCommentsForClass | src/utils/classes.js:153-188 | the class comment is the block rebuilt from the class lines of the trimmed comment, and the constructor comment the block rebuilt from ` * Constructor.` and the constructor lines |
| ClassComments.RoutedPartition | src/utils/classes.js:159-182 | every line goes to exactly one place: the dropped, class and constructor lines together hold each line once |
| ClassComments.ParamRun | src/utils/classes.js:163-176 | a `* @param` line and every following line whose trimmed text starts with `*   ` go to the constructor comment, a dropped line among them staying dropped |
| ClassComments.ClassLine | src/utils/classes.js:163-181 | a kept line that is neither a `@param` line, an indented continuation nor `@ngInject` stays in the class comment and ends any `@param` run |
| ClassComments.CtorLine | src/utils/classes.js:168-181 | a line goes to the constructor exactly when it is kept and is a `@param` line, a continuation or `@ngInject`, and is dropped exactly when it names `@constructor` or a non-generic `@extends` |
| ClassComments.GenericExtendsKept | src/utils/classes.js:171 | an `@extends` line with a generic type is recognised as generic |
| ClassComments.CtorBlockStarts | src/utils/classes.js:156 | the constructor comment's first line after `*` is always ` * Constructor.` |
| ClassComments.UnrestrictedBlock | src/utils/classes.js:619 | replacing the trailing spaces of a controller's class comment puts ` * @unrestricted` before its closing ` ` line |
| ClassModules.DefineConversion | src/utils/classes.js:522-567 | a failed conversion leaves the statements as they were and exports nothing; a passed one keeps the number of statements |
| ClassModules.DefineExported | src/utils/classes.js:528-543 | a define on a provided namespace is exported under its last name segment, no reference to the full name is left, and the statement is now a `const` declaration carrying the define's comments |
| ClassModules.DefineLocal | src/utils/classes.js:544-566 | a define on another namespace exports nothing; when the file does not refer to it the file is unchanged, and otherwise every reference goes to the fresh variable |
| ClassModules.ConvertGoogDefine | src/utils/classes.js:522-567 | the statements, outcome and exported names are those of the conversion |
| ClassModules.CountInPositive | src/utils/classes.js:502-510 | a statement list counts a match exactly when it holds one |
| ClassModules.NamespaceCommentKept | src/utils/classes.js:580-587 | a comment without `@const` and `@private` lines is kept word for word |
| ClassModules.NamespaceConversion | src/utils/classes.js:569-598 | a failed conversion leaves the statements as they were and exports nothing; a passed one keeps the number of statements |
| ClassModules.NamespaceConverted | src/utils/classes.js:569-598 | no reference to `<module>.<name>` is left, the statement becomes a declaration that is `const` exactly for an assignment made only once, and the name is exported exactly when the statement is not private |
| ClassModules.NamespaceAssignedOnce | src/utils/classes.js:502-510 | an assignment statement counts itself, so a property assigned nowhere else is not reassigned |
| ClassModules.ConvertNamespaceExpression | src/utils/classes.js:569-598 | the statements, outcome and exported names are those of the conversion |
| ClassModules.WithModuleName | src/utils/classes.js:411 | the call with its first argument replaced still is a `goog.module` call, and it names the new module |
| ClassModules.RenameModuleStep | src/utils/classes.js:406-413 | a `goog.module()` call without arguments throws; the directive's call is removed, the controller's renamed, and any other kept as it is |
| ClassModules.RenamePassClears | src/utils/classes.js:406-413 | when the pass completes, no kept `goog.module` call names the controller or the directive |
| ClassModules.RenamePassKeepsOthers | src/utils/classes.js:406-413 | a file whose `goog.module` calls name neither the controller nor the directive is left as it is |
| ClassModules.ReplaceUIModules | src/utils/classes.js:385-416 | the returned name is the chosen UI module name, its warning is logged when it could not be made unique, and the body is the result of the renaming pass, or unchanged when that pass throws |
| ClassNames.UIModuleNameCandidates | src/utils/classes.js:392-403 | for a controller `<base>Ctrl` the name is `<base>UI` when free, else `<base>` when free, else `<base>_FixMe` with a warning |
| ClassNames.UIModuleNameFree | src/utils/classes.js:392-403 | without a warning the chosen name is free; the warning is logged exactly when both candidates are taken, and then the name ends in `_FixMe` |
| ClassNames.DirectiveTagLower | src/utils/classes.js:460 | a directive tag holds no capital letter |
| ClassNames.HyphenateLength | src/utils/classes.js:460 | the tag is the name lengthened by one hyphen per capital letter |
| ClassNames.CamelOfTag | src/utils/classes.js:460 | for a name without hyphens, reading the tag back as camel case gives the name |
| ClassNames.DefineSplitSpec | src/utils/classes.js:523-526 | the define name holds no `.`; with a `.` in the full name the namespace, a `.` and the name give it back; without one the namespace is empty and the name is the whole |
| ClassPass.Then | src/utils/classes.js:630-670 | two callbacks one after the other keep, add methods and warn in order |
| ClassPass.PassStopped | src/utils/classes.js:630-670 | after a callback throws the remaining statements change nothing |
| ClassPass.RunPass | src/utils/classes.js:630-635 | the loop over the top-level statements hands each matched one to the callback, in order, until one throws, as the pass function says; matches nested below the top level are not visited (see Left out) |
| ClassPass.PassKeeps | src/utils/classes.js:630-670 | a pass whose matched statements all go through a keeping callback leaves the list as it was |
| ClassPass.PassKeepsWithin | src/utils/classes.js:630-670 | a pass whose callback keeps every matched statement of the list changes nothing |
| ClassPass.PassUnmatched | src/utils/classes.js:630-670 | a pass that matches no statement leaves the list as it was |
| ClassPass.PassConcat | src/utils/classes.js:630-670 | one pass over `a + b` is a pass over `a` followed by a pass over `b`, so methods are added in statement order |
| ClassPass.PassConserves | src/utils/classes.js:630-635 | nothing is lost or duplicated: every statement of a completed pass either stays or became a method |
| ClassPass.PassClears | src/utils/classes.js:630-670 | a completed pass leaves no statement of a kind every one of which it matches and removes |
| ClassPass.Settle | src/utils/classes.js:61-71 | settling keeps the number of statements that stayed |
| ClassPass.SettleSpec | src/utils/classes.js:61-71 | settling touches only the class: every other statement is as the pass left it, the class gains exactly the pushed methods in order, and its superclass is the one set, if any |
| ClassPass.ApplyPlain | src/utils/classes.js:630-670 | with nothing moved and nothing renamed, applying a pass is settling it |
| ClassPass.InsertBeforeOne | src/transforms/es6/toes6class.js:13-17 | the declarations are inserted, in order, right before the statement declaring the class, and the statements keep their order |
| ClassPass.NoneInserted | src/transforms/es6/toes6class.js:13-17 | with no statement declaring the class nothing is inserted |
| ClassRegistry.Registry.GetClassNode | src/utils/classregistry.js:12 | a node is returned exactly for a registered name, and it is the registered one |
| ClassRegistry.Registry.RegisterClassNode | src/utils/classregistry.js:19-21 | afterwards the name yields the node, overwriting an earlier entry, and every other name yields what it did before |
| Classes.Requalified | src/utils/classes.js:253-258 | in `M.prototype.x = v` the object `M` is replaced by the class name while the value and comments stay |
| Classes.ConvertPrototypeAssignment | src/utils/classes.js:202-217 | the callback throws exactly for a function value under a computed property; a function value becomes a method carrying the statement's comments and the statement goes; a member expression value stays requalified to the class; anything else stays and is reported |
| Classes.PrototypePassMovesFunctions | src/utils/classes.js:630-635 | after a completed prototype pass no prototype function is left among the statements, and the statements left plus the methods made number the statements there were |
| Classes.ConvertStaticFunction | src/utils/classes.js:193-200 | a function value becomes a static method carrying the comments and the statement goes; anything else is left alone; a computed property with a function value throws |
| Classes.StaticPassMovesFunctions | src/utils/classes.js:646-651 | after a completed static pass no static function is left, and nothing is lost or duplicated |
| Classes.AddStaticGetToClass | src/utils/classes.js:78-123 | the property becomes a module variable (`const` exactly when the JSDoc marks a constant) holding the value, plus a static getter and, unless constant, a static setter; a statement without a comment is refused because building a comment from `undefined` throws |
| Classes.StaticAccessorsShareVariable | src/utils/classes.js:93-120 | the getter returns and the setter assigns the very variable the declaration introduces, and the getter carries the declaration's comment |
| Classes.StaticGetCommentKept | src/utils/classes.js:87-89 | a comment without `@const` and `@return ` is kept word for word |
| Classes.StaticGetCommentRetyped | src/utils/classes.js:87-89 | a comment holding `@return ` ends up holding `@type ` |
| Classes.MoveSingletonToClass | src/utils/classes.js:265-301 | the call becomes `let instance;` and the class gets a static `getInstance` and a static `setInstance` method |
| Classes.GetInstanceLazy | src/utils/classes.js:277-287 | the getter creates an instance of the class only when the variable is still empty, and returns the variable |
| Classes.MoveInheritsToClass | src/utils/classes.js:240-246 | the class extends the call's second argument and the call is removed |
| Classes.InheritsPassSetsSuper | src/utils/classes.js:667-670 | a completed inherits pass drops every `goog.inherits(M, ...)` statement, and the class extends something exactly when there was one |
| Classes.SuperCall | src/utils/classes.js:303-322 | the call keeps the given arguments, and its callee is `super` exactly for the constructor |
| Classes.BaseRuleClears | src/utils/classes.js:638-639 | no `M.base(this, '<name>', ...)` call with a literal name is left |
| Classes.BaseRuleKeepsOthers | src/utils/classes.js:305 | a file whose `M.base` calls all name the method by something other than a literal is left as it is |
| Classes.SuperclassWarnings | src/utils/classes.js:324-338 | one warning per `superClass_` reference to another class, in tree order |
| Classes.SuperclassRunStops | src/utils/classes.js:324-338 | the `superClass_` pass throws exactly when some reference's parent is not a member expression, or names the module's own class with a method name that is not an identifier or without arguments three levels up; it throws the first such reference's error |
| Classes.SuperclassRunLogs | src/utils/classes.js:335-337 | a pass that does not throw logs one warning per reference to another class, in order |
| Classes.SuperclassRunWarnings | src/utils/classes.js:642-643 | those are exactly the warnings of `SuperclassWarnings` over the file |
| Classes.ReplaceSuperclassRefs | src/utils/classes.js:642-643 | the `forEach` gives the warnings and the error of the run |
| Classes.SuperclassRuleClears | src/utils/classes.js:642-643 | no call through the module's own `superClass_` is left |
| Classes.SuperclassWarningsNone | src/utils/classes.js:335-337 | nothing is reported exactly when no reference names another class's `superClass_` |
| Classes.QualifiedRuleClears | src/utils/classes.js:673-674 | no reference to the fully qualified name is left |
| Classes.ClassDeclarationFor | src/utils/classes.js:607-623 | the declaration is built exactly for a declarable statement; it has the new identity, the class name, no superclass and only the constructor, which holds the old function's parameters and body |
| Classes.ClassCommentsShape | src/utils/classes.js:617-622 | the constructor's comment opens with ` * Constructor.`, and a controller's class comment ends with `@unrestricted` |
| Classes.FinishClass | src/utils/classes.js:659-674 | after the last passes no reference to the fully qualified name is left |
| Classes.AfterSupers | src/utils/classes.js:646-677 | a failure restores the original statements; a pass leaves no reference to the fully qualified name |
| Classes.AfterPrototypes | src/utils/classes.js:638-677 | the same for the passes from `M.base` on; a `superClass_` reference that throws fails the conversion with the warnings logged before it |
| Classes.AfterDeclaration | src/utils/classes.js:630-677 | the same for the passes from the prototype pass on |
| Classes.ClassConversion | src/utils/classes.js:606-678 | a failed conversion leaves the statements as they were; a passed one leaves no reference to the fully qualified name |
| Classes.DeclareClass | src/utils/classes.js:607-623 | the method builds the declaration the specification function describes |
| Classes.RunClassPasses | src/utils/classes.js:630-677 | the passes, run one after the other, give the conversion the specification function describes |
| Classes.RunLaterPasses | src/utils/classes.js:646-677 | the same for the later passes |
| Classes.ConvertStatements | src/utils/classes.js:606-678 | the conversion on a statement list, and whether the declaration was built |
| Classes.ConvertClass | src/utils/classes.js:606-678 | the body, outcome and warnings are those of the conversion; the class is registered under the module name exactly when its declaration was built, even when a later pass throws |
| Deps.RemoveThree | src/utils/deps.js:20-22 | removing the three kinds of dependency one after the other leaves exactly the other statements |
| Deps.SortESDependencies | src/utils/deps.js:6-38 | outside ES module files nothing happens; otherwise the body becomes the other statements with the sorted dependency block after the first `goog.declareModuleId` |
| Deps.InsertAfterFirst | src/utils/deps.js:25-36 | without a `goog.declareModuleId` the list is unchanged; with one the three blocks are spliced in right after the first, module requires then imports then requires, each at the same index |
| Deps.NoBareRequires | src/utils/deps.js:9 | `isGoogRequire` only accepts calls, so the statement search finds no bare require at all |
| Deps.SortedDepsAreDeps | src/utils/deps.js:15-17 | every statement of the reinserted block is a dependency |
| Deps.OthersKeepOrder | src/utils/deps.js:20-36 | all other statements keep their relative order, with or without a `goog.declareModuleId` |
| Deps.DependencyBlock | src/utils/deps.js:27-36 | with a `goog.declareModuleId` the dependencies of the result are exactly the block, requires then imports then module requires; without one the result holds no dependency |
| Deps.BlockAfterFirstDeclare | src/utils/deps.js:27-36 | the block sits right after the first `goog.declareModuleId`, and no earlier statement is one |
| Deps.SortPermutes | src/utils/deps.js:6-38 | with a `goog.declareModuleId` no statement is lost or duplicated |
| Deps.DroppedWithoutDeclare | src/utils/deps.js:20-36 | without a `goog.declareModuleId` the dependencies are dropped and the rest stays as it was |
| Es6.ShorthandProperties | src/utils/es6.js:10-14 | one shorthand property per key, in key order |
| Es6.WithMoreProperties | src/utils/es6.js:21-24 | the `exports = {...}` statement gets the new properties after its own |
| Es6.AddExports | src/utils/es6.js:3-33 | the body becomes the body with the exports added as the specification function says |
| Es6.KeyNamesOfShorthands | src/utils/es6.js:10-14 | the names of the built properties are the keys |
| Es6.NamesAppended | src/utils/es6.js:8-31 | a key list is exported after whatever the first exports object already exported, in key order, without removing duplicates |
| Es6.OnlyAdds | src/utils/es6.js:3-33 | a single name or a new object appends exactly one statement and keeps the others; merging into an existing object changes that one statement and nothing else |
| ExportProperty.FilterOutcomesDisjoint | src/transforms/goog/exportproperty.js:34-42 | the filter either throws or answers, never both |
| ExportProperty.ExportableNames | src/transforms/goog/exportproperty.js:34-42 | on `goog.exportProperty(X.prototype, 'name', X.prototype.fn)` the newer filter accepts a non-empty `name` with `fn` equal to `name` or `name_`, the older one (transforms/goog-exportproperty.js:29-32) only `fn` equal to `name` |
| ExportProperty.LegacyWithinCurrent | transforms/goog-exportproperty.js:29-32 | whatever the older filter accepts or throws on, the newer one does too |
| ExportProperty.ExportCommentShape | src/transforms/goog/exportproperty.js:68-74 | a comment ending in whitespace gets the `@export` line in place of that whitespace, and the newer version removes `@protected` and `@private` from the text before it; a comment without trailing whitespace gets no tag |
| ExportProperty.SpliceBeforeTag | src/transforms/goog/exportproperty.js:71-74 | removing a visibility tag never cuts into the new `@export` line |
| ExportProperty.StripOnce | src/transforms/goog/exportproperty.js:62 | only one underscore is removed, and only at the end of the name |
| ExportProperty.CommentLengthAsWritten | src/transforms/goog/exportproperty.js:59 | reading `prev.comments.length` fails exactly for a statement without comments, and otherwise gives a positive count |
| ExportProperty.CommentLength | src/transforms/goog/exportproperty.js:59 | a statement without comments counts as having none: the count is positive exactly when it has comments |
| ExportProperty.PrevStep | src/transforms/goog/exportproperty.js:59-80 | the previous statement stays an expression statement; the export is removed exactly when its last comment is a block, which then carries the tag; as written, a statement without comments throws; the newer version throws on reading `left.property` exactly when the expression has no `left` operand (neither an assignment nor a binary expression), and on reading `.name` exactly when that operand is no member expression |
| ExportProperty.AttachExport | src/transforms/goog/exportproperty.js:64-80 | the last comment is replaced by the tagged block exactly when it is a block, and the statement is otherwise unchanged |
| ExportProperty.ExportPassComplete | src/transforms/goog/exportproperty.js:53-83 | after a pass that did not throw, no exportable statement is left right after a statement that can take the tag |
| ExportProperty.ExportPassIdle | src/transforms/goog/exportproperty.js:53-83 | without exportable statements the pass changes nothing |
| ExportProperty.FoldPair | src/transforms/goog/exportproperty.js:53-83 | a taggable statement followed by its export folds into the tagged statement |
| ExportProperty.DocumentedExport | src/transforms/goog/exportproperty.js:59-80 | a documented assignment to `X.prototype.name_` followed by its export becomes the assignment to `X.prototype.name` with the tagged comment, and the export statement goes |
| ExportProperty.DocumentedBinaryExport | src/transforms/goog/exportproperty.js:62-79 | a documented binary expression `a.name_ + c;` followed by an export is renamed to `a.name + c;` and tagged the same way, since only the `left` operand is read |
| ExportProperty.DocumentedExportLegacy | transforms/goog-exportproperty.js:49-58 | the older transform keeps the property name and only tags the comment |
| ExportProperty.UncommentedPreviousThrows | src/transforms/goog/exportproperty.js:59 | as written, an exportable statement after an uncommented expression statement makes the transform throw, while the corrected pass completes |
| ExportProperty.UncommentedPreviousSkipped | src/transforms/goog/exportproperty.js:59 | as intended, an uncommented previous statement is left alone and the pass moves on |
| ExportProperty.FallbackStatement | src/transforms/goog/exportproperty.js:85-89 | a statement calling `goog.exportProperty(o, name, v)` becomes the assignment `o[name] = v` with its comments |
| ExportProperty.FallbackIdle | src/transforms/goog/exportproperty.js:85-89 | statements without exportProperty calls pass through the fallback untouched |
| ExportProperty.ExportPropertyIn | src/transforms/goog/exportproperty.js:50-92 | with the comment-count guard given (as written, throwing on a statement without comments, or corrected), a filter throw fails with the first throwing call's error and leaves the file; otherwise the `@export` pass runs, a remaining call with too few arguments fails and leaves the file, and else every remaining call becomes its assignment |
| FixRequires.FixRequires | src/transforms/es6/fixrequires.js:8-47 | the file fails exactly when one of the two passes would throw, and is then left as it was; otherwise it is the `goog.require` pass followed by the `goog.module.get` pass |
| FixRequires.FixPassesNothingToFix | src/transforms/es6/fixrequires.js:46 | a file with no declaration either pass would change comes out as it went in |
| FixRequires.FixPassesComplete | src/transforms/es6/fixrequires.js:27-44 | after each pass no declaration it would change is left, so running it again changes nothing |
| FixRequires.FixTestModules | src/transforms/es6/fixtestmodules.js:9-37 | a file not recognised as a Karma test is left as it is; a recognised one fails exactly when the pass throws, and is otherwise rewritten by the `goog.module.get` pass |
| ModuleDeps.ResolveOrder | src/transforms/es6/fixrequires.js:18 | the dependency under the temporary module name wins, and the module's own name is only the fallback |
| ModuleDeps.DefaultPattern | src/transforms/es6/fixrequires.js:20 | the rebuilt target is the object pattern with one property |
| ModuleDeps.WithDefaultTarget | src/transforms/es6/fixrequires.js:15-22 | the first declarator's target `id` becomes `{default: id}` while its initialiser, the other declarators, the kind and the comments stay |
| ModuleDeps.DefaultTargetClean | src/transforms/es6/fixrequires.js:16-20 | a rebuilt declaration no longer has an identifier target, so the pass does not match it again |
| ModuleDeps.DefaultPassComplete | src/transforms/es6/fixrequires.js:14-24 | after a pass that tests for an identifier target no declaration it would change is left |
| ModuleDeps.DefaultPassIdempotent | src/transforms/es6/fixrequires.js:14-24 | such a pass is idempotent |
| ModuleDeps.WrapsAgainWithoutIdentifierTest | src/transforms/es6/fixtestmodules.js:25-33 | without the identifier test a second run wraps the target again, giving `{default: {default: x}}` |
| Goog.RecognisesExactly | src/utils/goog.js:8-29 | `isGoogRequire` / `isGoogProvide` hold exactly for calls whose callee is `goog.require` / `goog.provide` |
| Goog.WithRequireNamesSpec | src/utils/goog.js:67-71 | replacing the require calls in order by requires of the given names keeps every statement's kind, place and comments, leaves other statements alone, and the required names become exactly the given names |
| Goog.SortRequires | src/utils/goog.js:58-72 | the require statements keep their places and receive the required names in ascending order: the names are sorted and a permutation of the old ones |
| Goog.FirstIndex | src/utils/goog.js:39-48 | the result is the first position satisfying the test, or none when no statement does |
| Goog.InsertedNames | src/utils/goog.js:46-48 | inserting a require statement adds exactly its name to the multiset of required names |
| Goog.AddRequire | src/utils/goog.js:36-52 | nothing changes when the name is already required or when the file has neither requires nor provides; otherwise the new require goes right after the first require (else the first provide), the requires are then sorted, and the required names are the old ones plus the new one |
| Goog.RewriteAllKeepsRequires | src/utils/goog.js:61-71 | a rewrite that does not touch require statements keeps them in place with their names |
| Goog.FirstIndexAgree | src/utils/goog.js:37-43 | lists that agree position by position on the test have the same first match |
| GoogRequire.Add | src/utils/googrequire.js:22-30 | `goog.require('toAdd');` goes right after the statement of the first require and the requires are sorted; in a file without requires reading the missing first path throws and nothing changes |
| GoogRequire.Sort | src/utils/googrequire.js:36-50 | the require statements keep their places and receive the required names in ascending order, a permutation of the old names |
| GoogRequire.AddDuplicates | src/utils/googrequire.js:24 | the duplicate test compares the argument node with a string and never holds, so adding a name that is already required leaves it required twice |
| Imports.Rank | src/utils/imports.js:11-17 | each group sits at its rank in the fixed matcher order |
| Imports.GroupsRank | src/utils/imports.js:11-17 | the group order and the rank are inverse to each other |
| Imports.GetImportGroup | src/utils/imports.js:19-27 | the group is one whose matcher accepts the import, and no earlier group's matcher does |
| Imports.GetSortedImportNodes | src/utils/imports.js:40-66 | the result is the bucket-by-group, sort-within-bucket arrangement of the imports |
| Imports.SortedImportsPermutes | src/utils/imports.js:47-62 | the sorted imports are a permutation of the imports |
| Imports.SortedImportsOrdered | src/utils/imports.js:56-62 | the sorted imports come group by group in matcher order, ascending by source within a group |
| Imports.SortedImportsOfOrdered | src/utils/imports.js:40-66 | imports already grouped and sorted come back as they are |
| Imports.SortedImportsIdempotent | src/utils/imports.js:40-66 | sorting twice gives what sorting once gives |
| Imports.SortImports | src/utils/imports.js:73-90 | each import position receives the import the sort puts there, other statements stay, and the answer is true exactly when the file changed, which is exactly when the sort moved an import |
| Imports.SortImportsStable | src/utils/imports.js:73-90 | a file whose imports are already in order is left unchanged |
| Jscs.BindArgsSpec | src/utils/jscs.js:8-17 | only a three-argument list changes, into the first argument and the callback bound to the third |
| Jscs.BindArgsIdempotent | src/utils/jscs.js:8-17 | binding twice is binding once |
| Jscs.CalleeFor | src/utils/jscs.js:26-37 | the member chain exists exactly when the path has at least two segments |
| Jscs.CreateCall | src/utils/jscs.js:25-40 | when a call is built it carries the given arguments |
| Jscs.CreateCallIsCall | src/utils/jscs.js:25-40 | a call is built exactly for a path of two or more segments, and is then recognised as a call of that path |
| Karma.DescribeRegexNeverMatches | src/utils/karma.js:28 | the pattern puts `$` before `describe`, so it never matches a callee name |
| Karma.IsKarmaDescribeNever | src/utils/karma.js:27-30 | the test compares a boolean with the string `'describe'`, so `isKarmaDescribe` never holds |
| Karma.IsKarmaTestNever | src/utils/karma.js:37-41 | therefore no file is recognised as a Karma test |
| Karma.DescribeName | src/utils/karma.js:28 | the corrected name test accepts exactly `describe`, `xdescribe` and `ddescribe` |
| Karma.DescribeFileMissed | src/utils/karma.js:37-41 | a file with a top-level `describe('name', fn)` statement is a Karma test for the corrected recogniser and not for the one as written |
| Karma.RootDescribeWalk | src/utils/karma.js:8-20 | the walk up the ancestors returns the outermost ancestor the recogniser accepts, and none exactly when it accepts no ancestor |
| Karma.GetRootDescribe | src/utils/karma.js:8-20 | with `isKarmaDescribe` as written the walk never finds a describe |
| Logger.Log.constructor | src/utils/logger.js:14-17 | the log starts empty |
| Logger.Log.Warn | src/utils/logger.js:14-17 | a warning is appended and the info messages stay |
| Logger.Log.Info | src/utils/logger.js:14-17 | an info message is appended and the warnings stay |
| Logger.DotDotRunEnd | src/utils/logger.js:24 | the run of consecutive `../` starting at a position ends where no `../` follows |
| Logger.RemoveFirstDotDotRunSpec | src/utils/logger.js:24 | only the first run of `../` is removed, whole, and everything around it is kept; text without `../` is unchanged |
| Logger.LastIndexOf | src/utils/logger.js:24 | the last occurrence of the marker, or -1 exactly when there is none |
| Logger.StripSingleLine | src/utils/logger.js:24 | on a one-line path everything through the last `/workspace/` is removed, and no `/workspace/` remains |
| Logger.StripWithoutMarker | src/utils/logger.js:24 | text without `/workspace/` is not changed |
| Logger.AbbreviateUnchanged | src/utils/logger.js:24 | a path holding neither `../` nor `/workspace/` comes back unchanged |
| RequireToImport.Basename | src/transforms/es6/requiretoimport.js:24 | the base name holds no `/` and is a suffix of the path |
| RequireToImport.DepPathSpec | src/transforms/es6/requiretoimport.js:19-34 | a dependency of the file's own project is imported by a path starting with `.` and ending with its file name; any other dependency by its path as it is |
| RequireToImport.ImportKeepsNames | src/transforms/es6/requiretoimport.js:54-79 | the import binds exactly the names the declaration bound, in order, and imports from the dependency's path |
| RequireToImport.IdentifierImportKind | src/transforms/es6/requiretoimport.js:55-64 | an identifier target gives a default import exactly when the module has a default export, and a namespace import otherwise |
| RequireToImport.DefaultKeyAsWritten | src/transforms/es6/requiretoimport.js:68 | as written the key test compares a node with a string, so `{default: x}` becomes `import {default as x}` instead of `import x` |
| RequireToImport.DefaultKeyCorrected | src/transforms/es6/requiretoimport.js:68 | the corrected key test accepts exactly a single property whose key is the identifier `default` |
| RequireToImport.BareReplacement | src/transforms/es6/requiretoimport.js:94-105 | an unassigned require of an ES module becomes a bare import that binds nothing; any other statement stays |
| RequireToImport.LogUnsupported | src/transforms/es6/requiretoimport.js:80-82 | one warning per declaration whose target is neither an identifier nor an object pattern, in visiting order |
| RequireToImport.RequireToImport | src/transforms/es6/requiretoimport.js:11-130 | with the key test given (the one as written or the corrected one), the file fails exactly when a pass throws and is then left as it was; otherwise the declaration, bare-require and `requireType` passes are applied; the warnings logged are those of the first pass |
| RequireToImport.RequireTypePassIdempotent | src/transforms/es6/requiretoimport.js:117-127 | the `requireType` pass leaves no declaration it would change, so it is idempotent |
| ResolveThis.PatternsWellFormed | src/utils/resolvethis.js:21-110 | every entry of the pattern table has distinct callback positions, all before its `this` position |
| ResolveThis.ReplaceFnsSlots | src/utils/resolvethis.js:127-139 | each listed slot holding a function expression becomes its arrow, and every other slot stays |
| ResolveThis.ReplaceFnsCount | src/utils/resolvethis.js:127-139 | the count is the number of listed slots that held a function expression |
| ResolveThis.ResolveCallGuard | src/utils/resolvethis.js:122-125 | without a `this` argument at the pattern's `this` position nothing changes |
| ResolveThis.ResolveCallCount | src/utils/resolvethis.js:118-142 | the count is the number of converted callbacks, and the `this` step runs exactly when every listed slot held a function expression |
| ResolveThis.ResolveCallShape | src/utils/resolvethis.js:142-150 | the `this` argument is dropped when it is last and replaced by `undefined` otherwise; converted callbacks become arrows and every other argument keeps its place |
| ResolveThis.ListenOnceWithoutThis | src/utils/resolvethis.js:28-32 | the first `goog.events.listenOnce` entry has no `this` position and never changes anything |
| ResolveThis.ResolveArgs | src/utils/resolvethis.js:117-150 | the per-call loop gives the argument list, count and completion that `ResolveCall` specifies |
| ResolveThis.UnwrapOnlySingle | src/utils/resolvethis.js:4-8 | the `goog.bind` post-step replaces the call by its only argument, and only after a completed conversion |
| ResolveThis.ResolveThisIn | src/utils/resolvethis.js:112-160 | every pattern in turn over the file; the result is the total number of callbacks converted |
| ResolveThis.ApplyPatterns | src/utils/resolvethis.js:115-157 | the pattern loop computes what `ResolvePatterns` specifies |
| ResolveThis.NothingFiresUnchanged | src/utils/resolvethis.js:122-125 | a tree in which no selected call passes the `this` check is left as it is, and nothing is counted |
| OpenSphere.Unique | src/utils/opensphere.js:53 | `[...new Set(xs)]` holds no duplicates and exactly the elements of `xs` |
| OpenSphere.UniquePrefix | src/utils/opensphere.js:53 | merging keeps the old entries first, in their order |
| OpenSphere.UniqueNothingNew | src/utils/opensphere.js:53 | names already present add nothing |
| OpenSphere.UniqueOfDistinct | src/utils/opensphere.js:53 | a list without duplicates is its own set |
| OpenSphere.UniqueAddTwice | src/utils/opensphere.js:51-55 | adding the same names a second time changes nothing |
| OpenSphere.GlobalRules.constructor | src/utils/opensphere.js:33-45 | the tables start empty |
| OpenSphere.GlobalRules.AddBlacklistModules | src/utils/opensphere.js:51-55 | a missing or empty list changes nothing; otherwise the blacklist becomes the de-duplicated concatenation, keeps its old entries first, and holds exactly the old and the new names |
| OpenSphere.GlobalRules.AddGlobalRootNamespaces | src/utils/opensphere.js:61-65 | the same for the root namespaces |
| OpenSphere.GlobalRules.AddOSGlobals | src/utils/opensphere.js:73-76 | the table is replaced only when the flag is exactly `true`; otherwise the entries are merged in, new ones overriding old ones and the others kept |
| OpenSphere.GlobalRules.ConvertGlobalRefs | src/utils/opensphere.js:100-141 | a file that is neither a module nor a test is left alone; otherwise every OS global is replaced in tree order, then per root namespace its unresolved references are warned about and its dependencies replaced |
| OpenSphere.GlobalRules.ConvertLegacyRequires | src/utils/opensphere.js:147-170 | with the statement search corrected (see Findings), a require without an argument makes it throw with no effect; otherwise the top-level requires not in the table are replaced last first, those without a replaced identifier are added back, and one warning gives their count |
| OpenSphere.OSGlobalReplacements | src/utils/opensphere.js:107-109 | one `convertOSGlobal` per matched node, in tree order |
| OpenSphere.NamespaceReplacements | src/utils/opensphere.js:111-139 | the effects and warnings of every root namespace in order |
| OpenSphere.LegacyReplacements | src/utils/opensphere.js:150-159 | the names replaced, the unused names and the effects of the reversed loop over the corrected search's matches |
| OpenSphere.ReAddUnused | src/utils/opensphere.js:164-166 | one added-back require per unused name, in order |
| OpenSphere.LogUnresolved | src/utils/opensphere.js:113-124 | the warnings of the `map` step, in reference order |
| OpenSphere.Replacements | src/utils/opensphere.js:128-138 | one replacement per dependency, in order |
| OpenSphere.OSGlobalEffectSpec | src/utils/opensphere.js:180-188 | a configured global is replaced under its own text with its configured module, as a singleton exactly when `singleton` is `true`; a global configured as null is skipped |
| OpenSphere.OSGlobalEffectsKeys | src/utils/opensphere.js:82-94 | every replacement of the OS-globals step is for a key of the table |
| OpenSphere.Resolved | src/utils/opensphere.js:113-124 | each reference maps to its dependency when that has a module name, else to null |
| OpenSphere.KeptDepsSpec | src/utils/opensphere.js:125 | the filter keeps each usable dependency once and nothing else |
| OpenSphere.GlobalDepsSpec | src/utils/opensphere.js:112-126 | the dependencies of a namespace are those its references resolve to whose module is not blacklisted, each once, in descending order of module name |
| OpenSphere.DepEffectsSpec | src/utils/opensphere.js:128-138 | each dependency gets one replacement under its module name, of the test kind in a test file and the source kind otherwise |
| OpenSphere.RefWarningsSpec | src/utils/opensphere.js:113-124 | the warnings name exactly the references that are neither resolved nor blacklisted, in order |
| OpenSphere.LegacyNamesReversed | src/utils/opensphere.js:150-151 | the statements are visited last first |
| OpenSphere.LegacyNamesMembers | src/utils/opensphere.js:152-158 | with the corrected search, exactly the top-level requires whose name is not a key of the table are replaced |
| OpenSphere.LegacyStatementsAsWritten | src/utils/opensphere.js:148 | the statement search as written finds nothing, since `isGoogRequire` accepts only calls |
| OpenSphere.LegacyRequireMissed | src/utils/opensphere.js:148-158 | a top-level require outside the table is missed by the search as written and replaced by the corrected one |
| OpenSphere.LegacyEffectsSpec | src/utils/opensphere.js:151-169 | every candidate is replaced first, then exactly the names whose replacement found no identifier are added back in order, with one warning exactly when some name was added back |
| Shim.PrefixCount | src/utils/shim.js:22-25 | the name is built from the first number of segments whose file is free, or from all of them, and every shorter name tried exists |
| Shim.CandidateInjective | src/utils/shim.js:30-32 | different counters give different file names |
| Shim.GetUniqueFileNameForModule | src/utils/shim.js:16-36 | the name returned is free; it is the lowercased segments plus `.js` when that is free, and otherwise that base with the smallest counter from 1 that is free |
| Shim.AppendCounter | src/utils/shim.js:28-33 | the counter loop ends on a free name `base<i>.js` with every smaller counter taken |
| Shim.PrefixStep | src/utils/shim.js:23 | one more segment goes in front of the name, lowercased |
| Shim.CounterStep | src/utils/shim.js:30-32 | each taken candidate is new, so the existing names not yet tried shrink and the loop ends |
| Shim.GoogCall | src/utils/shim.js:51-52 | the call built for a dotted Closure name carries the given arguments and has that name as callee |
| Shim.CreateAssignmentShim | src/utils/shim.js:47-79 | when writing, a statement without comments makes the comment copy throw before anything changes; otherwise the module's `goog.module` statements and the assignment leave the file, and when writing the new module gets a free name, the statements above and one log line |
| Shim.WriteAssignmentShim | src/utils/shim.js:48-67 | the new module file has a free name, its `goog.module` header and the assignment to `exports`, and its creation is logged |
| Shim.ModuleStatementGone | src/utils/shim.js:70-75 | no `goog.module` statement for the module is left in the original file |
| Shim.AssignmentShimRemoves | src/utils/shim.js:69-78 | exactly the assignment statement and the module's `goog.module` statements leave the original file |
| Shim.UIModuleNameSpec | src/utils/shim.js:94 | the module name drops exactly one trailing `Ctrl`, and nothing else |
| Shim.CreateUIShim | src/utils/shim.js:88-122 | nothing happens when the shim path exists; otherwise the shim is built at that path and its creation is logged |
| Shim.UIShimNames | src/utils/shim.js:95-116 | the shim provides both old names, requires the module the controller name stands for, and assigns the old names from that module's `Controller` and `directive` |
| Sorting.SortBy | src/utils/imports.js:29-33 | sorting by source with `sortValues` gives an ascending list of the same length |
| Sorting.SortByPermutes | src/utils/imports.js:29-33 | the sort only rearranges: the sorted list holds the same elements, each as often |
| Sorting.SortBySorted | src/utils/imports.js:59 | an ascending list is left as it is (the sort is stable) |
| Sorting.SortStrings | src/utils/goog.js:65 | `requires.sort()` gives an ascending permutation of the names |
| Sorting.SortDescBy | src/utils/opensphere.js:126 | the comparator sorts into a descending permutation of the list |
| Strings.JoinSplit | src/utils/jscs.js:26 | joining the parts of `path.split('.')` with `.` gives back the path |
| Strings.SplitJoin | src/utils/jscs.js:26 | splitting a join gives back the parts when no part holds the separator |
| Strings.ParseNatToString | src/utils/shim.js:31 | the counter's decimal text reads back as the counter |
| Strings.NatToStringInjective | src/utils/shim.js:31 | different counters have different decimal texts |
| ToEs6Class.PrivateConstCommentLines | src/transforms/es6/toes6class.js:27-29 | the new comment's lines are exactly the old lines that are not `* @private` or `* @const`, in order, so none of those tags is left |
| ToEs6Class.PrivateConstCommentKept | src/transforms/es6/toes6class.js:27-29 | a comment without those tags is kept word for word |
| ToEs6Class.ConvertPrivateClassPropertyToConst | src/transforms/es6/toes6class.js:22-47 | the static property becomes a `const` carrying the last comment without its `@private`/`@const` lines; it moves before a registered class and the statement goes, or takes the statement's place; a statement without comments throws |
| ToEs6Class.ConvertStaticProperty | src/transforms/es6/toes6class.js:52-63 | a function becomes a static method with the statement's comments; a private value becomes a module constant; any other value a static getter |
| ToEs6Class.StaticPassConvertsAll | src/transforms/es6/toes6class.js:153-158 | after a completed static pass no assignment to a static member of the module is left |
| ToEs6Class.MovePrototypeToClass | src/transforms/es6/toes6class.js:65-75 | a function becomes an instance method with the statement's comments and the statement goes; anything else stays and is warned about |
| ToEs6Class.PrototypePassSorts | src/transforms/es6/toes6class.js:145-150 | a completed prototype pass keeps exactly the statements that are not prototype functions, in order, makes one method per prototype function and one warning per other prototype member |
| ToEs6Class.MoveSingletonToClass | src/transforms/es6/toes6class.js:85-103 | the call becomes `const instance = new C();` and the class gets a static `getInstance` returning it |
| ToEs6Class.SingletonPassReplacesAll | src/transforms/es6/toes6class.js:161-164 | every `goog.addSingletonGetter(M)` statement becomes an `instance` constant and a getter |
| ToEs6Class.ExportsValue | src/transforms/es6/toes6class.js:106-119 | a single name is exported as itself, a list of names as a shorthand object of the names in order |
| ToEs6Class.AppendExports | src/transforms/es6/toes6class.js:105-123 | one `exports = ...` statement is appended and nothing else changes |
| ToEs6Class.AppendExportsAgrees | src/utils/es6.js:3-33 | this `addExports` agrees with the merging one of `es6.js` on a single name, and on names when the file has no `exports = {...}` yet |
| ToEs6Class.ClassPatternShape | src/transforms/es6/toes6class.js:195-200 | a statement the search finds is an assignment of a function expression to a member, which `convertClass` can be handed |
| ToEs6Class.DeclarationFor | src/transforms/es6/toes6class.js:125-140 | the statement holds a class named by the assigned property with only a constructor taking the old function's parameters and body; it is built exactly when the comments can be read |
| ToEs6Class.CommentedConstructor | src/transforms/es6/toes6class.js:133 | with a JSDoc comment the code as written throws, while the corrected reading splits the comment and the constructor's part opens with ` * Constructor.` |
| ToEs6Class.FinishEs6Class | src/transforms/es6/toes6class.js:160-173 | after the singleton and `goog.inherits` passes the file ends in the class's export |
| ToEs6Class.FinishLeavesNoInherits | src/transforms/es6/toes6class.js:167-170 | no `goog.inherits(M, ...)` statement is left: each became the class's `extends` |
| ToEs6Class.Es6StaticStage | src/transforms/es6/toes6class.js:153-173 | a failure leaves the statements as they were; success ends them in the class's export |
| ToEs6Class.Es6ClassPasses | src/transforms/es6/toes6class.js:145-173 | a failure leaves the statements as they were; success ends them in the class's export |
| ToEs6Class.Es6ClassConversion | src/transforms/es6/toes6class.js:125-174 | when anything throws the file is left as it was |
| ToEs6Class.ConversionNeedsComments | src/transforms/es6/toes6class.js:131-136 | a conversion only gets past the declaration when the statement's comments can be read |
| ToEs6Class.Registered | src/transforms/es6/toes6class.js:142 | the class is registered under the module name exactly when it was declared, and the other entries stay |
| ToEs6Class.ConvertAt | src/transforms/es6/toes6class.js:125-174 | one conversion registers the class before any pass that may throw, keeps the other registrations, only adds warnings, and leaves the file on a throw |
| ToEs6Class.ConvertAtExports | src/transforms/es6/toes6class.js:173 | a conversion that does not throw leaves the file ending in `exports = <class name>` |
| ToEs6Class.Rounds | src/transforms/es6/toes6class.js:200-204 | the conversions for one module only add warnings and registrations and stop at the first throw |
| ToEs6Class.RoundStep | src/transforms/es6/toes6class.js:200-204 | each round converts the first statement still to convert, or stops when there is none |
| ToEs6Class.RoundsStopped | src/transforms/es6/toes6class.js:200-204 | after a conversion threw no further round changes anything |
| ToEs6Class.ConvertModules | src/transforms/es6/toes6class.js:194-205 | module by module in order, stopping at the first throw |
| ToEs6Class.ModuleStatement | src/transforms/es6/toes6class.js:187 | the provide call becomes `goog.module` with the same arguments and the statement keeps its comments |
| ToEs6Class.ProvideNone | src/transforms/es6/toes6class.js:183-192 | without a provide call the pass changes nothing and finds no module |
| ToEs6Class.ProvideFirstOnly | src/transforms/es6/toes6class.js:183-192 | only the first provide gets the legacy namespace, every later one becomes a plain `goog.module`, and the module names are the provides' first arguments in order |
| ToEs6Class.ProvideLater | src/transforms/es6/toes6class.js:183-192 | after the first provide, a provide becomes its plain `goog.module` statement and anything else stays |
| ToEs6Class.Transform | src/transforms/es6/toes6class.js:176-208 | when anything throws the file is left as it was, and warnings are only added |
| ToEs6Class.TransformWithoutProvides | src/transforms/es6/toes6class.js:176-208 | a file without provide calls is left alone: nothing converted, registered or logged |
| ToEs6Class.RunEs6Passes | src/transforms/es6/toes6class.js:145-173 | the passes run statement by statement compute what `Es6ClassPasses` specifies |
| ToEs6Class.Es6Statements | src/transforms/es6/toes6class.js:125-174 | the whole conversion on a statement list, and whether the declaration was built |
| ToEs6Class.ConvertClass | src/transforms/es6/toes6class.js:125-174 | the file, the log and the registry after one conversion are those `Es6ClassConversion` and `Registered` specify |
| ToEs6Class.ConvertModule | src/transforms/es6/toes6class.js:194-205 | the file, registry and log after one module's conversions are those `Rounds` specifies |
| ToEs6Class.ReplaceProvides | src/transforms/es6/toes6class.js:182-192 | on success the provided names are returned and the provides replaced; a provide without argument throws and leaves the statements |
| ToEs6Class.PassStops | src/transforms/es6/toes6class.js:183-192 | once the provide pass has thrown on a prefix it has thrown on the whole |
| ToEs6Class.ConvertFile | src/transforms/es6/toes6class.js:176-208 | the file, registry and log after the run are those `Transform` specifies, and the run fails exactly when it throws |
| ToEs6Class.ConvertEach | src/transforms/es6/toes6class.js:194-205 | the file, registry and log after converting the provided modules one by one are those `ConvertModules` specifies, stopping at the first that throws or is not a string |
| ProvideToModule.ClassifyOrder | src/transforms/es6/providetomodule.js:37-67 | an assignment is an interface, a directive, a Closure class, the default export or moved to a shim exactly when the earlier tests fail and its own holds, in that order; with one module nothing is moved, with several nothing becomes the default export |
| ProvideToModule.LastSlash | src/transforms/es6/providetomodule.js:63 | the index of the last `/`, or -1 when there is none |
| ProvideToModule.BasePathSplit | src/transforms/es6/providetomodule.js:63 | the file path loses its last `/` and the non-empty segment after it, and is kept exactly when it has no such segment |
| ProvideToModule.VisitStep | src/transforms/es6/providetomodule.js:36-67 | one assignment: a shimmed one lowers the count by one and adds its module to the moved ones; the first directive and the first controller name their module, and a second one draws a warning |
| ProvideToModule.VisitAllCounts | src/transforms/es6/providetomodule.js:60-67 | the count drops by the number of shimmed assignments, and the module name is added once per shimmed assignment |
| ProvideToModule.VisitAllDirective | src/transforms/es6/providetomodule.js:39-46 | a directive name already set is kept; otherwise the module's name is taken exactly when one of its assignments is a directive |
| ProvideToModule.VisitAllController | src/transforms/es6/providetomodule.js:47-56 | a controller name already set is kept; otherwise the module's name is taken exactly when one of its assignments is a controller class |
| ProvideToModule.NamespaceStepsFilter | src/transforms/es6/providetomodule.js:80-100 | namespace statements are converted, in order, exactly when they sit at the top level and, for assignments, the assigned name is not itself provided |
| ProvideToModule.DefineStepsTop | src/transforms/es6/providetomodule.js:104-108 | `goog.define` statements are converted, in order, exactly when they sit at the top level |
| ProvideToModule.MovedStepsReferenced | src/transforms/es6/providetomodule.js:131-136 | a moved module still referenced gets a require and its references replaced, and no other module does |
| ProvideToModule.OSGlobalSteps | src/transforms/es6/providetomodule.js:147-149 | one `convertOSGlobal` per global reference found, in order |
| ProvideToModule.FirstNamedSpec | src/transforms/es6/providetomodule.js:40-41 | the name kept is the earliest non-empty name that qualifies, or none |
| ProvideToModule.ModulesVisitCounts | src/transforms/es6/providetomodule.js:33-101 | over all provided names the count drops by exactly the number of modules moved to shims |
| ProvideToModule.ModulesVisitDirective | src/transforms/es6/providetomodule.js:33-101 | the directive name is the first provided name with a directive, unless one was already set |
| ProvideToModule.ModulesVisitController | src/transforms/es6/providetomodule.js:33-101 | the controller name is the first provided name with a controller class, unless one was already set |
| ProvideToModule.UIStageSpec | src/transforms/es6/providetomodule.js:117-128 | with a controller and a directive the count drops by one and the UI modules are renamed; a UI shim is created exactly when the run is not dry and shims are on, and the skipping warning is logged exactly when the run is not dry and shims are off |
| ProvideToModule.FinishFileSpec | src/transforms/es6/providetomodule.js:110-153 | the count drops once for a controller and directive pair, a warning reports a count above one, and the `resolveThis` message is logged exactly when something was replaced |
| ProvideToModule.SingleModuleNotMoved | src/transforms/es6/providetomodule.js:57-59 | a single provided module is never moved to a shim |
| ProvideToModule.TransformSummary | src/transforms/es6/providetomodule.js:22-156 | the first directive and controller are kept, the moved modules are the shimmed assignments' names, and the count left is the provided names less the moved ones and less one for a controller and directive pair |
| ProvideToModule.Driver.constructor | src/transforms/es6/providetomodule.js:26-31 | the count starts at the number of provided names, with no directive, controller or moved module |
| ProvideToModule.Driver.VisitAssignment | src/transforms/es6/providetomodule.js:36-67 | the driver's variables and the log after one assignment are those `Visit` specifies |
| ProvideToModule.Driver.VisitAssignments | src/transforms/es6/providetomodule.js:34-68 | the same over the assignments to one module, in order |
| ProvideToModule.Driver.FlattenNamespace | src/transforms/es6/providetomodule.js:80-100 | one namespace search adds its conversions and changes no counter or name |
| ProvideToModule.Driver.VisitModule | src/transforms/es6/providetomodule.js:33-101 | everything done for one provided name |
| ProvideToModule.Driver.ConvertDefines | src/transforms/es6/providetomodule.js:103-114 | the `goog.define` conversions, the `resolveThis` call and its message |
| ProvideToModule.Driver.ConvertUIModules | src/transforms/es6/providetomodule.js:116-128 | the UI stage as `UIStage` specifies |
| ProvideToModule.Driver.RequireMoved | src/transforms/es6/providetomodule.js:131-136 | a require and a replacement per moved module still referenced, and no counter or name changes |
| ProvideToModule.Driver.FinishRequires | src/transforms/es6/providetomodule.js:131-153 | the moved-module requires, the count warning and the global passes |
| ProvideToModule.ConvertFile | src/transforms/es6/providetomodule.js:22-156 | the driver's variables and the log end as `Transform` says |

## Left out

- Parsing, matching and printing by jscodeshift and recast are not modelled. The tree is the `Ast.Node` datatype, `root.find(...).forEach(...)` is a bottom-up rewrite or a walk over the top-level statements, and the output is the new statement list, not source text.
- Comment placement by recast is simplified: comments sit only on statements, functions, classes and methods, and a node without comments has an empty list. Where the code reads a missing list (`ExportProperty`), the guard is a parameter: as written the read throws, corrected it skips the statement.
- The file system is not modelled. Existing files are a set of paths given by the caller, and a written file is returned as a value (`Shim`).
- The `.jscodeshift.json` loader run when `src/utils/opensphere.js` is loaded is left out; the tables start empty and are filled through the `GlobalRules` methods.
- `config` lookups (`replaceSingletons`, `createUIShims`) and the `dry` option are boolean parameters.
- winston output is two appended message lists (`Logger.Log`); colouring and formatting are left out.
- Several helpers are imported from `./jscs`, which exports only `bindArgs` and `createCall` (`src/utils/jscs.js:42-45`); the model uses what each name evidently means, and as written each is `undefined` where it is used and throws when called. `createMemberExpression` (`src/utils/shim.js:5`) is a parameter of `Shim.CreateUIShim`. `createFindCallFn`, `createFindMemberExprObject` and `replaceFunctionExpressionWithArrow` (`src/transforms/es6/toes6class.js:3`, `src/utils/resolvethis.js:2`) are the definitions of `src/utils/ast.js`. `getWorkspacePath` (`src/transforms/es6/requiretoimport.js:5`, called at line 15) is folded into the caller-supplied `RequireToImport.ImportContext`: `project` is the first segment of the file's path relative to the workspace, and `relativeDir` is what `path.relative` gives. `printSource` (`src/transforms/es6/requiretoimport.js:5`, `fixrequires.js:5`, `fixtestmodules.js:5`, `providetomodule.js:6`) is not modelled, as printing is left out. `memberExpressionToString` (`src/transforms/es6/providetomodule.js:6`, `src/utils/classes.js:7`) is a caller-supplied answer, listed below (`memberText` in `Classes`).
- Two logger names are missing too: `logWithNode`, which `src/utils/logger.js` does not export, is a plain warning; and `logger.setCurrentFile(file.path)`, called on entry by `src/transforms/es6/requiretoimport.js:13`, `fixrequires.js:10`, `fixtestmodules.js:11` and `providetomodule.js:24`, is a method the plain `winston.createLogger` instance of `src/utils/logger.js:14` does not have; the model treats it as doing nothing.
- RequireToImport.RequireToImport, FixRequires.FixRequires, FixRequires.FixTestModules and ProvideToModule.ConvertFile model the transforms as their authors evidently meant them to run: read as written, each throws at `logger.setCurrentFile` on entry, before any of the work modelled here, and leaves the file as it was.
- Helpers that the modelled files import but that the shown files do not define are answers supplied by the caller: `isInterface`, `isDirective`, `isClosureClass`, `isControllerClass`, `isGoogDefine`, `isConst`, `isPrivate`, `getDependency`, `getTempModuleName`, `hasDefaultExport`, `getUniqueVarName`, `memberExpressionToString`, `getGlobalRefs`, `isModuleFile`, `addLegacyNamespace`, and the dependency-sorting helpers of `src/utils/deps.js`.
- Calls into helpers whose code is not part of this model are recorded as effects or steps, in order, instead of being carried out: `replaceLegacyRequire`, `addLegacyRequire`, `replaceSrcGlobals`, `replaceTestGlobals` and `sortModuleRequires` (`OpenSphere`). The same holds for `convertInterface`, `convertDirective` and `replaceProvidesWithModules` as called from `src/transforms/es6/providetomodule.js` (`ProvideToModule`).
- `ProvideToModule`: the results of the tree searches are given as values (`Searches`), as they stand when each search runs. The driver is proved about the order and number of the conversions it calls and about its counters, names and its own log messages; warnings that the conversions it calls log themselves (such as the non-unique name warning of `replaceUIModules`, `src/utils/classes.js:392-403`, or the class passes' warnings) are not in that log. The rewrite each conversion makes, and its warnings, are proved in its own module.
- OpenSphere.LegacyReplacements, OpenSphere.LegacyNamesMembers and OpenSphere.GlobalRules.ConvertLegacyRequires describe the corrected search (a top-level statement whose expression is a `goog.require` call); as written the search matches nothing and the pass does nothing (`LegacyRequireMissed`, and the row under Findings).
- CallToBinary.Convert, Classes.BaseRule, CallToBinaryScript.ReplaceCallWithBinaryExpression and CallToBinaryScript.ScriptComplete (which reuse `CallToBinary.ConvertStatements`) rewrite children before their parent, where `forEach` goes outer match first. The results differ only when one match lies inside another's replaced part: for `goog.isDef(goog.isDef(x))` the source gives `goog.isDef(x) !== undefined`, the model `x !== undefined !== undefined`; `M.base(this, 'f', M.base(this, 'g'))` differs in the same way.
- Classes.AfterPrototypes: an own `superClass_` reference whose third ancestor is a call or `new` other than the `C.superClass_.m.call(...)` chain (such as `g(f(C.superClass_.m), y)` or `new C.superClass_.m.call(this)`) has that call replaced by the source and is left alone by the model; the throwing cases and the warnings are modelled.
- Goog.SortRequires, Goog.AddRequire, GoogRequire.Add, GoogRequire.Sort and ArrayRules.ReplaceFind see only top-level `goog.require('x');` statements, where the source searches for the call anywhere, including `const X = goog.require('x')`. Their `requires NamedRequires` leaves out `goog.require()` without an argument and a non-literal argument, on which the source throws.
- ArrayRules.FindPassComplete and ArrayRules.ReplaceFind: for a three-argument `goog.array.find` inside the arguments of another, as in `goog.array.find(goog.array.find(a, f, this), g, this)`, the source replaces the outer call first with arguments built anew (`bindArgs`), so the inner call's later replacement lands in the detached argument list and the result is `ol.array.find(goog.array.find(a, f, this), g.bind(this))`; the model converts both calls.
- Classes.SuperclassRuleClears and Classes.AfterPrototypes: for a `superClass_` call inside the arguments of another, as in `M.superClass_.f.call(this, M.superClass_.g.call(this))`, the source copies the outer call's arguments (`slice(1)`, `src/utils/classes.js:332`), so the inner call's later replacement lands in the detached list and the result is `super.f(M.superClass_.g.call(this))`; the model gives `super.f(super.g())`.
- ExportProperty.ExportPropertyIn: in the fallback pass, a `goog.exportProperty` call inside the arguments of another, as in `goog.exportProperty(a, 'b', goog.exportProperty(c, 'd', e))`, is replaced by the source only at the outer level, because the inner replacement lands in the detached outer call; the model (`RewriteAll` with `Fallback`) converts both.
- ExportProperty.PrevStep: an expression kept as an `Ast.Other` node (a logical expression such as `a.b_ || c`, say) is read as having no `left` operand and throws `ReadPropertyError`, where the source renames and tags it like an assignment; assignments and binary expressions, the ones the tree has a `left` for, are modelled.
- ResolveThis.ResolveThisIn and ResolveThis.ApplyPatterns: for a selected call inside a callback whose single return the outer rewrite lifts into an arrow's body, as in `goog.bind(function() { return goog.bind(function() { return 1; }, this); }, this)`, the source writes the inner replacement into the detached return statement and gives `() => goog.bind(() => 1)`; the model gives `() => () => 1`.
- ClassPass.RunPass, Classes.PrototypePassMovesFunctions and Classes.StaticPassMovesFunctions walk the top-level statements only, where the searches of `src/utils/classes.js:630-651` cover the whole tree: a prototype function or a function-valued `os.M.f = function() {};` assigned inside a function body is moved into the class by the source and left in place by the model.
- ToEs6Class.StaticPassConvertsAll, ToEs6Class.PrototypePassSorts and ToEs6Class.ConvertFile walk the top-level statements only, where the searches of `src/transforms/es6/toes6class.js:145-158` cover the whole tree. A nested `os.M.x = v;`, as in `os.M.prototype.reset = function() { os.M.count = 0; };`, is matched by the source's static pass, which throws on it when it has no comments (`jscs.commentBlock(undefined)` for the getter, `src/utils/classes.js:95`, or `comments.pop()` of undefined for a private one, `src/transforms/es6/toes6class.js:27`), so the file is left; the model leaves the statement and completes the conversion. Prototype members assigned inside function bodies are likewise handled by the source and left by the model.
- ToEs6Class.StaticPassConvertsAll: the source renames the references to a private static as soon as it converts it (`src/transforms/es6/toes6class.js:44`), so for `/** @private */ M._a = 1; /** @private */ M._a = 2;` the second handler reads `.property.name` of an identifier and throws; the model renames after the pass (`ClassPass.Apply`) and makes two constants.
- AstUtils.ReplaceFunctionExpressionWithArrow: for `function() { return; }` the model gives an arrow whose body is `Absent`, where `j.arrowFunctionExpression(params, null)` throws.
- CallToBinary.CallToBinaryIn reads the walk's node types, comments, parentheses and lines on positions of the tree as it was before the pass (`Annotations`, given by the caller); a replaced node reads as a fresh node without comments or parentheses. The `Program` and `File` frames are left out, as neither is a kind the walk stops at. The deleted comments are returned as position overrides (`touched`), not written into the tree, since `ObjectExpression` carries no comments in the model.
- Strings.ToLower folds ASCII letters only; the file and module names it is used on (`ClassNames.DirectiveTag`, the shim file names) are ASCII in practice.
- `path.relative` in `getDepPath` is a function supplied by the caller (`RequireToImport`); `path.resolve` and `path.join` are folded into it.
- Node identity is kept only where the code depends on it: a class declaration carries a `uid` for the class registry, and a dependency carries an identity for the `self.indexOf(d)` de-duplication.
- Regular expressions are written out as the string functions they amount to for the patterns used; there is no general regular-expression engine.
- String order is by character code, as `Array.prototype.sort` and the comparators compare; there is no locale.
- The reporting scripts under `src/scripts/`, `scripts/alltransforms.js`, and the thin transforms over helpers that are not shown (`moduletoes6.js`, `removelegacyns.js`, `replaceglobals.js`, `fiximports.js`, `typedefrequire.js`, `array/ol.js`, `array/os.js`, `base.js`, `bind.js`) are not part of this model.
- The call-to-binary option tables (`isdef.js`, `isboolean.js` and the others) are constants of `CallToBinary`; only those with a row above carry a lemma of their own.
- ClassModules.DefineConversion: its own contract only says that a failure leaves the file and that success keeps the number of statements; `DefineExported` and `DefineLocal` state the rest.
- ClassModules.NamespaceConversion: its own contract only says that a failure leaves the file and that success keeps the number of statements; `NamespaceConverted` states the rest.
- ToEs6Class.Es6ClassConversion: its own contract only says that a failure leaves the file; `ConversionNeedsComments`, `ConvertAtExports` and the pass lemmas state the rest.
- ToEs6Class.ConvertFile and the functions under it take the reading of `splitCommentsForClass`'s result as a parameter, so that the conversion can be stated both as written and as corrected.
- FixRequires.FixTestModules and OpenSphere.GlobalRules.ConvertGlobalRefs take the test-file answer as a parameter. The Karma recogniser as written never holds (`Karma.IsKarmaTestNever`), so with it these branches could not be reached.

## Findings

| source | as written | input that shows it | evidently intended | confidence | as-written member | corrected member |
|---|---|---|---|---|---|---|
| src/transforms/goog/exportproperty.js:59 | the previous statement's comment count is read through `prev.comments.length`, which throws when recast attached no comments to that statement | an exportable `goog.exportProperty(X.prototype, 'f', X.prototype.f)` right after an uncommented expression statement | a statement without comments is skipped and the pass goes on | medium; not executed | ExportProperty.UncommentedPreviousThrows | ExportProperty.UncommentedPreviousSkipped |
| transforms/goog-exportproperty.js:49 | the same read of `prev.comments.length` in the older transform | the same input | the same | medium; not executed | ExportProperty.UncommentedPreviousThrows | ExportProperty.UncommentedPreviousSkipped |
| src/transforms/es6/requiretoimport.js:68 | the key test compares the key node with the string `'default'`, which never holds | `const {default: x} = goog.require('a.b');` for an ES module | `import x from '...'` | medium; not executed | RequireToImport.DefaultKeyAsWritten | RequireToImport.DefaultKeyCorrected |
| src/transforms/es6/toes6class.js:133 | the result of `splitCommentsForClass` is read under the names `classComment` and `ctorComment`, but the function returns `body` and `ctor`; `commentBlock(undefined)` then throws | any Closure constructor with a JSDoc comment | the class gets the class part of the comment and the constructor the constructor part | high; not executed | ToEs6Class.CommentedConstructor | ToEs6Class.DeclarationFor |
| src/utils/karma.js:28 | the pattern starts with `$`, so it never matches, and its boolean result is compared with the string `'describe'` | a test file with a top-level `describe('name', fn)` | `describe`, `xdescribe` and `ddescribe` calls are recognised | high; not executed | Karma.DescribeFileMissed | Karma.DescribeName |
| src/utils/opensphere.js:148 | the legacy requires are searched as expression statements that pass `isGoogRequire`, which accepts only calls, so the search is empty and the pass does nothing | `goog.require('a.b');` at the top of a module file, with `a.b` not in the global table | the require is replaced, or added back with a warning when nothing referred to it | high; not executed | OpenSphere.LegacyRequireMissed | OpenSphere.GlobalRules.ConvertLegacyRequires |
| src/utils/googrequire.js:24 | the duplicate test compares the argument node with the name string, which never holds | `add(root, 'a.b')` on a file that already requires `a.b` | the name is added only when it is not yet required, as `addRequire` of `src/utils/goog.js` does | high; not executed | GoogRequire.AddDuplicates | Goog.AddRequire |
