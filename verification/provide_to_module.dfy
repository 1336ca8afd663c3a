/**
 * `src/transforms/es6/providetomodule.js`: the driver that turns a file of
 * `goog.provide`d names into a `goog.module`. For each provided name it
 * classifies the assignments to that name in a fixed order (interface,
 * directive, closure class, sole default export, shim), remembers the first
 * directive and the first controller, counts the modules left in the file,
 * and then runs the file-wide passes in a fixed order.
 *
 * The conversions the driver calls rewrite the tree; they are modelled in
 * their own modules (Classes, ClassModules, Shim, OpenSphere, ResolveThis).
 * Here each call is recorded as a `Step`, in the order the driver makes it,
 * and what the tree searches return is given as `Searches`.
 */
module ProvideToModule {
  import opened Strings
  import opened Seqs
  import opened Ast
  import opened Logger
  import ClassNames

  /** The recognisers the driver asks about an assignment's statement; they come from helpers outside the modelled files. */
  datatype Recognisers = Recognisers(
    isInterface: Node -> bool,
    isDirective: Node -> bool,
    isClosureClass: Node -> bool,
    isControllerClass: Node -> bool,
    memberText: Node -> string)

  /** A statement found by a search, and whether its parent is the Program. */
  datatype Found = Found(statement: Node, atTop: bool)

  /** What the tree searches return at the moment the driver runs them. */
  datatype Searches = Searches(
    assignments: string -> seq<Node>,
    namespaceAssignments: string -> seq<Found>,
    namespaceMembers: string -> seq<Found>,
    defines: seq<Found>,
    replacedThis: nat,
    referenced: string -> bool,
    osGlobals: seq<Node>)

  /** The file path, the `--dry` option, the `createUIShims` setting and the module lookup of `replaceUIModules`. */
  datatype Options = Options(filePath: string, dry: bool, createUIShims: bool, taken: string -> bool)

  /** What the driver does with an assignment to a provided name. */
  datatype Kind = Interface | Directive | ClosureClass | DefaultExport | MovedToShim | Untouched

  /** A call the driver makes, in order. */
  datatype Step =
    | ConvertInterface(moduleName: string, statement: Node)
    | ConvertDirective(moduleName: string, statement: Node)
    | ConvertClass(moduleName: string, statement: Node)
    | ExportDefault(statement: Node)
    | CreateAssignmentShim(moduleName: string, statement: Node, basePath: string, writeFile: bool)
    | ConvertNamespaceExpression(moduleName: string, statement: Node)
    | ConvertGoogDefine(statement: Node, modules: seq<string>)
      /** `resolveThis(root)`: inline functions that read `this` become arrow functions. */
    | ResolveInlineThis
    | ReplaceUIModules(controllerName: string, directiveName: string)
    | CreateUIShim(filePath: string, controllerName: string, directiveName: string)
    | AddLegacyRequire(name: string)
    | ReplaceLegacyRequire(name: string)
    | ConvertLegacyRequires
    | ConvertOSGlobal(node: Node)
    | ConvertGlobalRefs
    | SortModuleRequires

  const MultipleDirectives := "Detected multiple directives. Combine or separate into new files."
  const MultipleControllers := "Detected multiple controllers. Combine or separate into new files."

  /**
   * The classification, asked in this order: interface, directive, closure
   * class, then by the number of provided names the sole default export or
   * a move to a shim file.
   */
  function Classify(s: Node, rc: Recognisers, provided: nat): Kind
  {
    if rc.isInterface(s) then Interface
    else if rc.isDirective(s) then Directive
    else if rc.isClosureClass(s) then ClosureClass
    else if provided == 1 then DefaultExport
    else if provided > 1 then MovedToShim
    else Untouched
  }

  /** Each kind is chosen exactly when the earlier questions were answered no and its own yes. */
  lemma ClassifyOrder(s: Node, rc: Recognisers, provided: nat)
    ensures Classify(s, rc, provided) == Interface <==> rc.isInterface(s)
    ensures Classify(s, rc, provided) == Directive <==> !rc.isInterface(s) && rc.isDirective(s)
    ensures Classify(s, rc, provided) == ClosureClass <==> !rc.isInterface(s) && !rc.isDirective(s) && rc.isClosureClass(s)
    ensures Classify(s, rc, provided) == DefaultExport <==>
      !rc.isInterface(s) && !rc.isDirective(s) && !rc.isClosureClass(s) && provided == 1
    ensures Classify(s, rc, provided) == MovedToShim <==>
      !rc.isInterface(s) && !rc.isDirective(s) && !rc.isClosureClass(s) && provided > 1
  {
  }

  /** The index of the last `/` in `s`, or -1. */
  function LastSlash(s: string): (r: int)
    ensures -1 <= r < |s|
    ensures r >= 0 ==> s[r] == '/'
    ensures forall j :: r < j < |s| ==> s[j] != '/'
  {
    if s == [] then -1
    else if s[|s| - 1] == '/' then |s| - 1
    else LastSlash(s[..|s| - 1])
  }

  /** `path.replace(/\/[^/]+$/, '')`: the last `/name` removed; a path ending in `/` or without one is kept. */
  function BasePath(path: string): string
  {
    var i := LastSlash(path);
    if 0 <= i < |path| - 1 then path[..i] else path
  }

  /**
   * Either the path is kept, or it is the result followed by `/` and a
   * non-empty last segment that holds no `/`; it is kept exactly when no
   * `/` is followed by such a segment.
   */
  lemma BasePathSplit(path: string)
    ensures var b := BasePath(path);
      (b == path <==> (path == [] || path[|path| - 1] == '/' || '/' !in path)) &&
      (b != path ==> exists tail :: path == b + "/" + tail && tail != [] && '/' !in tail)
  {
    var i := LastSlash(path);
    if 0 <= i < |path| - 1 {
      var tail := path[i + 1..];
      assert path == path[..i] + "/" + tail;
      assert '/' !in tail by {
        forall k | 0 <= k < |tail| ensures tail[k] != '/' {
          assert tail[k] == path[i + 1 + k];
        }
      }
      assert path[|path| - 1] != '/';
      assert '/' in path by { assert path[i] == '/'; }
    } else if i == -1 {
      assert '/' !in path by {
        forall k | 0 <= k < |path| ensures path[k] != '/' { }
      }
    }
  }

  // ------------------------------------------------------------- bookkeeping

  /**
   * The driver's variables: `moduleCount`, `directiveName` and
   * `controllerName` (empty while unset, as both are only tested for
   * truthiness), `movedModules`, the calls made so far and the messages
   * logged.
   */
  datatype Books = Books(moduleCount: int, directiveName: string, controllerName: string,
                         movedModules: seq<string>, steps: seq<Step>, warnings: seq<string>, infos: seq<string>)

  /** The first directive name wins; a later directive only logs a warning. */
  function NoteDirective(b: Books, moduleName: string): (r: Books)
  {
    if b.directiveName == "" then Books(b.moduleCount, moduleName, b.controllerName, b.movedModules, b.steps, b.warnings, b.infos)
    else Books(b.moduleCount, b.directiveName, b.controllerName, b.movedModules, b.steps, b.warnings + [MultipleDirectives], b.infos)
  }

  /** The first controller name wins; a later controller only logs a warning. */
  function NoteController(b: Books, moduleName: string): (r: Books)
  {
    if b.controllerName == "" then Books(b.moduleCount, b.directiveName, moduleName, b.movedModules, b.steps, b.warnings, b.infos)
    else Books(b.moduleCount, b.directiveName, b.controllerName, b.movedModules, b.steps, b.warnings + [MultipleControllers], b.infos)
  }

  function AddStep(b: Books, step: Step): Books
  {
    Books(b.moduleCount, b.directiveName, b.controllerName, b.movedModules, b.steps + [step], b.warnings, b.infos)
  }

  /** The body of the `forEach` over the assignments to `moduleName`. */
  function Visit(b: Books, s: Node, moduleName: string, rc: Recognisers, provided: nat, basePath: string, writeFile: bool): (r: Books)
  {
    match Classify(s, rc, provided)
    case Interface => AddStep(b, ConvertInterface(moduleName, s))
    case Directive => AddStep(NoteDirective(b, moduleName), ConvertDirective(moduleName, s))
    case ClosureClass =>
      var b' := if rc.isControllerClass(s) then NoteController(b, moduleName) else b;
      AddStep(b', ConvertClass(moduleName, s))
    case DefaultExport => AddStep(b, ExportDefault(s))
    case MovedToShim =>
      Books(b.moduleCount - 1, b.directiveName, b.controllerName, b.movedModules + [moduleName],
            b.steps + [CreateAssignmentShim(moduleName, s, basePath, writeFile)], b.warnings, b.infos)
    case Untouched => b
  }

  /** The visits of the statements in order. */
  function VisitAll(b: Books, ss: seq<Node>, moduleName: string, rc: Recognisers, provided: nat, basePath: string, writeFile: bool): (r: Books)
    decreases |ss|
  {
    if ss == [] then b
    else Visit(VisitAll(b, ss[..|ss| - 1], moduleName, rc, provided, basePath, writeFile), ss[|ss| - 1], moduleName, rc, provided, basePath, writeFile)
  }

  /** The assignments that are moved to a shim file. */
  function Shimmed(rc: Recognisers, provided: nat): Node -> bool
  {
    (s: Node) => Classify(s, rc, provided) == MovedToShim
  }

  /** The assignments classified as directives. */
  function Directives(rc: Recognisers): Node -> bool
  {
    (s: Node) => !rc.isInterface(s) && rc.isDirective(s)
  }

  /** The assignments classified as controller classes. */
  function Controllers(rc: Recognisers): Node -> bool
  {
    (s: Node) => !rc.isInterface(s) && !rc.isDirective(s) && rc.isClosureClass(s) && rc.isControllerClass(s)
  }

  /** `n` copies of `x`. */
  function Copies<T>(x: T, n: nat): (r: seq<T>)
    ensures |r| == n && forall i :: 0 <= i < n ==> r[i] == x
  {
    if n == 0 then [] else Copies(x, n - 1) + [x]
  }

  /** What one visit does to the counters and names. */
  lemma VisitStep(b: Books, s: Node, moduleName: string, rc: Recognisers, provided: nat, basePath: string, writeFile: bool)
    ensures var r := Visit(b, s, moduleName, rc, provided, basePath, writeFile);
      var shimmed := Shimmed(rc, provided)(s);
      r.moduleCount == b.moduleCount - (if shimmed then 1 else 0) &&
      r.movedModules == b.movedModules + (if shimmed then [moduleName] else []) &&
      r.directiveName == (if b.directiveName == "" && Directives(rc)(s) then moduleName else b.directiveName) &&
      r.controllerName == (if b.controllerName == "" && Controllers(rc)(s) then moduleName else b.controllerName)
  {
  }

  /**
   * Each assignment moved to a shim lowers the module count by one and
   * adds the module name to the moved modules: the count drops by the
   * number of shimmed assignments, not by the number of modules.
   */
  lemma {:induction false} VisitAllCounts(b: Books, ss: seq<Node>, moduleName: string, rc: Recognisers, provided: nat, basePath: string, writeFile: bool)
    ensures var r := VisitAll(b, ss, moduleName, rc, provided, basePath, writeFile);
      var n := |Filter(ss, Shimmed(rc, provided))|;
      r.moduleCount == b.moduleCount - n && r.movedModules == b.movedModules + Copies(moduleName, n)
    decreases |ss|
  {
    if ss != [] {
      var init := ss[..|ss| - 1];
      var s := ss[|ss| - 1];
      VisitAllCounts(b, init, moduleName, rc, provided, basePath, writeFile);
      VisitStep(VisitAll(b, init, moduleName, rc, provided, basePath, writeFile), s, moduleName, rc, provided, basePath, writeFile);
      LastSplit(ss, |ss| - 1);
      FilterAppend(init, s, Shimmed(rc, provided));
      var n := |Filter(init, Shimmed(rc, provided))|;
      Assoc(b.movedModules, Copies(moduleName, n), [moduleName]);
    }
  }

  /**
   * First directive wins: a directive name already set is kept; otherwise
   * the module's name is taken exactly when one of its assignments is a
   * directive.
   */
  lemma {:induction false} VisitAllDirective(b: Books, ss: seq<Node>, moduleName: string, rc: Recognisers, provided: nat, basePath: string, writeFile: bool)
    ensures var r := VisitAll(b, ss, moduleName, rc, provided, basePath, writeFile);
      r.directiveName ==
        if b.directiveName == "" && Filter(ss, Directives(rc)) != [] then moduleName else b.directiveName
    decreases |ss|
  {
    if ss != [] {
      var init := ss[..|ss| - 1];
      var s := ss[|ss| - 1];
      VisitAllDirective(b, init, moduleName, rc, provided, basePath, writeFile);
      VisitStep(VisitAll(b, init, moduleName, rc, provided, basePath, writeFile), s, moduleName, rc, provided, basePath, writeFile);
      LastSplit(ss, |ss| - 1);
      FilterAppend(init, s, Directives(rc));
    }
  }

  /**
   * First controller wins: a controller name already set is kept;
   * otherwise the module's name is taken exactly when one of its
   * assignments is a controller class.
   */
  lemma {:induction false} VisitAllController(b: Books, ss: seq<Node>, moduleName: string, rc: Recognisers, provided: nat, basePath: string, writeFile: bool)
    ensures var r := VisitAll(b, ss, moduleName, rc, provided, basePath, writeFile);
      r.controllerName ==
        if b.controllerName == "" && Filter(ss, Controllers(rc)) != [] then moduleName else b.controllerName
    decreases |ss|
  {
    if ss != [] {
      var init := ss[..|ss| - 1];
      var s := ss[|ss| - 1];
      VisitAllController(b, init, moduleName, rc, provided, basePath, writeFile);
      VisitStep(VisitAll(b, init, moduleName, rc, provided, basePath, writeFile), s, moduleName, rc, provided, basePath, writeFile);
      LastSplit(ss, |ss| - 1);
      FilterAppend(init, s, Controllers(rc));
    }
  }

  /** Whether a namespace statement is converted: at the top level, and for assignments only when the assigned name is not provided. */
  predicate Flattened(f: Found, modules: seq<string>, rc: Recognisers, isAssignment: bool)
  {
    f.atTop &&
    (isAssignment ==>
       f.statement.ExpressionStatement? && f.statement.expression.AssignmentExpression? &&
       rc.memberText(f.statement.expression.left) !in modules)
  }

  /** The `convertNamespaceExpression` calls of one of the two namespace searches, in order. */
  function NamespaceSteps(found: seq<Found>, moduleName: string, modules: seq<string>, rc: Recognisers, isAssignment: bool): (r: seq<Step>)
    decreases |found|
  {
    if found == [] then []
    else
      var f := found[|found| - 1];
      NamespaceSteps(found[..|found| - 1], moduleName, modules, rc, isAssignment) +
        (if Flattened(f, modules, rc, isAssignment) then [ConvertNamespaceExpression(moduleName, f.statement)] else [])
  }

  /**
   * Namespace statements are converted exactly when they sit at the top
   * level and, for assignments, the isAssignment name is not itself provided:
   * the calls are the accepted statements, in order.
   */
  lemma {:induction false} NamespaceStepsFilter(found: seq<Found>, moduleName: string, modules: seq<string>, rc: Recognisers, isAssignment: bool)
    ensures var accepted := Filter(found, (f: Found) => Flattened(f, modules, rc, isAssignment));
      |NamespaceSteps(found, moduleName, modules, rc, isAssignment)| == |accepted| &&
      forall i :: 0 <= i < |accepted| ==>
        NamespaceSteps(found, moduleName, modules, rc, isAssignment)[i] == ConvertNamespaceExpression(moduleName, accepted[i].statement)
    decreases |found|
  {
    if found != [] {
      var init := found[..|found| - 1];
      var f := found[|found| - 1];
      NamespaceStepsFilter(init, moduleName, modules, rc, isAssignment);
      LastSplit(found, |found| - 1);
      FilterAppend(init, f, (f: Found) => Flattened(f, modules, rc, isAssignment));
    }
  }

  /** Everything `modules.forEach` does for one provided name. */
  function ModuleVisit(b: Books, moduleName: string, modules: seq<string>, searches: Searches, rc: Recognisers, basePath: string, writeFile: bool): (r: Books)
  {
    var v := VisitAll(b, searches.assignments(moduleName), moduleName, rc, |modules|, basePath, writeFile);
    Books(v.moduleCount, v.directiveName, v.controllerName, v.movedModules,
          v.steps + NamespaceSteps(searches.namespaceAssignments(moduleName), moduleName, modules, rc, true)
                  + NamespaceSteps(searches.namespaceMembers(moduleName), moduleName, modules, rc, false),
          v.warnings, v.infos)
  }

  /** The visits of the provided names in order. */
  function ModulesVisit(b: Books, names: seq<string>, modules: seq<string>, searches: Searches, rc: Recognisers, basePath: string, writeFile: bool): (r: Books)
    decreases |names|
  {
    if names == [] then b
    else ModuleVisit(ModulesVisit(b, names[..|names| - 1], modules, searches, rc, basePath, writeFile), names[|names| - 1], modules, searches, rc, basePath, writeFile)
  }

  /** The `convertGoogDefine` calls: the top-level defines, in order. */
  function DefineSteps(found: seq<Found>, modules: seq<string>): (r: seq<Step>)
    ensures |r| <= |found|
    ensures forall i :: 0 <= i < |r| ==> r[i].ConvertGoogDefine? && r[i].modules == modules
    decreases |found|
  {
    if found == [] then []
    else
      var f := found[|found| - 1];
      DefineSteps(found[..|found| - 1], modules) + (if f.atTop then [ConvertGoogDefine(f.statement, modules)] else [])
  }

  /** Defines are converted exactly when they sit at the top level. */
  lemma {:induction false} DefineStepsTop(found: seq<Found>, modules: seq<string>)
    ensures var top := Filter(found, (f: Found) => f.atTop);
      |DefineSteps(found, modules)| == |top| &&
      forall i :: 0 <= i < |top| ==> DefineSteps(found, modules)[i] == ConvertGoogDefine(top[i].statement, modules)
    decreases |found|
  {
    if found != [] {
      var init := found[..|found| - 1];
      var f := found[|found| - 1];
      DefineStepsTop(init, modules);
      LastSplit(found, |found| - 1);
      FilterAppend(init, f, (f: Found) => f.atTop);
    }
  }

  /** The message logged after `resolveThis` replaced `n` functions. */
  function ResolveThisInfo(n: nat): string
  {
    "[no-invalid-this] Converted " + NatToString(n) + " inline function" + (if n > 1 then "s" else "") + " to arrow functions."
  }

  function SkipShimsWarning(controllerName: string, directiveName: string, newModuleName: string): string
  {
    "Skipping UI shims. Replace refs to " + controllerName + " and " + directiveName + " with " + newModuleName + "."
  }

  /**
   * A controller and a directive in the same file: one module fewer, the
   * UI modules are renamed, and outside a dry run a UI shim is created or,
   * with shims turned off, a warning is logged.
   */
  function UIStage(b: Books, opts: Options): (r: Books)
  {
    if b.controllerName == "" || b.directiveName == "" then b
    else
      var renamed := b.steps + [ReplaceUIModules(b.controllerName, b.directiveName)];
      var newModuleName := ClassNames.UIModuleName(b.controllerName, opts.taken).name;
      if opts.dry then Books(b.moduleCount - 1, b.directiveName, b.controllerName, b.movedModules, renamed, b.warnings, b.infos)
      else if opts.createUIShims then
        Books(b.moduleCount - 1, b.directiveName, b.controllerName, b.movedModules,
              renamed + [CreateUIShim(opts.filePath, b.controllerName, b.directiveName)], b.warnings, b.infos)
      else
        Books(b.moduleCount - 1, b.directiveName, b.controllerName, b.movedModules, renamed,
              b.warnings + [SkipShimsWarning(b.controllerName, b.directiveName, newModuleName)], b.infos)
  }

  /** A moved module still referenced in the file gets a `goog.require` and its references replaced. */
  function MovedSteps(names: seq<string>, referenced: string -> bool): (r: seq<Step>)
    decreases |names|
  {
    if names == [] then []
    else
      var name := names[|names| - 1];
      MovedSteps(names[..|names| - 1], referenced) +
        (if referenced(name) then [AddLegacyRequire(name), ReplaceLegacyRequire(name)] else [])
  }

  /** Two calls per referenced moved module, for no other module. */
  lemma {:induction false} MovedStepsReferenced(names: seq<string>, referenced: string -> bool)
    ensures |MovedSteps(names, referenced)| == 2 * |Filter(names, referenced)|
    ensures forall name :: AddLegacyRequire(name) in MovedSteps(names, referenced) <==> name in names && referenced(name)
    decreases |names|
  {
    if names != [] {
      var init := names[..|names| - 1];
      var name := names[|names| - 1];
      MovedStepsReferenced(init, referenced);
      LastSplit(names, |names| - 1);
      FilterAppend(init, name, referenced);
      forall x ensures x in names <==> x in init || x == name {
        assert names == init + [name];
      }
    }
  }

  function CountWarning(moduleCount: int): string
    requires moduleCount >= 0
  {
    NatToString(moduleCount) + " modules remaining in file. Combine or separate into new files."
  }

  /** One `convertOSGlobal` call per global reference found. */
  function OSGlobalSteps(nodes: seq<Node>): (r: seq<Step>)
    ensures |r| == |nodes| && forall i :: 0 <= i < |nodes| ==> r[i] == ConvertOSGlobal(nodes[i])
  {
    seq(|nodes|, i requires 0 <= i < |nodes| => ConvertOSGlobal(nodes[i]))
  }

  /** The defines at the top level, then `resolveThis` and its message when something was replaced. */
  function DefineStage(b: Books, modules: seq<string>, searches: Searches): (r: Books)
  {
    var infos := if searches.replacedThis != 0 then b.infos + [ResolveThisInfo(searches.replacedThis)] else b.infos;
    Books(b.moduleCount, b.directiveName, b.controllerName, b.movedModules,
          b.steps + DefineSteps(searches.defines, modules) + [ResolveInlineThis], b.warnings, infos)
  }

  /** The moved modules' requires, the count warning and the global passes. */
  function TailStage(u: Books, searches: Searches): (r: Books)
  {
    var warnings := if u.moduleCount > 1 then u.warnings + [CountWarning(u.moduleCount)] else u.warnings;
    Books(u.moduleCount, u.directiveName, u.controllerName, u.movedModules,
          u.steps + MovedSteps(u.movedModules, searches.referenced) + [ConvertLegacyRequires]
                  + OSGlobalSteps(searches.osGlobals) + [ConvertGlobalRefs, ConvertLegacyRequires, SortModuleRequires],
          warnings, u.infos)
  }

  /** The passes after the last provided name, in order. */
  function FinishFile(b: Books, modules: seq<string>, searches: Searches, opts: Options): (r: Books)
  {
    TailStage(UIStage(DefineStage(b, modules, searches), opts), searches)
  }

  /** The driver over a file whose provides were replaced by `modules`, starting from the messages logged so far. */
  function Transform(modules: seq<string>, searches: Searches, rc: Recognisers, opts: Options, warnings: seq<string>, infos: seq<string>): (r: Books)
  {
    var start := Books(|modules|, "", "", [], [], warnings, infos);
    var v := ModulesVisit(start, modules, modules, searches, rc, BasePath(opts.filePath), !opts.dry);
    FinishFile(v, modules, searches, opts)
  }

  // ------------------------------------------------------------- summaries

  /** Whether an assignment to `name` is classified as a directive. */
  function HasDirective(searches: Searches, rc: Recognisers): string -> bool
  {
    (name: string) => Filter(searches.assignments(name), Directives(rc)) != []
  }

  /** Whether an assignment to `name` is classified as a controller class. */
  function HasController(searches: Searches, rc: Recognisers): string -> bool
  {
    (name: string) => Filter(searches.assignments(name), Controllers(rc)) != []
  }

  /** The first non-empty name satisfying `has`, or the empty name when there is none. */
  function FirstNamed(names: seq<string>, has: string -> bool): string
    decreases |names|
  {
    if names == [] then ""
    else
      var first := FirstNamed(names[..|names| - 1], has);
      var last := names[|names| - 1];
      if first != "" then first else if last != "" && has(last) then last else ""
  }

  /** `FirstNamed` is empty exactly when no non-empty name qualifies, and otherwise the earliest that does. */
  lemma {:induction false} FirstNamedSpec(names: seq<string>, has: string -> bool)
    ensures var r := FirstNamed(names, has);
      (r == "" <==> forall i :: 0 <= i < |names| ==> names[i] == "" || !has(names[i])) &&
      (r != "" ==> exists i :: 0 <= i < |names| && names[i] == r && has(r) &&
                    forall j :: 0 <= j < i ==> names[j] == "" || !has(names[j]))
    decreases |names|
  {
    if names != [] {
      var init := names[..|names| - 1];
      FirstNamedSpec(init, has);
      var first := FirstNamed(init, has);
      if first != "" {
        var i :| 0 <= i < |init| && init[i] == first && has(first) &&
                 forall j :: 0 <= j < i ==> init[j] == "" || !has(init[j]);
        assert names[i] == first;
      } else {
        var r := FirstNamed(names, has);
        if r != "" {
          assert names[|names| - 1] == r;
        }
      }
    }
  }

  /** The modules moved to shim files: each name once per shimmed assignment to it, in order. */
  function Moved(names: seq<string>, searches: Searches, rc: Recognisers, provided: nat): seq<string>
    decreases |names|
  {
    if names == [] then []
    else
      var last := names[|names| - 1];
      Moved(names[..|names| - 1], searches, rc, provided) +
        Copies(last, |Filter(searches.assignments(last), Shimmed(rc, provided))|)
  }

  /** Over all provided names, the module count drops by exactly the number of modules moved to shims. */
  lemma {:induction false} ModulesVisitCounts(b: Books, names: seq<string>, modules: seq<string>, searches: Searches, rc: Recognisers, basePath: string, writeFile: bool)
    ensures var r := ModulesVisit(b, names, modules, searches, rc, basePath, writeFile);
      r.movedModules == b.movedModules + Moved(names, searches, rc, |modules|) &&
      r.moduleCount == b.moduleCount - |Moved(names, searches, rc, |modules|)|
    decreases |names|
  {
    if names != [] {
      var init := names[..|names| - 1];
      var last := names[|names| - 1];
      ModulesVisitCounts(b, init, modules, searches, rc, basePath, writeFile);
      var m := ModulesVisit(b, init, modules, searches, rc, basePath, writeFile);
      VisitAllCounts(m, searches.assignments(last), last, rc, |modules|, basePath, writeFile);
      Assoc(b.movedModules, Moved(init, searches, rc, |modules|),
            Copies(last, |Filter(searches.assignments(last), Shimmed(rc, |modules|))|));
    }
  }

  /** Over all provided names, the directive name is the first provided name with a directive, unless one was already set. */
  lemma {:induction false} ModulesVisitDirective(b: Books, names: seq<string>, modules: seq<string>, searches: Searches, rc: Recognisers, basePath: string, writeFile: bool)
    ensures ModulesVisit(b, names, modules, searches, rc, basePath, writeFile).directiveName ==
      if b.directiveName == "" then FirstNamed(names, HasDirective(searches, rc)) else b.directiveName
    decreases |names|
  {
    if names != [] {
      var init := names[..|names| - 1];
      var last := names[|names| - 1];
      ModulesVisitDirective(b, init, modules, searches, rc, basePath, writeFile);
      var m := ModulesVisit(b, init, modules, searches, rc, basePath, writeFile);
      VisitAllDirective(m, searches.assignments(last), last, rc, |modules|, basePath, writeFile);
    }
  }

  /** Over all provided names, the controller name is the first provided name with a controller class, unless one was already set. */
  lemma {:induction false} ModulesVisitController(b: Books, names: seq<string>, modules: seq<string>, searches: Searches, rc: Recognisers, basePath: string, writeFile: bool)
    ensures ModulesVisit(b, names, modules, searches, rc, basePath, writeFile).controllerName ==
      if b.controllerName == "" then FirstNamed(names, HasController(searches, rc)) else b.controllerName
    decreases |names|
  {
    if names != [] {
      var init := names[..|names| - 1];
      var last := names[|names| - 1];
      ModulesVisitController(b, init, modules, searches, rc, basePath, writeFile);
      var m := ModulesVisit(b, init, modules, searches, rc, basePath, writeFile);
      VisitAllController(m, searches.assignments(last), last, rc, |modules|, basePath, writeFile);
    }
  }

  /**
   * The UI stage: with both a controller and a directive the count drops by
   * one and the modules are renamed; a UI shim is requested exactly when the
   * run is not dry and shims are turned on, and the skipping warning is
   * logged exactly when the run is not dry and shims are turned off.
   */
  lemma UIStageSpec(b: Books, opts: Options)
    ensures var r := UIStage(b, opts);
      var ui := b.controllerName != "" && b.directiveName != "";
      var added := r.steps[|b.steps|..];
      r.steps[..|b.steps|] == b.steps &&
      r.moduleCount == b.moduleCount - (if ui then 1 else 0) &&
      (ReplaceUIModules(b.controllerName, b.directiveName) in added <==> ui) &&
      (CreateUIShim(opts.filePath, b.controllerName, b.directiveName) in added <==> ui && !opts.dry && opts.createUIShims) &&
      r.warnings == b.warnings +
        (if ui && !opts.dry && !opts.createUIShims
         then [SkipShimsWarning(b.controllerName, b.directiveName, ClassNames.UIModuleName(b.controllerName, opts.taken).name)]
         else []) &&
      r.infos == b.infos && r.movedModules == b.movedModules
  {
    var r := UIStage(b, opts);
    var ui := b.controllerName != "" && b.directiveName != "";
    if ui {
      var renamed := b.steps + [ReplaceUIModules(b.controllerName, b.directiveName)];
      assert renamed[|b.steps|..] == [ReplaceUIModules(b.controllerName, b.directiveName)];
      if !opts.dry && opts.createUIShims {
        assert r.steps[|b.steps|..] == [ReplaceUIModules(b.controllerName, b.directiveName),
                                        CreateUIShim(opts.filePath, b.controllerName, b.directiveName)];
      }
    } else {
      assert r.steps[|b.steps|..] == [];
    }
  }

  /**
   * The end of the file: the count is lowered once for a controller and
   * directive pair, a warning reports a count above one, and the
   * `resolveThis` message is logged when something was replaced.
   */
  lemma FinishFileSpec(b: Books, modules: seq<string>, searches: Searches, opts: Options)
    ensures var r := FinishFile(b, modules, searches, opts);
      var ui := b.controllerName != "" && b.directiveName != "";
      var count := b.moduleCount - (if ui then 1 else 0);
      r.moduleCount == count &&
      r.warnings == b.warnings +
        (if ui && !opts.dry && !opts.createUIShims
         then [SkipShimsWarning(b.controllerName, b.directiveName, ClassNames.UIModuleName(b.controllerName, opts.taken).name)]
         else []) +
        (if count > 1 then [CountWarning(count)] else []) &&
      r.infos == b.infos + (if searches.replacedThis != 0 then [ResolveThisInfo(searches.replacedThis)] else []) &&
      r.movedModules == b.movedModules && r.directiveName == b.directiveName && r.controllerName == b.controllerName
  {
    UIStageSpec(DefineStage(b, modules, searches), opts);
  }

  /** A single provided module is never moved to a shim: its plain assignments become the default export. */
  lemma {:induction false} SingleModuleNotMoved(names: seq<string>, searches: Searches, rc: Recognisers)
    ensures Moved(names, searches, rc, 1) == []
    decreases |names|
  {
    if names != [] {
      var last := names[|names| - 1];
      SingleModuleNotMoved(names[..|names| - 1], searches, rc);
      FilterNoneAll(searches.assignments(last), Shimmed(rc, 1));
    }
  }

  /**
   * The whole driver: the first directive and the first controller are
   * kept, the moved modules are the shimmed assignments' names, and the
   * count left is the number of provided names less the moved ones and
   * less one for a controller and directive pair.
   */
  lemma TransformSummary(modules: seq<string>, searches: Searches, rc: Recognisers, opts: Options, warnings: seq<string>, infos: seq<string>)
    ensures var t := Transform(modules, searches, rc, opts, warnings, infos);
      var ui := t.controllerName != "" && t.directiveName != "";
      t.directiveName == FirstNamed(modules, HasDirective(searches, rc)) &&
      t.controllerName == FirstNamed(modules, HasController(searches, rc)) &&
      t.movedModules == Moved(modules, searches, rc, |modules|) &&
      t.moduleCount == |modules| - |t.movedModules| - (if ui then 1 else 0)
  {
    var start := Books(|modules|, "", "", [], [], warnings, infos);
    var basePath := BasePath(opts.filePath);
    ModulesVisitCounts(start, modules, modules, searches, rc, basePath, !opts.dry);
    ModulesVisitDirective(start, modules, modules, searches, rc, basePath, !opts.dry);
    ModulesVisitController(start, modules, modules, searches, rc, basePath, !opts.dry);
    var v := ModulesVisit(start, modules, modules, searches, rc, basePath, !opts.dry);
    FinishFileSpec(v, modules, searches, opts);
  }

  // ------------------------------------------------------------- the driver

  /** The driver's variables, updated as the file is walked; the messages go to a `Log`. */
  class Driver {
    var moduleCount: int
    var directiveName: string
    var controllerName: string
    var movedModules: seq<string>
    var steps: seq<Step>

    function State(log: Log): Books
      reads this, log
    {
      Books(moduleCount, directiveName, controllerName, movedModules, steps, log.warnings, log.infos)
    }

    /** `let moduleCount = modules.length`, with no directive, controller or moved module yet. */
    constructor(modules: seq<string>)
      ensures moduleCount == |modules| && directiveName == "" && controllerName == "" && movedModules == [] && steps == []
    {
      moduleCount := |modules|;
      directiveName := "";
      controllerName := "";
      movedModules := [];
      steps := [];
    }

    /** The body of the `forEach` over the assignments to `moduleName`, for the statement `s`. */
    method VisitAssignment(log: Log, s: Node, moduleName: string, rc: Recognisers, provided: nat, basePath: string, writeFile: bool)
      modifies this, log
      ensures State(log) == Visit(old(State(log)), s, moduleName, rc, provided, basePath, writeFile)
    {
      if rc.isInterface(s) {
        steps := steps + [ConvertInterface(moduleName, s)];
      } else if rc.isDirective(s) {
        if directiveName == "" {
          directiveName := moduleName;
        } else {
          log.Warn(MultipleDirectives);
        }
        steps := steps + [ConvertDirective(moduleName, s)];
      } else if rc.isClosureClass(s) {
        if rc.isControllerClass(s) {
          if controllerName == "" {
            controllerName := moduleName;
          } else {
            log.Warn(MultipleControllers);
          }
        }
        steps := steps + [ConvertClass(moduleName, s)];
      } else if provided == 1 {
        steps := steps + [ExportDefault(s)];
      } else if provided > 1 {
        steps := steps + [CreateAssignmentShim(moduleName, s, basePath, writeFile)];
        movedModules := movedModules + [moduleName];
        moduleCount := moduleCount - 1;
      }
    }

    /** The assignments to `moduleName`, in order. */
    method VisitAssignments(log: Log, ss: seq<Node>, moduleName: string, rc: Recognisers, provided: nat, basePath: string, writeFile: bool)
      modifies this, log
      ensures State(log) == VisitAll(old(State(log)), ss, moduleName, rc, provided, basePath, writeFile)
    {
      ghost var b0 := State(log);
      for i := 0 to |ss|
        invariant State(log) == VisitAll(b0, ss[..i], moduleName, rc, provided, basePath, writeFile)
      {
        assert ss[..i + 1][..i] == ss[..i];
        VisitAssignment(log, ss[i], moduleName, rc, provided, basePath, writeFile);
      }
      assert ss[..|ss|] == ss;
    }

    /** One of the two namespace searches for `moduleName`. */
    method FlattenNamespace(found: seq<Found>, moduleName: string, modules: seq<string>, rc: Recognisers, isAssignment: bool)
      modifies this
      ensures steps == old(steps) + NamespaceSteps(found, moduleName, modules, rc, isAssignment)
      ensures moduleCount == old(moduleCount) && directiveName == old(directiveName) &&
              controllerName == old(controllerName) && movedModules == old(movedModules)
    {
      for i := 0 to |found|
        invariant steps == old(steps) + NamespaceSteps(found[..i], moduleName, modules, rc, isAssignment)
        invariant moduleCount == old(moduleCount) && directiveName == old(directiveName) &&
                  controllerName == old(controllerName) && movedModules == old(movedModules)
      {
        assert found[..i + 1][..i] == found[..i];
        if Flattened(found[i], modules, rc, isAssignment) {
          steps := steps + [ConvertNamespaceExpression(moduleName, found[i].statement)];
        }
      }
      assert found[..|found|] == found;
    }

    /** Everything done for one provided name. */
    method VisitModule(log: Log, moduleName: string, modules: seq<string>, searches: Searches, rc: Recognisers, basePath: string, writeFile: bool)
      modifies this, log
      ensures State(log) == ModuleVisit(old(State(log)), moduleName, modules, searches, rc, basePath, writeFile)
    {
      VisitAssignments(log, searches.assignments(moduleName), moduleName, rc, |modules|, basePath, writeFile);
      FlattenNamespace(searches.namespaceAssignments(moduleName), moduleName, modules, rc, true);
      FlattenNamespace(searches.namespaceMembers(moduleName), moduleName, modules, rc, false);
    }

    /** The `goog.define` search, then `resolveThis` and its message. */
    method ConvertDefines(log: Log, modules: seq<string>, searches: Searches)
      modifies this, log
      ensures State(log) == DefineStage(old(State(log)), modules, searches)
    {
      ghost var b0 := State(log);
      for i := 0 to |searches.defines|
        invariant steps == b0.steps + DefineSteps(searches.defines[..i], modules)
        invariant State(log) == Books(b0.moduleCount, b0.directiveName, b0.controllerName, b0.movedModules, steps, b0.warnings, b0.infos)
      {
        assert searches.defines[..i + 1][..i] == searches.defines[..i];
        if searches.defines[i].atTop {
          steps := steps + [ConvertGoogDefine(searches.defines[i].statement, modules)];
        }
      }
      assert searches.defines[..|searches.defines|] == searches.defines;
      steps := steps + [ResolveInlineThis];
      if searches.replacedThis != 0 {
        log.Info(ResolveThisInfo(searches.replacedThis));
      }
    }

    /** A controller and a directive in the same file. */
    method ConvertUIModules(log: Log, opts: Options)
      modifies this, log
      ensures State(log) == UIStage(old(State(log)), opts)
    {
      if controllerName != "" && directiveName != "" {
        moduleCount := moduleCount - 1;
        steps := steps + [ReplaceUIModules(controllerName, directiveName)];
        var newModuleName := ClassNames.UIModuleName(controllerName, opts.taken).name;
        if !opts.dry {
          if opts.createUIShims {
            steps := steps + [CreateUIShim(opts.filePath, controllerName, directiveName)];
          } else {
            log.Warn(SkipShimsWarning(controllerName, directiveName, newModuleName));
          }
        }
      }
    }

    /** The `movedModules.forEach`: a moved module still referenced gets a require and its references replaced. */
    method RequireMoved(searches: Searches)
      modifies this
      ensures steps == old(steps) + MovedSteps(movedModules, searches.referenced)
      ensures moduleCount == old(moduleCount) && directiveName == old(directiveName) &&
              controllerName == old(controllerName) && movedModules == old(movedModules)
    {
      for i := 0 to |movedModules|
        invariant moduleCount == old(moduleCount) && directiveName == old(directiveName) &&
                  controllerName == old(controllerName) && movedModules == old(movedModules)
        invariant steps == old(steps) + MovedSteps(movedModules[..i], searches.referenced)
      {
        assert movedModules[..i + 1][..i] == movedModules[..i];
        var name := movedModules[i];
        if searches.referenced(name) {
          steps := steps + [AddLegacyRequire(name), ReplaceLegacyRequire(name)];
        }
      }
      assert movedModules[..|movedModules|] == movedModules;
    }

    /** The moved modules still referenced, the count warning and the global passes. */
    method FinishRequires(log: Log, searches: Searches)
      modifies this, log
      ensures State(log) == TailStage(old(State(log)), searches)
    {
      ghost var u := State(log);
      RequireMoved(searches);
      steps := steps + [ConvertLegacyRequires];
      if moduleCount > 1 {
        log.Warn(CountWarning(moduleCount));
      }
      ghost var mid := steps;
      for i := 0 to |searches.osGlobals|
        invariant steps == mid + OSGlobalSteps(searches.osGlobals[..i])
        invariant moduleCount == u.moduleCount && movedModules == u.movedModules &&
                  directiveName == u.directiveName && controllerName == u.controllerName
        invariant log.warnings == old(log.warnings) + (if u.moduleCount > 1 then [CountWarning(u.moduleCount)] else [])
        invariant log.infos == u.infos
      {
        assert OSGlobalSteps(searches.osGlobals[..i + 1]) == OSGlobalSteps(searches.osGlobals[..i]) + [ConvertOSGlobal(searches.osGlobals[i])];
        steps := steps + [ConvertOSGlobal(searches.osGlobals[i])];
      }
      assert searches.osGlobals[..|searches.osGlobals|] == searches.osGlobals;
      steps := steps + [ConvertGlobalRefs, ConvertLegacyRequires, SortModuleRequires];
    }
  }

  /**
   * The transform on a file whose provides were replaced by `modules`: the
   * driver's variables and the log end as `Transform` says.
   */
  method ConvertFile(log: Log, modules: seq<string>, searches: Searches, rc: Recognisers, opts: Options)
    returns (d: Driver)
    modifies log
    ensures d.State(log) == Transform(modules, searches, rc, opts, old(log.warnings), old(log.infos))
  {
    d := new Driver(modules);
    var basePath := BasePath(opts.filePath);
    ghost var start := d.State(log);
    for i := 0 to |modules|
      invariant d.State(log) == ModulesVisit(start, modules[..i], modules, searches, rc, basePath, !opts.dry)
    {
      assert modules[..i + 1][..i] == modules[..i];
      d.VisitModule(log, modules[i], modules, searches, rc, basePath, !opts.dry);
    }
    assert modules[..|modules|] == modules;
    d.ConvertDefines(log, modules, searches);
    d.ConvertUIModules(log, opts);
    d.FinishRequires(log, searches);
  }
}
