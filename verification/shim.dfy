/**
 * `src/utils/shim.js`: choosing a free file name for a module moved to its
 * own file, moving a direct module assignment out of a file, and the UI shim
 * for an Angular controller/directive pair. The file system is an explicit
 * set of existing paths; files written are returned as values.
 */
module Shim {
  import opened Wrappers
  import opened Strings
  import opened Seqs
  import opened Ast
  import opened AstUtils
  import opened Jscs
  import opened Logger

  /** `${basePath}/${fileName}` */
  function Path(basePath: string, fileName: string): string
  {
    basePath + "/" + fileName
  }

  /** `fs.existsSync(`${basePath}/${fileName}`)` */
  predicate Taken(existing: set<string>, basePath: string, fileName: string)
  {
    Path(basePath, fileName) in existing
  }

  /** The last `m` segments of the module name, each lowercased, run together. */
  function Lowered(parts: seq<string>, m: nat): string
    requires m <= |parts|
  {
    if m == 0 then "" else ToLower(parts[|parts| - m]) + Lowered(parts, m - 1)
  }

  /**
   * How many segments the name is built from: the first `m` whose name is
   * free, or all of them.
   */
  function PrefixCount(parts: seq<string>, existing: set<string>, basePath: string, m: nat): (r: nat)
    requires 1 <= m <= |parts|
    ensures m <= r <= |parts|
    ensures r < |parts| ==> !Taken(existing, basePath, Lowered(parts, r) + ".js")
    ensures forall j :: m <= j < r ==> Taken(existing, basePath, Lowered(parts, j) + ".js")
    decreases |parts| - m
  {
    if Taken(existing, basePath, Lowered(parts, m) + ".js") && m < |parts|
    then PrefixCount(parts, existing, basePath, m + 1)
    else m
  }

  /** The name the prefix loop settles on, before any counter. */
  function BaseFileName(moduleName: string, existing: set<string>, basePath: string): string
  {
    var parts := Split(moduleName, '.');
    Lowered(parts, PrefixCount(parts, existing, basePath, 1))
  }

  /** The base name with the counter `i` appended. */
  function Numbered(base: string, i: nat): string
  {
    base + NatToString(i) + ".js"
  }

  /** The names tried by the counter loop, in order: `base.js`, `base1.js`, `base2.js`, ... */
  function Candidate(base: string, j: nat): string
  {
    if j == 0 then base + ".js" else Numbered(base, j)
  }

  /** The paths of the first `k` candidates. */
  function Tried(basePath: string, base: string, k: nat): set<string>
  {
    set j | 0 <= j < k :: Path(basePath, Candidate(base, j))
  }

  /** Different counters give different paths. */
  lemma CandidateInjective(basePath: string, base: string, i: nat, j: nat)
    requires Path(basePath, Candidate(base, i)) == Path(basePath, Candidate(base, j))
    ensures i == j
  {
    assert basePath + "/" + Candidate(base, i) == basePath + "/" + Candidate(base, j);
    MiddleCancel(basePath + "/", Candidate(base, i), Candidate(base, j), "");
    if i != 0 && j != 0 {
      MiddleCancel(base, NatToString(i), NatToString(j), ".js");
      NatToStringInjective(i, j);
    }
  }

  lemma TriedGrows(basePath: string, base: string, k: nat)
    ensures Tried(basePath, base, k + 1) == Tried(basePath, base, k) + {Path(basePath, Candidate(base, k))}
    ensures Path(basePath, Candidate(base, k)) !in Tried(basePath, base, k)
  {
    if Path(basePath, Candidate(base, k)) in Tried(basePath, base, k) {
      var j :| 0 <= j < k && Path(basePath, Candidate(base, j)) == Path(basePath, Candidate(base, k));
      CandidateInjective(basePath, base, j, k);
    }
  }

  /**
   * `getUniqueFileNameForModule(moduleName, basePath)`: the lowercased last
   * segment plus `.js`; while that exists and segments remain, the next
   * segment to the left, lowercased, is put in front; if the name still
   * exists, the smallest counter from 1 that gives a free name is appended.
   */
  method GetUniqueFileNameForModule(moduleName: string, basePath: string, existing: set<string>) returns (fileName: string)
    ensures !Taken(existing, basePath, fileName)
    ensures var base := BaseFileName(moduleName, existing, basePath);
      (!Taken(existing, basePath, base + ".js") ==> fileName == base + ".js") &&
      (Taken(existing, basePath, base + ".js") ==>
        exists i: nat :: i >= 1 && fileName == Numbered(base, i) && CountersTaken(existing, basePath, base, i))
  {
    var parts := Split(moduleName, '.');
    // `parts.pop()` shortens the array; `n` is its current length
    var n := |parts| - 1;
    var baseFileName := ToLower(parts[n]);
    fileName := baseFileName + ".js";
    while Taken(existing, basePath, fileName) && n > 0
      invariant 0 <= n < |parts|
      invariant baseFileName == Lowered(parts, |parts| - n) && fileName == baseFileName + ".js"
      invariant PrefixCount(parts, existing, basePath, 1) == PrefixCount(parts, existing, basePath, |parts| - n)
    {
      PrefixStep(parts, existing, basePath, n);
      n := n - 1;
      baseFileName := ToLower(parts[n]) + baseFileName;
      fileName := baseFileName + ".js";
    }
    if Taken(existing, basePath, fileName) {
      fileName := AppendCounter(existing, basePath, baseFileName);
    }
  }

  /**
   * The counter loop of `getUniqueFileNameForModule`, entered when
   * `base.js` exists: `base1.js`, `base2.js`, ... until a free name. It ends
   * because the set of existing files is finite and every name tried is new.
   */
  method AppendCounter(existing: set<string>, basePath: string, base: string) returns (fileName: string)
    requires Taken(existing, basePath, base + ".js")
    ensures !Taken(existing, basePath, fileName)
    ensures exists i: nat :: i >= 1 && fileName == Numbered(base, i) && CountersTaken(existing, basePath, base, i)
  {
    fileName := base + ".js";
    var i := 1;
    ghost var seen: set<string> := {};
    while Taken(existing, basePath, fileName)
      invariant i >= 1 && fileName == Candidate(base, i - 1)
      invariant seen == Tried(basePath, base, i - 1) && seen <= existing
      invariant CountersTaken(existing, basePath, base, i - 1)
      decreases |existing - seen|
    {
      CounterStep(existing, basePath, base, seen, i - 1);
      seen := seen + {Path(basePath, fileName)};
      fileName := base + NatToString(i) + ".js";
      i := i + 1;
    }
  }

  /** Every counter from 1 below `n` gives a name that exists. */
  predicate CountersTaken(existing: set<string>, basePath: string, base: string, n: nat)
  {
    forall j: nat :: 1 <= j < n ==> Taken(existing, basePath, Numbered(base, j))
  }

  /** One more segment in front of the name, while the name so far exists. */
  lemma PrefixStep(parts: seq<string>, existing: set<string>, basePath: string, n: nat)
    requires 1 <= n < |parts|
    requires Taken(existing, basePath, Lowered(parts, |parts| - n) + ".js")
    ensures Lowered(parts, |parts| - (n - 1)) == ToLower(parts[n - 1]) + Lowered(parts, |parts| - n)
    ensures PrefixCount(parts, existing, basePath, |parts| - n) == PrefixCount(parts, existing, basePath, |parts| - (n - 1))
  {
  }

  /** A taken candidate is new to the tried set, so fewer existing paths remain untried. */
  lemma CounterStep(existing: set<string>, basePath: string, base: string, seen: set<string>, k: nat)
    requires seen == Tried(basePath, base, k) && seen <= existing
    requires Taken(existing, basePath, Candidate(base, k))
    ensures seen + {Path(basePath, Candidate(base, k))} == Tried(basePath, base, k + 1)
    ensures seen + {Path(basePath, Candidate(base, k))} <= existing
    ensures |existing - (seen + {Path(basePath, Candidate(base, k))})| < |existing - seen|
    ensures CountersTaken(existing, basePath, base, k) ==> CountersTaken(existing, basePath, base, k + 1)
  {
    TriedGrows(basePath, base, k);
    var x := Path(basePath, Candidate(base, k));
    assert x in existing - seen && existing - (seen + {x}) == (existing - seen) - {x};
  }

  /** A file produced by a shim: where it is written and its statements. */
  datatype ShimFile = ShimFile(path: string, body: seq<Node>)

  /** `goog.module` / `goog.module.declareLegacyNamespace` / `goog.provide` / `goog.require` callees. */
  function GoogCall(names: seq<string>, args: seq<Node>): (r: Node)
    requires |names| >= 2
    ensures r.CallExpression? && r.arguments == args && Segments(r.callee) == Some(names)
  {
    CalleeSegments(names);
    CallExpression(CalleeFor(names).value, args)
  }

  /**
   * The statements `root.find(jscs.ExpressionStatement, {expression: {callee:
   * goog.module, arguments: [{value: moduleName}]}})` finds: the pattern asks
   * for a callee and arguments, so a `new` expression matches as well as a call.
   */
  function IsModuleStatement(moduleName: string): (P: Node -> bool)
  {
    (s: Node) => s.ExpressionStatement? &&
      (s.expression.CallExpression? || s.expression.NewExpression?) &&
      MatchesPath(s.expression.callee, "goog.module") &&
      |s.expression.arguments| >= 1 && s.expression.arguments[0] == Literal(Str(moduleName))
  }

  /** The original file after the shim: the module's `goog.module` statements and the assignment statement are gone. */
  function WithoutModuleAssignment(body: seq<Node>, index: nat, moduleName: string): seq<Node>
    requires index < |body|
  {
    Filter(body[..index], Not(IsModuleStatement(moduleName))) + Filter(body[index + 1..], Not(IsModuleStatement(moduleName)))
  }

  /** The new module file: `goog.module(name)`, `goog.module.declareLegacyNamespace()` and `exports = value` with the statement's comments. */
  function AssignmentShimBody(moduleName: string, assignment: Node): seq<Node>
    requires IsAssignmentStatement(assignment)
  {
    [ExpressionStatement(GoogCall(["goog", "module"], [Literal(Str(moduleName))]), []),
     ExpressionStatement(GoogCall(["goog", "module", "declareLegacyNamespace"], []), []),
     ExpressionStatement(AssignmentExpression(Identifier("exports"), assignment.expression.right), CommentsOf(assignment))]
  }

  /** The message `path.parent.value.comments.slice()` fails with on a statement without comments. */
  const NoCommentsError := "Cannot read properties of undefined (reading 'slice')"

  /**
   * `createAssignmentShim(root, path, moduleName, basePath, writeFile)`, with
   * `path` the assignment of the statement at `index`. When writing, the new
   * module file gets a free name and the statements above; a statement
   * without comments makes the comment copy fail before anything changes.
   * The module's `goog.module` statement and the assignment are removed
   * from the original file, whether or not the file is written.
   */
  method CreateAssignmentShim(p: Program, index: nat, moduleName: string, basePath: string, writeFile: bool,
                              existing: set<string>, log: Log) returns (r: Outcome, shim: Option<ShimFile>)
    requires index < |p.body| && IsAssignmentStatement(p.body[index])
    modifies p, log
    ensures r.Fail? <==> writeFile && CommentsOf(old(p.body)[index]) == []
    ensures r.Fail? ==> p.body == old(p.body) && shim == None && log.infos == old(log.infos)
    ensures r.Pass? ==> p.body == WithoutModuleAssignment(old(p.body), index, moduleName)
    ensures r.Pass? && !writeFile ==> shim == None && log.infos == old(log.infos)
    ensures r.Pass? && writeFile ==>
      shim.Some? && !(shim.value.path in existing) &&
      shim.value.body == AssignmentShimBody(moduleName, old(p.body)[index]) &&
      log.infos == old(log.infos) + ["Creating new module: " + shim.value.path]
    ensures log.warnings == old(log.warnings)
  {
    var body := p.body;
    var statement := body[index];
    shim := None;
    if writeFile {
      if CommentsOf(statement) == [] {
        return Fail(NoCommentsError), None;
      }
      var file := WriteAssignmentShim(moduleName, statement, basePath, existing, log);
      shim := Some(file);
    }
    var keep := Not(IsModuleStatement(moduleName));
    RemoveKept(body, index, keep);
    p.body := RemoveAt(Filter(body, keep), |Filter(body[..index], keep)|);
    r := Pass;
  }

  /** The writing half of `createAssignmentShim`: a free file name, the new module's statements and the log line. */
  method WriteAssignmentShim(moduleName: string, statement: Node, basePath: string, existing: set<string>, log: Log)
    returns (shim: ShimFile)
    requires IsAssignmentStatement(statement)
    modifies log
    ensures !(shim.path in existing) && shim.body == AssignmentShimBody(moduleName, statement)
    ensures log.infos == old(log.infos) + ["Creating new module: " + shim.path] && log.warnings == old(log.warnings)
  {
    var program := AssignmentShimBody(moduleName, statement);
    var fileName := GetUniqueFileNameForModule(moduleName, basePath, existing);
    var filePath := Path(basePath, fileName);
    log.Info("Creating new module: " + filePath);
    shim := ShimFile(filePath, program);
  }

  /** No `goog.module` statement for the module is left in the original file. */
  lemma ModuleStatementGone(body: seq<Node>, index: nat, moduleName: string)
    requires index < |body|
    ensures Filter(WithoutModuleAssignment(body, index, moduleName), IsModuleStatement(moduleName)) == []
  {
    var keep := Not(IsModuleStatement(moduleName));
    var r := WithoutModuleAssignment(body, index, moduleName);
    FilterConcat(Filter(body[..index], keep), Filter(body[index + 1..], keep), keep);
    assert forall i :: 0 <= i < |r| ==> !IsModuleStatement(moduleName)(r[i]);
    FilterNoneAll(r, IsModuleStatement(moduleName));
  }

  /** Exactly the assignment statement and the module's `goog.module` statements leave the original file. */
  lemma AssignmentShimRemoves(body: seq<Node>, index: nat, moduleName: string)
    requires index < |body| && IsAssignmentStatement(body[index])
    ensures multiset(WithoutModuleAssignment(body, index, moduleName)) + multiset{body[index]} +
            multiset(Filter(body, IsModuleStatement(moduleName))) == multiset(body)
  {
    var P := IsModuleStatement(moduleName);
    assert !P(body[index]) by { AssignmentIsNotModule(body[index], moduleName); }
    RemoveAroundMultiset(body, index, P, Not(P));
  }

  /** An assignment statement is never a `goog.module` call. */
  lemma AssignmentIsNotModule(s: Node, moduleName: string)
    requires IsAssignmentStatement(s)
    ensures !IsModuleStatement(moduleName)(s)
  {
  }

  /** `uiPath.replace(/\.js/, '_shim.js')`: the first `.js` becomes `_shim.js`. */
  function UIShimPath(uiPath: string): string
  {
    ReplaceFirst(uiPath, ".js", "_shim.js")
  }

  /** `controllerName.replace(/Ctrl$/, '')` */
  function UIModuleName(controllerName: string): (r: string)
  {
    if EndsWith(controllerName, "Ctrl") then controllerName[..|controllerName| - 4] else controllerName
  }

  /** The module name drops exactly one trailing `Ctrl`, and nothing else. */
  lemma UIModuleNameSpec(controllerName: string)
    ensures EndsWith(controllerName, "Ctrl") ==> UIModuleName(controllerName) + "Ctrl" == controllerName
    ensures !EndsWith(controllerName, "Ctrl") ==> UIModuleName(controllerName) == controllerName
  {
    if EndsWith(controllerName, "Ctrl") {
      var n := |controllerName|;
      assert controllerName[n - 4..] == "Ctrl";
      assert controllerName[..n - 4] + controllerName[n - 4..] == controllerName;
    }
  }

  /** A `@deprecated` block pointing users of the old name at the module's export `member`. */
  function DeprecatedComment(moduleName: string, member: string): string
  {
    "*\n * @deprecated Please use goog.require('" + moduleName + "')." + member + " instead.\n "
  }

  /**
   * The shim file for an Angular UI: the two provides, a `goog.require` of
   * the module and the two deprecated assignments, with `member` building the
   * member expression for a dotted path.
   */
  function UIShimBody(controllerName: string, directiveName: string, member: string -> Node): seq<Node>
  {
    var moduleName := UIModuleName(controllerName);
    [ExpressionStatement(GoogCall(["goog", "provide"], [Literal(Str(controllerName))]), []),
     ExpressionStatement(GoogCall(["goog", "provide"], [Literal(Str(directiveName))]), []),
     EmptyStatement,
     ExpressionStatement(GoogCall(["goog", "require"], [Literal(Str(moduleName))]), []),
     ExpressionStatement(AssignmentExpression(member(controllerName), member(moduleName + ".Controller")),
                         [CommentBlock(DeprecatedComment(moduleName, "Controller"))]),
     ExpressionStatement(AssignmentExpression(member(directiveName), member(moduleName + ".directive")),
                         [CommentBlock(DeprecatedComment(moduleName, "directive"))]),
     EmptyStatement]
  }

  /**
   * `createUIShim(uiPath, controllerName, directiveName)`: nothing happens when
   * the shim path already exists; otherwise the shim file is built at that
   * path and announced in the log. `createMemberExpression` is a parameter.
   */
  method CreateUIShim(uiPath: string, controllerName: string, directiveName: string,
                      existing: set<string>, createMemberExpression: string -> Node, log: Log)
    returns (shim: Option<ShimFile>)
    modifies log
    ensures shim.None? <==> UIShimPath(uiPath) in existing
    ensures shim.Some? ==> (shim.value.path == UIShimPath(uiPath) &&
                            shim.value.body == UIShimBody(controllerName, directiveName, createMemberExpression))
    ensures shim.None? ==> log.infos == old(log.infos)
    ensures shim.Some? ==> log.infos == old(log.infos) + ["Creating UI shim: " + UIShimPath(uiPath)]
    ensures log.warnings == old(log.warnings)
  {
    var shimPath := UIShimPath(uiPath);
    if shimPath in existing {
      return None;
    }
    var program := UIShimBody(controllerName, directiveName, createMemberExpression);
    log.Info("Creating UI shim: " + shimPath);
    shim := Some(ShimFile(shimPath, program));
  }

  /** The shim requires the module the controller name stands for and provides both old names. */
  lemma UIShimNames(controllerName: string, directiveName: string, member: string -> Node)
    ensures var body := UIShimBody(controllerName, directiveName, member);
      |body| == 7 &&
      body[0].expression.arguments == [Literal(Str(controllerName))] &&
      body[1].expression.arguments == [Literal(Str(directiveName))] &&
      body[3].expression.arguments == [Literal(Str(UIModuleName(controllerName)))] &&
      (EndsWith(controllerName, "Ctrl") ==> body[3].expression.arguments[0].v.s + "Ctrl" == controllerName)
  {
    UIModuleNameSpec(controllerName);
  }
}
