/**
 * The module-level conversions of `src/utils/classes.js`: `goog.define`
 * statements (`convertGoogDefine`), members declared on a provided
 * namespace (`convertNamespaceExpression` with `isReassigned`) and the
 * renaming of the `goog.module` calls of an Angular UI file
 * (`replaceUIModules`).
 */
module ClassModules {
  import opened Wrappers
  import opened Strings
  import opened Ast
  import opened AstUtils
  import opened Logger
  import opened ClassNames
  import opened ClassPass
  import opened Es6
  import opened Classes

  /** The TypeError of calling `split` on a value that is not a string. */
  const SplitOfNonString := "TypeError: fullDefine.split is not a function"

  /** A rewrite that fixes everything but some nodes other than declarations keeps a declaration's kind and comments. */
  lemma RewriteKeepsDeclaration(d: Node, f: Node -> Node, P: Node -> bool)
    requires d.VariableDeclaration?
    requires forall m :: !P(m) ==> f(m) == m
    requires forall m :: P(m) ==> !m.VariableDeclaration?
    ensures var r := Rewrite(d, f);
      r.VariableDeclaration? && r.kind == d.kind && r.comments == d.comments && |r.declarations| == |d.declarations|
  {
    RewriteUnfold(d, f);
    var w := WithChildren(d, RewriteAll(Children(d), f));
    assert w.VariableDeclaration? && w.kind == d.kind && w.comments == d.comments;
  }

  // ------------------------------------------------------------ goog.define

  /** The statements `convertGoogDefine` is handed: `goog.define(...)` calls at the top level. */
  predicate DefineStatement(s: Node)
  {
    s.ExpressionStatement? && IsCall(s.expression, "goog.define")
  }

  /**
   * A local reference to a define: with a `.` in the name, a member chain
   * `createFindMemberExprObject(fullDefine)` matches; otherwise any
   * identifier of that name.
   */
  function LocalRef(fullDefine: string): Node -> bool
  {
    (n: Node) => if '.' in fullDefine then MatchesPath(n, fullDefine) else n.Identifier? && n.name == fullDefine
  }

  /** Every local reference replaced by the variable. */
  function LocalRule(fullDefine: string, varName: string): Node -> Node
  {
    (n: Node) => if LocalRef(fullDefine)(n) then Identifier(varName) else n
  }

  /** `const <name> = goog.define(...)`, with the statement's comments. */
  function DefineDeclaration(s: Node, name: string): Node
    requires s.ExpressionStatement?
  {
    VariableDeclaration("const", [VariableDeclarator(Identifier(name), s.expression)], s.comments)
  }

  /** What a conversion did to the file: outcome, new statements, and the names it asks to export. */
  datatype Converted = Converted(outcome: Outcome, body: seq<Node>, exported: Option<ExportKeys>)

  /**
   * `convertGoogDefine`: the name is split at its last `.`. A define on a
   * provided namespace becomes `const <name> = goog.define(...)`, every
   * reference to the full name becomes `<name>`, and `<name>` is exported.
   * Any other define that is referenced in the file becomes a constant
   * under a fresh variable name and the references use it; one that is not
   * referenced is left alone. A first argument that is not a string
   * throws.
   */
  function DefineConversion(body: seq<Node>, h: ClassHelpers, at: nat, modules: seq<string>): (c: Converted)
    requires at < |body| && DefineStatement(body[at])
    ensures c.outcome.Fail? ==> c.body == body && c.exported.None?
    ensures c.outcome.Pass? ==> |c.body| == |body|
  {
    var s := body[at];
    var args := s.expression.arguments;
    if |args| == 0 || !args[0].Literal? then Converted(Fail(ReadOfUndefined), body, None)
    else if !args[0].v.Str? then Converted(Fail(SplitOfNonString), body, None)
    else
      var full := args[0].v.s;
      var (ns, name) := DefineSplit(full);
      if ns in modules then
        Converted(Pass, RewriteAll(body[at := DefineDeclaration(s, name)], QualifiedRule(full, name)), Some(Names([name])))
      else if AnyIn(body, LocalRef(full)) then
        var varName := h.uniqueVarName(body, full);
        Converted(Pass, RewriteAll(body[at := DefineDeclaration(s, varName)], LocalRule(full, varName)), None)
      else Converted(Pass, body, None)
  }

  /** The define's full name, when its first argument is a string literal. */
  function DefineFullName(s: Node): Option<string>
    requires DefineStatement(s)
  {
    var args := s.expression.arguments;
    if |args| >= 1 && args[0].Literal? && args[0].v.Str? then Some(args[0].v.s) else None
  }

  /**
   * A define on a provided namespace is exported under its last name
   * segment, no reference to the full name is left, and the statement is
   * now a constant declaration with the define's comments.
   */
  lemma DefineExported(body: seq<Node>, h: ClassHelpers, at: nat, modules: seq<string>)
    requires at < |body| && DefineStatement(body[at])
    requires DefineFullName(body[at]).Some? && DefineSplit(DefineFullName(body[at]).value).0 in modules
    ensures var c := DefineConversion(body, h, at, modules);
      var full := DefineFullName(body[at]).value;
      c.outcome.Pass? && c.exported == Some(Names([DefineSplit(full).1])) &&
      !AnyIn(c.body, RefersTo(full)) &&
      c.body[at].VariableDeclaration? && c.body[at].kind == "const" && c.body[at].comments == body[at].comments
  {
    var full := DefineFullName(body[at]).value;
    var name := DefineSplit(full).1;
    var d := DefineDeclaration(body[at], name);
    QualifiedRuleClears(body[at := d], full, name);
    RewriteKeepsDeclaration(d, QualifiedRule(full, name), RefersTo(full));
  }

  /**
   * A define on another namespace: when the file refers to it, every
   * reference goes to the fresh variable (provided the fresh name is not
   * the define's own single-segment name) and nothing is exported; when it
   * does not, the file is unchanged.
   */
  lemma DefineLocal(body: seq<Node>, h: ClassHelpers, at: nat, modules: seq<string>)
    requires at < |body| && DefineStatement(body[at])
    requires DefineFullName(body[at]).Some? && DefineSplit(DefineFullName(body[at]).value).0 !in modules
    ensures var c := DefineConversion(body, h, at, modules);
      var full := DefineFullName(body[at]).value;
      c.outcome.Pass? && c.exported.None? &&
      (!AnyIn(body, LocalRef(full)) ==> c.body == body) &&
      ('.' in full || h.uniqueVarName(body, full) != full ==> !AnyIn(c.body, LocalRef(full)))
  {
    var full := DefineFullName(body[at]).value;
    if AnyIn(body, LocalRef(full)) {
      var varName := h.uniqueVarName(body, full);
      if '.' in full || varName != full {
        var P := LocalRef(full);
        var f := LocalRule(full, varName);
        forall m | P(m) && NoneBelow(m, P)
          ensures !AnyNode(f(m), P)
        {
          IdentifierUnmatched(full, varName);
          NoneAt(Identifier(varName), P);
        }
        RewriteAllClears(body[at := DefineDeclaration(body[at], varName)], f, P);
      }
    } else {
      CollectInEmpty(body, LocalRef(full));
      if '.' in full || h.uniqueVarName(body, full) != full {
        assert !AnyIn(DefineConversion(body, h, at, modules).body, LocalRef(full));
      }
    }
  }

  /** `convertGoogDefine(root, path, modules)` on the statement at `at`; the names to export are returned. */
  method ConvertGoogDefine(p: Program, h: ClassHelpers, at: nat, modules: seq<string>) returns (r: Outcome, exported: Option<ExportKeys>)
    requires at < |p.body| && DefineStatement(p.body[at])
    modifies p
    ensures var c := DefineConversion(old(p.body), h, at, modules);
      r == c.outcome && p.body == c.body && exported == c.exported
  {
    var c := DefineConversion(p.body, h, at, modules);
    p.body := c.body;
    r := c.outcome;
    exported := c.exported;
  }

  // ---------------------------------------------------- namespace members

  /** `ns.x = value;` or `ns.x;` at the top level: the statements `convertNamespaceExpression` is handed. */
  predicate NamespaceStatement(s: Node)
  {
    s.ExpressionStatement? &&
    ((s.expression.AssignmentExpression? && s.expression.left.MemberExpression?) || s.expression.MemberExpression?)
  }

  /** The declared property: the assigned member's property, or the bare member's. */
  function DeclaredProperty(s: Node): Node
    requires NamespaceStatement(s)
  {
    if s.expression.AssignmentExpression? then s.expression.left.prop else s.expression.prop
  }

  /** An assignment to `<moduleName>.<propName>`, as `isReassigned` looks for them. */
  function AssignsProperty(moduleName: string, propName: string): Node -> bool
  {
    (n: Node) => n.AssignmentExpression? && n.left.MemberExpression? && MatchesPath(n.left.obj, moduleName) &&
      n.left.prop.Identifier? && n.left.prop.name == propName
  }

  /** The number of nodes of a statement list satisfying `P`. */
  function CountIn(stmts: seq<Node>, P: Node -> bool): nat
  {
    if stmts == [] then 0 else Count(stmts[0], P) + CountIn(stmts[1..], P)
  }

  lemma {:induction false} CountPositive(n: Node, P: Node -> bool)
    ensures Count(n, P) > 0 <==> AnyNode(n, P)
    decreases n, 1
  {
    CountAllPositive(Children(n), P, n);
  }

  lemma {:induction false} CountAllPositive(cs: seq<Node>, P: Node -> bool, parent: Node)
    requires forall i :: 0 <= i < |cs| ==> cs[i] < parent
    ensures CountAll(cs, P, parent) > 0 <==> exists i :: 0 <= i < |cs| && AnyNode(cs[i], P)
    decreases parent, 0, |cs|
  {
    if cs != [] {
      CountPositive(cs[0], P);
      CountAllPositive(cs[1..], P, parent);
      if exists i :: 0 <= i < |cs| && AnyNode(cs[i], P) {
        var i :| 0 <= i < |cs| && AnyNode(cs[i], P);
        if i > 0 {
          assert AnyNode(cs[1..][i - 1], P);
        }
      }
      if exists i :: 0 <= i < |cs[1..]| && AnyNode(cs[1..][i], P) {
        var i :| 0 <= i < |cs[1..]| && AnyNode(cs[1..][i], P);
        assert AnyNode(cs[i + 1], P);
      }
    }
  }

  /** A statement list counts a match exactly when it holds one. */
  lemma {:induction false} CountInPositive(stmts: seq<Node>, P: Node -> bool)
    ensures CountIn(stmts, P) > 0 <==> AnyIn(stmts, P)
  {
    if stmts != [] {
      CountPositive(stmts[0], P);
      CountInPositive(stmts[1..], P);
      if AnyIn(stmts[1..], P) {
        var i :| 0 <= i < |stmts[1..]| && AnyNode(stmts[1..][i], P);
        assert AnyNode(stmts[i + 1], P);
      }
      if AnyIn(stmts, P) && !AnyNode(stmts[0], P) {
        var i :| 0 <= i < |stmts| && AnyNode(stmts[i], P);
        assert AnyNode(stmts[1..][i - 1], P);
      }
    }
  }

  /** `isReassigned(root, moduleName, propName)`: the property is assigned more than once in the file. */
  predicate IsReassigned(body: seq<Node>, moduleName: string, propName: string)
  {
    CountIn(body, AssignsProperty(moduleName, propName)) > 1
  }

  /** The JSDoc of the new variable: the first `@const` and the first `@private` line dropped. */
  function NamespaceComment(text: string): string
  {
    ReplaceFirst(ReplaceFirst(text, "\n * @const", ""), "\n * @private", "")
  }

  /** Without `@const` and `@private` lines the comment is kept word for word. */
  lemma NamespaceCommentKept(text: string)
    requires !Contains(text, "\n * @const") && !Contains(text, "\n * @private")
    ensures NamespaceComment(text) == text
  {
    ReplaceFirstSpec(text, "\n * @const", "");
    ReplaceFirstSpec(text, "\n * @private", "");
  }

  /**
   * `convertNamespaceExpression`: the statement becomes a variable named
   * after the property (`const` for an assignment not made a second time,
   * `let` otherwise), holding the assigned value or nothing; its last
   * comment loses its `@const` and `@private` lines; references to
   * `<moduleName>.<name>` become `<name>`; the name is exported unless the
   * JSDoc marks it private. A property that is not an identifier, or a
   * last comment without text, throws.
   */
  function NamespaceConversion(body: seq<Node>, h: ClassHelpers, at: nat, moduleName: string): (c: Converted)
    requires at < |body| && NamespaceStatement(body[at])
    ensures c.outcome.Fail? ==> c.body == body && c.exported.None?
    ensures c.outcome.Pass? ==> |c.body| == |body|
  {
    var s := body[at];
    var prop := DeclaredProperty(s);
    if !prop.Identifier? then Converted(Fail(UndefinedName), body, None)
    else if s.comments != [] && s.comments[|s.comments| - 1].value.Undefined? then Converted(Fail(ReadOfUndefined), body, None)
    else
      var name := prop.name;
      Converted(Pass, RewriteAll(body[at := NamespaceDeclaration(body, at, moduleName)], QualifiedRule(moduleName + "." + name, name)),
                if h.isPrivate(s) then None else Some(Names([name])))
  }

  /** The declaration replacing the namespace statement at `at`, before references to it are renamed. */
  function NamespaceDeclaration(body: seq<Node>, at: nat, moduleName: string): (d: Node)
    requires at < |body| && NamespaceStatement(body[at])
    requires DeclaredProperty(body[at]).Identifier?
    requires body[at].comments == [] || body[at].comments[|body[at].comments| - 1].value.Text?
    ensures d.VariableDeclaration?
  {
    var s := body[at];
    var name := DeclaredProperty(s).name;
    var isAssignment := s.expression.AssignmentExpression?;
    var kind := if isAssignment && !IsReassigned(body, moduleName, name) then "const" else "let";
    var init := if isAssignment then s.expression.right else Absent;
    var comments := if s.comments == [] then [] else [CommentBlock(NamespaceComment(s.comments[|s.comments| - 1].value.s))];
    VariableDeclaration(kind, [VariableDeclarator(Identifier(name), init)], comments)
  }

  /**
   * After a namespace member is converted no reference to
   * `<moduleName>.<name>` is left, the statement is a declaration that is
   * `const` exactly for an assignment made only once, and the name is
   * exported exactly when it is not private.
   */
  lemma NamespaceConverted(body: seq<Node>, h: ClassHelpers, at: nat, moduleName: string)
    requires at < |body| && NamespaceStatement(body[at])
    requires DeclaredProperty(body[at]).Identifier?
    requires body[at].comments == [] || body[at].comments[|body[at].comments| - 1].value.Text?
    ensures var c := NamespaceConversion(body, h, at, moduleName);
      var s := body[at];
      var name := DeclaredProperty(s).name;
      c.outcome.Pass? &&
      !AnyIn(c.body, RefersTo(moduleName + "." + name)) &&
      c.body[at].VariableDeclaration? &&
      (c.body[at].kind == "const" <==> s.expression.AssignmentExpression? && !IsReassigned(body, moduleName, name)) &&
      (c.exported.Some? <==> !h.isPrivate(s)) &&
      (c.exported.Some? ==> c.exported.value == Names([name]))
  {
    var s := body[at];
    var name := DeclaredProperty(s).name;
    var decl := NamespaceDeclaration(body, at, moduleName);
    var rule := QualifiedRule(moduleName + "." + name, name);
    assert NamespaceConversion(body, h, at, moduleName).body == RewriteAll(body[at := decl], rule);
    QualifiedRuleClears(body[at := decl], moduleName + "." + name, name);
    QualifiedRuleKeepsDeclaration(decl, moduleName + "." + name, name);
  }

  /** Renaming qualified references keeps a declaration a declaration of the same kind. */
  lemma QualifiedRuleKeepsDeclaration(d: Node, moduleName: string, name: string)
    requires d.VariableDeclaration?
    ensures Rewrite(d, QualifiedRule(moduleName, name)).VariableDeclaration?
    ensures Rewrite(d, QualifiedRule(moduleName, name)).kind == d.kind
  {
    RewriteKeepsDeclaration(d, QualifiedRule(moduleName, name), RefersTo(moduleName));
  }

  /** An assignment statement counts itself: a property assigned nowhere else is declared `const`. */
  lemma NamespaceAssignedOnce(body: seq<Node>, moduleName: string, at: nat)
    requires at < |body| && NamespaceStatement(body[at]) && body[at].expression.AssignmentExpression?
    requires DeclaredProperty(body[at]).Identifier?
    requires AssignsProperty(moduleName, DeclaredProperty(body[at]).name)(body[at].expression)
    ensures CountIn(body, AssignsProperty(moduleName, DeclaredProperty(body[at]).name)) >= 1
  {
    var P := AssignsProperty(moduleName, DeclaredProperty(body[at]).name);
    assert Children(body[at]) == [body[at].expression];
    assert AnyNode(body[at].expression, P);
    assert AnyNode(body[at], P);
    CountInPositive(body, P);
  }

  /** `convertNamespaceExpression(root, path, moduleName)` on the statement at `at`; the names to export are returned. */
  method ConvertNamespaceExpression(p: Program, h: ClassHelpers, at: nat, moduleName: string) returns (r: Outcome, exported: Option<ExportKeys>)
    requires at < |p.body| && NamespaceStatement(p.body[at])
    modifies p
    ensures var c := NamespaceConversion(old(p.body), h, at, moduleName);
      r == c.outcome && p.body == c.body && exported == c.exported
  {
    var c := NamespaceConversion(p.body, h, at, moduleName);
    p.body := c.body;
    r := c.outcome;
    exported := c.exported;
  }

  // ------------------------------------------------------ Angular UI files

  /** A `goog.module(...)` call statement. */
  predicate ModuleStatement(s: Node)
  {
    s.ExpressionStatement? && IsCall(s.expression, "goog.module")
  }

  /** `args[0].value === name`: the first argument is a string literal holding the name. */
  predicate NamesModule(s: Node, name: string)
    requires ModuleStatement(s)
  {
    |s.expression.arguments| >= 1 && s.expression.arguments[0].Literal? && s.expression.arguments[0].v.Str? &&
    s.expression.arguments[0].v.s == name
  }

  /** `args[0] = jscs.literal(moduleName)` */
  function WithModuleName(s: Node, name: string): (r: Node)
    requires ModuleStatement(s) && |s.expression.arguments| >= 1
    ensures ModuleStatement(r) && NamesModule(r, name)
  {
    var call := s.expression;
    ExpressionStatement(CallExpression(call.callee, [Literal(Str(name))] + call.arguments[1..]), s.comments)
  }

  /** The callback over the `goog.module` calls: the directive's is removed, the controller's renamed. */
  function RenameModuleStep(s: Node, controllerName: string, directiveName: string, moduleName: string): (r: ClassPass.Step)
    requires ModuleStatement(s)
    ensures r.Threw? <==> |s.expression.arguments| == 0
    ensures r.Done? ==> r.h.members == [] && r.h.warnings == [] && r.h.superClass.None? && r.h.hoisted == [] && r.h.renamed == []
    ensures r.Done? && NamesModule(s, directiveName) ==> r.h.stays == []
    ensures r.Done? && !NamesModule(s, directiveName) && NamesModule(s, controllerName) ==> r.h.stays == [WithModuleName(s, moduleName)]
    ensures r.Done? && !NamesModule(s, directiveName) && !NamesModule(s, controllerName) ==> r.h.stays == [s]
  {
    if |s.expression.arguments| == 0 then Threw(ReadOfUndefined)
    else if NamesModule(s, directiveName) then Done(Handled([], [], [], None, [], []))
    else if NamesModule(s, controllerName) then Done(Keep(WithModuleName(s, moduleName)))
    else Done(Keep(s))
  }

  function ModuleMatch(): Node -> bool
  {
    (s: Node) => ModuleStatement(s)
  }

  function RenameHandler(controllerName: string, directiveName: string, moduleName: string): Node -> ClassPass.Step
  {
    (s: Node) => if ModuleStatement(s) then RenameModuleStep(s, controllerName, directiveName, moduleName) else Done(Keep(s))
  }

  /** A `goog.module` statement for the directive or the controller. */
  predicate OldUIModule(s: Node, controllerName: string, directiveName: string)
  {
    ModuleStatement(s) && (NamesModule(s, directiveName) || NamesModule(s, controllerName))
  }

  /**
   * When the pass completes and the chosen name is new, no `goog.module`
   * call for the controller or the directive is left: the directive's are
   * removed and the controller's declare the new name.
   */
  lemma RenamePassClears(stmts: seq<Node>, controllerName: string, directiveName: string, moduleName: string)
    requires moduleName != controllerName && moduleName != directiveName
    ensures var r := ForEach(stmts, ModuleMatch(), RenameHandler(controllerName, directiveName, moduleName));
      r.error.None? ==> forall t :: t in r.acc.stays ==> !OldUIModule(t, controllerName, directiveName)
  {
    var m := ModuleMatch();
    var hd := RenameHandler(controllerName, directiveName, moduleName);
    var Q := (s: Node) => OldUIModule(s, controllerName, directiveName);
    forall s | m(s) && hd(s).Done?
      ensures forall t :: t in hd(s).h.stays ==> !Q(t)
    {
      var r := RenameModuleStep(s, controllerName, directiveName, moduleName);
      if !NamesModule(s, directiveName) && NamesModule(s, controllerName) {
        var t := WithModuleName(s, moduleName);
        assert r.h.stays == [t];
        assert NamesModule(t, moduleName);
      }
    }
    PassClears(stmts, m, hd, Q);
  }

  /** A file whose `goog.module` calls name neither the controller nor the directive is left as it is. */
  lemma RenamePassKeepsOthers(stmts: seq<Node>, controllerName: string, directiveName: string, moduleName: string)
    requires forall s :: s in stmts && ModuleStatement(s) ==>
      |s.expression.arguments| >= 1 && !NamesModule(s, directiveName) && !NamesModule(s, controllerName)
    ensures ForEach(stmts, ModuleMatch(), RenameHandler(controllerName, directiveName, moduleName)) ==
      PassResult(Handled(stmts, [], [], None, [], []), None)
  {
    var hd := RenameHandler(controllerName, directiveName, moduleName);
    forall s | s in stmts && ModuleMatch()(s)
      ensures hd(s) == Done(Keep(s))
    {
    }
    PassKeepsWithin(stmts, ModuleMatch(), hd);
  }

  /**
   * `replaceUIModules(root, controllerName, directiveName)`: picks the UI
   * module name (logging when it cannot be made unique), then removes the
   * directive's `goog.module` call and renames the controller's. A
   * `goog.module()` without arguments throws. `taken` answers
   * `getDependency`.
   */
  method ReplaceUIModules(p: Program, log: Log, controllerName: string, directiveName: string, taken: string -> bool)
    returns (r: Outcome, moduleName: string)
    modifies p, log
    ensures var choice := UIModuleName(controllerName, taken);
      moduleName == choice.name &&
      log.warnings == old(log.warnings) + (if choice.warning.Some? then [choice.warning.value] else []) &&
      log.infos == old(log.infos)
    ensures var pass := ForEach(old(p.body), ModuleMatch(), RenameHandler(controllerName, directiveName, moduleName));
      (r.Pass? <==> pass.error.None?) &&
      p.body == (if r.Pass? then pass.acc.stays else old(p.body))
  {
    var choice := UIModuleName(controllerName, taken);
    moduleName := choice.name;
    if choice.warning.Some? {
      log.Warn(choice.warning.value);
    }
    var pass := RunPass(p.body, ModuleMatch(), RenameHandler(controllerName, directiveName, moduleName));
    if pass.error.Some? {
      return Fail(pass.error.value), moduleName;
    }
    p.body := pass.acc.stays;
    r := Pass;
  }
}
