/**
 * `src/transforms/es6/requiretoimport.js`: requires of ES modules become
 * `import` declarations. Three passes over the whole tree: assigned
 * `goog.require` declarations, bare `goog.require` statements, then
 * assigned `goog.requireType` declarations (which only get the
 * `{default: x}` target).
 */
module RequireToImport {
  import opened Wrappers
  import opened Strings
  import opened Ast
  import opened AstUtils
  import opened Goog
  import opened Logger
  import opened ModuleDeps

  /**
   * The setting of one run: the dependency lookups, `currentProject` (the
   * first segment of the file's path in the workspace) and `path.relative`
   * from the file's directory to the directory of a dependency path.
   */
  datatype ImportContext = ImportContext(resolver: Resolver, project: string, relativeDir: string -> string)

  /** `path.basename(p)`: the text after the last '/'. */
  function Basename(p: string): (r: string)
    ensures '/' !in r && |r| <= |p| && p[|p| - |r|..] == r
    decreases |p|
  {
    if p == [] || p[|p| - 1] == '/' then [] else Basename(p[..|p| - 1]) + [p[|p| - 1]]
  }

  /** `path.join(dir, base)` for a normalised relative directory and a base name. */
  function JoinPath(dir: string, base: string): string
  {
    if dir == "" then base else dir + "/" + base
  }

  /** `getDepPath(dependency)` */
  function DepPath(ctx: ImportContext, dep: Dependency): string
  {
    if StartsWith(dep.path, ctx.project + "/") then
      var joined := JoinPath(ctx.relativeDir(dep.path), Basename(dep.path));
      if StartsWith(joined, ".") then joined else "./" + joined
    else dep.path
  }

  /**
   * A dependency of the file's own project is imported by a relative path
   * (starting with `.`) ending with its file name; any other dependency by
   * its path as it is.
   */
  lemma DepPathSpec(ctx: ImportContext, dep: Dependency)
    ensures !StartsWith(dep.path, ctx.project + "/") ==> DepPath(ctx, dep) == dep.path
    ensures StartsWith(dep.path, ctx.project + "/") ==>
      StartsWith(DepPath(ctx, dep), ".") && EndsWith(DepPath(ctx, dep), Basename(dep.path))
  {
    if StartsWith(dep.path, ctx.project + "/") {
      var base := Basename(dep.path);
      var joined := JoinPath(ctx.relativeDir(dep.path), base);
      JoinEndsWith(ctx.relativeDir(dep.path), base);
      if !StartsWith(joined, ".") {
        PrefixEndsWith("./", joined, base);
        assert ("./" + joined)[..1] == ".";
      }
    }
  }

  lemma JoinEndsWith(dir: string, base: string)
    ensures EndsWith(JoinPath(dir, base), base)
  {
    if dir != "" {
      PrefixEndsWith(dir + "/", base, base);
    }
  }

  lemma PrefixEndsWith(pre: string, s: string, suffix: string)
    requires EndsWith(s, suffix)
    ensures EndsWith(pre + s, suffix)
  {
    var t := pre + s;
    assert t[|t| - |suffix|..] == s[|s| - |suffix|..];
  }

  // ------------------------------------------------------- assigned requires

  /**
   * How `props[0].key === 'default'` is read: as written it compares the key
   * node with a string, which never holds; corrected, the key's name.
   */
  datatype KeyTest = KeyNode | KeyName

  /** `{default: x}` as the only property, under the given reading of the key test. */
  predicate DefaultOnly(props: seq<Node>, test: KeyTest)
  {
    test == KeyName && |props| == 1 && props[0].Property? && props[0].key == Identifier("default")
  }

  /** A property the import-specifier builder accepts: an identifier key and an identifier value. */
  predicate PlainProperty(p: Node)
  {
    p.Property? && p.key.Identifier? && p.value.Identifier?
  }

  function Specifiers(props: seq<Node>): (r: seq<Node>)
    ensures |r| == |props|
  {
    seq(|props|, i requires 0 <= i < |props| =>
      if props[i].Property? then ImportSpecifier(props[i].key, props[i].value) else ImportSpecifier(Absent, Absent))
  }

  /** A target the import builders reject: a specifier whose names are not identifiers. */
  predicate BuildFails(id: Node, test: KeyTest)
  {
    id.ObjectPattern? &&
    if DefaultOnly(id.properties, test) then !id.properties[0].value.Identifier?
    else exists i :: 0 <= i < |id.properties| && !PlainProperty(id.properties[i])
  }

  /**
   * The import that replaces the declaration of `id`: a default or namespace
   * import of an identifier, a default import of `{default: x}`, named
   * imports of any other object pattern, and nothing for other targets.
   */
  function ImportFor(id: Node, dep: Dependency, source: string, test: KeyTest): Option<Node>
  {
    var src := Literal(Str(source));
    if id.Identifier? then
      if dep.defaultExport then Some(ImportDeclaration([ImportDefaultSpecifier(id)], src))
      else Some(ImportDeclaration([ImportNamespaceSpecifier(id)], src))
    else if id.ObjectPattern? then
      if DefaultOnly(id.properties, test) then Some(ImportDeclaration([ImportDefaultSpecifier(id.properties[0].value)], src))
      else Some(ImportDeclaration(Specifiers(id.properties), src))
    else None
  }

  /** The names a target binds, when it is an identifier or a pattern of plain properties. */
  function BoundNames(id: Node): Option<seq<string>>
  {
    if id.Identifier? then Some([id.name])
    else if id.ObjectPattern? && forall i :: 0 <= i < |id.properties| ==> PlainProperty(id.properties[i]) then
      Some(seq(|id.properties|, i requires 0 <= i < |id.properties| && PlainProperty(id.properties[i]) =>
        id.properties[i].value.name))
    else None
  }

  /** The local names an import declaration binds. */
  function ImportedNames(n: Node): Option<seq<string>>
  {
    if n.ImportDeclaration? && forall i :: 0 <= i < |n.specifiers| ==> SpecifierLocal(n.specifiers[i]).Identifier? then
      Some(seq(|n.specifiers|, i requires 0 <= i < |n.specifiers| && SpecifierLocal(n.specifiers[i]).Identifier? =>
        SpecifierLocal(n.specifiers[i]).name))
    else None
  }

  function SpecifierLocal(s: Node): Node
  {
    match s
    case ImportDefaultSpecifier(l) => l
    case ImportNamespaceSpecifier(l) => l
    case ImportSpecifier(_, l) => l
    case _ => Absent
  }

  /**
   * The import binds exactly the names the declaration bound, in order, and
   * imports from the given path; under either reading of the key test.
   */
  lemma ImportKeepsNames(id: Node, dep: Dependency, source: string, test: KeyTest)
    requires !BuildFails(id, test) && BoundNames(id).Some?
    ensures ImportFor(id, dep, source, test).Some?
    ensures ImportedNames(ImportFor(id, dep, source, test).value) == BoundNames(id)
    ensures ImportFor(id, dep, source, test).value.source == Literal(Str(source))
  {
    if id.ObjectPattern? && !DefaultOnly(id.properties, test) {
      var specs := Specifiers(id.properties);
      var imp := ImportDeclaration(specs, Literal(Str(source)));
      assert forall i :: 0 <= i < |specs| ==> SpecifierLocal(specs[i]) == id.properties[i].value;
      var names := BoundNames(id).value;
      assert ImportedNames(imp).Some?;
      assert |ImportedNames(imp).value| == |names|;
      forall i | 0 <= i < |names|
        ensures ImportedNames(imp).value[i] == names[i]
      {
      }
      assert ImportedNames(imp).value == names;
      assert ImportFor(id, dep, source, test) == Some(imp);
    } else if id.ObjectPattern? {
      var v := id.properties[0].value;
      var imp := ImportDeclaration([ImportDefaultSpecifier(v)], Literal(Str(source)));
      assert ImportFor(id, dep, source, test) == Some(imp);
      assert ImportedNames(imp).value == [v.name];
      assert BoundNames(id).value == [v.name];
    } else {
      var spec := if dep.defaultExport then ImportDefaultSpecifier(id) else ImportNamespaceSpecifier(id);
      var imp := ImportDeclaration([spec], Literal(Str(source)));
      assert ImportFor(id, dep, source, test) == Some(imp);
      assert SpecifierLocal(spec) == id;
      assert ImportedNames(imp).value == [id.name];
    }
  }

  /** An import of an identifier target is a default import exactly when the module has a default export. */
  lemma IdentifierImportKind(id: Node, dep: Dependency, source: string, test: KeyTest)
    requires id.Identifier?
    ensures ImportFor(id, dep, source, test).Some?
    ensures ImportFor(id, dep, source, test).value.specifiers[0].ImportDefaultSpecifier? <==> dep.defaultExport
    ensures ImportFor(id, dep, source, test).value.specifiers[0].ImportNamespaceSpecifier? <==> !dep.defaultExport
  {
  }

  /** An assigned require of an ES module (with an argument). */
  predicate Converts(n: Node, ctx: ImportContext)
  {
    DeclOf(n, RequireCallee) && |InitCall(n).arguments| >= 1 && IsEs6(DependencyOf(ctx.resolver, InitCall(n)))
  }

  /** Where the first pass throws: no argument to read, or a pattern the builders reject. */
  predicate ImportThrows(n: Node, ctx: ImportContext, test: KeyTest)
  {
    DeclOf(n, RequireCallee) && (NoArgument(InitCall(n)) || (Converts(n, ctx) && BuildFails(Target(n), test)))
  }

  /** A converted declaration whose target is neither an identifier nor an object pattern: logged and left. */
  predicate Unsupported(n: Node, ctx: ImportContext)
  {
    Converts(n, ctx) && !Target(n).Identifier? && !Target(n).ObjectPattern?
  }

  function ImportReplacement(n: Node, ctx: ImportContext, test: KeyTest): Node
  {
    if Converts(n, ctx) && !BuildFails(Target(n), test) && !Unsupported(n, ctx) then
      var dep := DependencyOf(ctx.resolver, InitCall(n)).value;
      ImportFor(Target(n), dep, DepPath(ctx, dep), test).value
    else n
  }

  function ImportRule(ctx: ImportContext, test: KeyTest): Node -> Node
  {
    (n: Node) => ImportReplacement(n, ctx, test)
  }

  function ImportThrowsP(ctx: ImportContext, test: KeyTest): Node -> bool
  {
    (n: Node) => ImportThrows(n, ctx, test)
  }

  /** The nodes the first pass visits that throw or log. */
  function Visible(ctx: ImportContext, test: KeyTest): Node -> bool
  {
    (n: Node) => ImportThrows(n, ctx, test) || Unsupported(n, ctx)
  }

  /**
   * The reading of the key test as written never yields a default import
   * from `{default: x}`: the declaration becomes `import {default as x}`,
   * where the corrected reading gives `import x`. Both bind `x` to the
   * module's default export.
   */
  lemma DefaultKeyAsWritten(x: string, dep: Dependency, source: string)
    ensures var id := ObjectPattern([Property(Identifier("default"), Identifier(x), false)]);
      ImportFor(id, dep, source, KeyNode) ==
        Some(ImportDeclaration([ImportSpecifier(Identifier("default"), Identifier(x))], Literal(Str(source)))) &&
      ImportFor(id, dep, source, KeyName) ==
        Some(ImportDeclaration([ImportDefaultSpecifier(Identifier(x))], Literal(Str(source))))
  {
    var id := ObjectPattern([Property(Identifier("default"), Identifier(x), false)]);
    assert Specifiers(id.properties) == [ImportSpecifier(Identifier("default"), Identifier(x))];
  }

  /** The corrected key test accepts exactly the single `{default: x}` property. */
  lemma DefaultKeyCorrected(props: seq<Node>)
    ensures DefaultOnly(props, KeyName) <==>
      |props| == 1 && props[0].Property? && props[0].key.Identifier? && props[0].key.name == "default"
    ensures !DefaultOnly(props, KeyNode)
  {
  }

  // ---------------------------------------------------------- bare requires

  /** A bare `goog.require('x');` of an ES module (with an argument). */
  predicate BareConverts(s: Node, ctx: ImportContext)
  {
    IsRequireStatement(s) && |s.expression.arguments| >= 1 && IsEs6(DependencyOf(ctx.resolver, s.expression))
  }

  predicate BareThrows(s: Node)
  {
    IsRequireStatement(s) && NoArgument(s.expression)
  }

  /** `import 'path';`: a bare import binds nothing. */
  function BareReplacement(s: Node, ctx: ImportContext): (r: Node)
    ensures BareConverts(s, ctx) ==> r.ImportDeclaration? && r.specifiers == []
    ensures !BareConverts(s, ctx) ==> r == s
  {
    if BareConverts(s, ctx) then
      ImportDeclaration([], Literal(Str(DepPath(ctx, DependencyOf(ctx.resolver, s.expression).value))))
    else s
  }

  function BareRule(ctx: ImportContext): Node -> Node
  {
    (n: Node) => BareReplacement(n, ctx)
  }

  function BareThrowsP(): Node -> bool
  {
    (n: Node) => BareThrows(n)
  }

  // ------------------------------------------------------------- the passes

  /** The three passes in order: assigned requires, bare requires, assigned `requireType`s. */
  function ImportPasses(body: seq<Node>, ctx: ImportContext, test: KeyTest): seq<Node>
  {
    var first := RewriteAll(body, ImportRule(ctx, test));
    var second := RewriteAll(first, BareRule(ctx));
    RewriteAll(second, DefaultRule(ctx.resolver, RequireTypeCallee, true, false))
  }

  /** Some pass throws (each on the output of the one before). */
  predicate PassesThrow(body: seq<Node>, ctx: ImportContext, test: KeyTest)
  {
    var first := RewriteAll(body, ImportRule(ctx, test));
    var second := RewriteAll(first, BareRule(ctx));
    AnyIn(body, ImportThrowsP(ctx, test)) || AnyIn(first, BareThrowsP()) ||
    AnyIn(second, Throws(RequireTypeCallee, false))
  }

  const UnsupportedPrefix := "Unsupported goog imports type: "

  /** The warnings the first pass writes from position `k` on, up to the node where it throws. */
  function WarningsFrom(nodes: seq<Node>, k: nat, ctx: ImportContext, test: KeyTest): seq<string>
    requires k <= |nodes|
    decreases |nodes| - k
  {
    if k == |nodes| || ImportThrows(nodes[k], ctx, test) then []
    else
      var n := nodes[k];
      var kind := if n.VariableDeclaration? && |n.declarations| >= 1 && n.declarations[0].VariableDeclarator?
        then TypeName(Target(n)) else "undefined";
      [UnsupportedPrefix + kind] + WarningsFrom(nodes, k + 1, ctx, test)
  }

  /** The warnings of the first pass: `visited` lists its throwing and logging nodes in visiting order. */
  method LogUnsupported(visited: seq<Node>, ctx: ImportContext, test: KeyTest, log: Log)
    modifies log
    ensures log.warnings == old(log.warnings) + WarningsFrom(visited, 0, ctx, test)
    ensures log.infos == old(log.infos)
  {
    var k := 0;
    while k < |visited| && !ImportThrows(visited[k], ctx, test)
      invariant 0 <= k <= |visited|
      invariant log.warnings + WarningsFrom(visited, k, ctx, test) == old(log.warnings) + WarningsFrom(visited, 0, ctx, test)
      invariant log.infos == old(log.infos)
    {
      var n := visited[k];
      var kind := if n.VariableDeclaration? && |n.declarations| >= 1 && n.declarations[0].VariableDeclarator?
        then TypeName(Target(n)) else "undefined";
      log.Warn(UnsupportedPrefix + kind);
      k := k + 1;
    }
  }

  /**
   * The transform: when some pass throws the file is left as it was (the
   * warnings written before the throw stay in the log); otherwise the three
   * passes are applied. `test` is the reading of the `'default'` key test:
   * `KeyNode` runs the file as written, `KeyName` the corrected test.
   */
  method RequireToImport(p: Program, ctx: ImportContext, test: KeyTest, log: Log) returns (r: Outcome)
    modifies p, log
    ensures r.Fail? <==> PassesThrow(old(p.body), ctx, test)
    ensures r.Fail? ==> p.body == old(p.body)
    ensures r.Pass? ==> p.body == ImportPasses(old(p.body), ctx, test)
    ensures log.warnings == old(log.warnings) + WarningsFrom(CollectIn(old(p.body), Visible(ctx, test)), 0, ctx, test)
    ensures log.infos == old(log.infos)
  {
    var body := p.body;
    LogUnsupported(CollectIn(body, Visible(ctx, test)), ctx, test, log);
    if PassesThrow(body, ctx, test) {
      return Fail("Cannot read properties of undefined (reading 'value')");
    }
    p.body := ImportPasses(body, ctx, test);
    r := Pass;
  }

  /** The `requireType` pass leaves no convertible declaration, so it is idempotent. */
  lemma RequireTypePassIdempotent(body: seq<Node>, ctx: ImportContext)
    ensures var f := DefaultRule(ctx.resolver, RequireTypeCallee, true, false);
      !AnyIn(RewriteAll(body, f), Fixable(ctx.resolver, RequireTypeCallee, true, false)) &&
      RewriteAll(RewriteAll(body, f), f) == RewriteAll(body, f)
  {
    DefaultPassComplete(body, ctx.resolver, RequireTypeCallee, false);
    DefaultPassIdempotent(body, ctx.resolver, RequireTypeCallee, false);
  }
}
