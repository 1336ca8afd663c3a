/**
 * What the ES-module transforms under `src/transforms/es6/` share: the
 * dependency lookup of a required module, the shape of a
 * `const x = goog.require('a.b')` declaration, and the rewrite of its
 * target into the `{default: x}` pattern.
 */
module ModuleDeps {
  import opened Wrappers
  import opened Ast
  import opened AstUtils

  /** What `getDependency` reports about a module: its file path, its module type, and `hasDefaultExport`. */
  datatype Dependency = Dependency(path: string, moduleType: string, defaultExport: bool)

  /**
   * The dependency lookups `getDependency` and `getTempModuleName` of
   * `src/utils/goog.js`, which is not part of this model. Both take
   * `arguments[0].value`, `None` standing for a value that is not a string.
   */
  datatype Resolver = Resolver(
    getDependency: Option<string> -> Option<Dependency>,
    tempModuleName: Option<string> -> Option<string>)

  /** `getDependency(getTempModuleName(moduleName)) || getDependency(moduleName)` */
  function Resolve(r: Resolver, name: Option<string>): (d: Option<Dependency>)
  {
    var temp := r.getDependency(r.tempModuleName(name));
    if temp.Some? then temp else r.getDependency(name)
  }

  /** The dependency under the temporary name wins; the module's own name is only the fallback. */
  lemma ResolveOrder(r: Resolver, name: Option<string>)
    ensures r.getDependency(r.tempModuleName(name)).Some? ==> Resolve(r, name) == r.getDependency(r.tempModuleName(name))
    ensures r.getDependency(r.tempModuleName(name)).None? ==> Resolve(r, name) == r.getDependency(name)
    ensures Resolve(r, name).Some? <==> r.getDependency(r.tempModuleName(name)).Some? || r.getDependency(name).Some?
  {
  }

  /** `dependency && dependency.moduleType === 'es6'` */
  predicate IsEs6(d: Option<Dependency>)
  {
    d.Some? && d.value.moduleType == "es6"
  }

  /** `goog.require`, `goog.requireType` and `goog.module.get`, as `createFindMemberExprObject` spells them. */
  const RequireCallee := MemberIs(NameIs("goog"), "require")
  const RequireTypeCallee := MemberIs(NameIs("goog"), "requireType")
  const ModuleGetCallee := MemberIs(MemberIs(NameIs("goog"), "module"), "get")

  /** The pattern `{declarations: [{init: {type: 'CallExpression', callee}}]}`: the first declarator is initialised by such a call. */
  predicate DeclOf(n: Node, callee: MemberPattern)
  {
    n.VariableDeclaration? && |n.declarations| >= 1 && n.declarations[0].VariableDeclarator? &&
    n.declarations[0].init.CallExpression? && Matches(n.declarations[0].init.callee, callee)
  }

  /** The call of a matched declaration. */
  function InitCall(n: Node): (c: Node)
    requires n.VariableDeclaration? && |n.declarations| >= 1 && n.declarations[0].VariableDeclarator?
  {
    n.declarations[0].init
  }

  /** `declarator.id` */
  function Target(n: Node): Node
    requires n.VariableDeclaration? && |n.declarations| >= 1 && n.declarations[0].VariableDeclarator?
  {
    n.declarations[0].id
  }

  /** A call without arguments: reading `arguments[0].value` throws. */
  predicate NoArgument(call: Node)
  {
    call.CallExpression? && |call.arguments| == 0
  }

  /** `arguments[0].value` of a call with an argument: `Some` for a string literal. */
  function ModuleName(call: Node): Option<string>
    requires call.CallExpression? && |call.arguments| >= 1
  {
    var a := call.arguments[0];
    if a.Literal? && a.v.Str? then Some(a.v.s) else None
  }

  /** The dependency a matched call with an argument refers to. */
  function DependencyOf(r: Resolver, call: Node): Option<Dependency>
    requires call.CallExpression? && |call.arguments| >= 1
  {
    Resolve(r, ModuleName(call))
  }

  /** `jscs.objectPattern([jscs.property('init', jscs.identifier('default'), id)])`: `{default: id}`. */
  function DefaultPattern(id: Node): (p: Node)
    ensures p.ObjectPattern? && |p.properties| == 1
  {
    ObjectPattern([Property(Identifier("default"), id, false)])
  }

  /** The declaration whose first declarator's target `id` became `{default: id}`; the rest stays. */
  function WithDefaultTarget(n: Node): (r: Node)
    requires n.VariableDeclaration? && |n.declarations| >= 1 && n.declarations[0].VariableDeclarator?
    ensures r.VariableDeclaration? && |r.declarations| == |n.declarations| && r.declarations[0].VariableDeclarator?
    ensures Target(r) == DefaultPattern(Target(n)) && InitCall(r) == InitCall(n)
    ensures r.kind == n.kind && r.comments == n.comments && r.declarations[1..] == n.declarations[1..]
  {
    var d := n.declarations[0];
    VariableDeclaration(n.kind, [VariableDeclarator(DefaultPattern(d.id), d.init)] + n.declarations[1..], n.comments)
  }

  /**
   * The declarations `fixDeclaration` (and the `requireType` pass of
   * `requiretoimport.js`) change: matched, the target an identifier when
   * `identifierOnly`, with an argument, an ES module dependency, and a
   * default export when `needsDefault`.
   */
  predicate DefaultFixable(n: Node, r: Resolver, callee: MemberPattern, identifierOnly: bool, needsDefault: bool)
  {
    DeclOf(n, callee) && (!identifierOnly || Target(n).Identifier?) && |InitCall(n).arguments| >= 1 &&
    IsEs6(DependencyOf(r, InitCall(n))) && (!needsDefault || DependencyOf(r, InitCall(n)).value.defaultExport)
  }

  /** Where such a pass throws: a matched declaration whose call has no argument (with an identifier target when `identifierOnly`). */
  predicate DefaultThrows(n: Node, callee: MemberPattern, identifierOnly: bool)
  {
    DeclOf(n, callee) && (!identifierOnly || Target(n).Identifier?) && NoArgument(InitCall(n))
  }

  function DefaultReplacement(n: Node, r: Resolver, callee: MemberPattern, identifierOnly: bool, needsDefault: bool): Node
  {
    if DefaultFixable(n, r, callee, identifierOnly, needsDefault) then WithDefaultTarget(n) else n
  }

  function DefaultRule(r: Resolver, callee: MemberPattern, identifierOnly: bool, needsDefault: bool): Node -> Node
  {
    (n: Node) => DefaultReplacement(n, r, callee, identifierOnly, needsDefault)
  }

  function Fixable(r: Resolver, callee: MemberPattern, identifierOnly: bool, needsDefault: bool): Node -> bool
  {
    (n: Node) => DefaultFixable(n, r, callee, identifierOnly, needsDefault)
  }

  function Throws(callee: MemberPattern, identifierOnly: bool): Node -> bool
  {
    (n: Node) => DefaultThrows(n, callee, identifierOnly)
  }

  /** A rebuilt declaration holds no `P` that only declarations can satisfy, when its parts hold none. */
  lemma {:induction false} DefaultTargetClean(n: Node, P: Node -> bool)
    requires n.VariableDeclaration? && |n.declarations| >= 1 && n.declarations[0].VariableDeclarator?
    requires forall x :: P(x) ==> x.VariableDeclaration?
    requires NoneBelow(n, P) && !P(WithDefaultTarget(n))
    ensures !AnyNode(WithDefaultTarget(n), P)
  {
    var d := n.declarations[0];
    var w := WithDefaultTarget(n);
    assert Children(n)[0] == d;
    ChildNone(d, P, 0);
    ChildNone(d, P, 1);
    var def := Identifier("default");
    NoneAt(def, P);
    var prop := Property(def, d.id, false);
    NoneAt(prop, P);
    var pat := DefaultPattern(d.id);
    NoneAt(pat, P);
    var decl := VariableDeclarator(pat, d.init);
    NoneAt(decl, P);
    forall i | 0 <= i < |Children(w)|
      ensures !AnyNode(Children(w)[i], P)
    {
      if i > 0 {
        assert Children(w)[i] == Children(n)[i];
      }
    }
  }

  /**
   * Completeness of a pass that needs an identifier target: afterwards no
   * declaration it would change is left (each rebuilt target is a pattern).
   */
  lemma DefaultPassComplete(body: seq<Node>, r: Resolver, callee: MemberPattern, needsDefault: bool)
    ensures !AnyIn(RewriteAll(body, DefaultRule(r, callee, true, needsDefault)), Fixable(r, callee, true, needsDefault))
  {
    var f := DefaultRule(r, callee, true, needsDefault);
    var P := Fixable(r, callee, true, needsDefault);
    forall m | P(m) && NoneBelow(m, P)
      ensures !AnyNode(f(m), P)
    {
      DefaultTargetClean(m, P);
    }
    RewriteAllClears(body, f, P);
  }

  /** Such a pass is idempotent: running it again changes nothing. */
  lemma DefaultPassIdempotent(body: seq<Node>, r: Resolver, callee: MemberPattern, needsDefault: bool)
    ensures var once := RewriteAll(body, DefaultRule(r, callee, true, needsDefault));
      RewriteAll(once, DefaultRule(r, callee, true, needsDefault)) == once
  {
    var f := DefaultRule(r, callee, true, needsDefault);
    var P := Fixable(r, callee, true, needsDefault);
    DefaultPassComplete(body, r, callee, needsDefault);
    RewriteAllUnchanged(RewriteAll(body, f), f, P);
  }

  /** Without the identifier test the target is wrapped again on every run: `{default: {default: x}}`. */
  lemma WrapsAgainWithoutIdentifierTest(n: Node, r: Resolver, callee: MemberPattern, needsDefault: bool)
    requires DefaultFixable(n, r, callee, false, needsDefault)
    ensures var once := DefaultReplacement(n, r, callee, false, needsDefault);
      DefaultFixable(once, r, callee, false, needsDefault) &&
      Target(DefaultReplacement(once, r, callee, false, needsDefault)) == DefaultPattern(DefaultPattern(Target(n)))
  {
  }
}
