/**
 * The class conversion of `src/utils/classes.js`: a Closure constructor
 * `ns.Foo = function(...) {...}` becomes an ES6 class declaration, and the
 * statements around it that describe the class (prototype members, static
 * members, `goog.addSingletonGetter`, `goog.inherits`, `Foo.base(...)` and
 * `Foo.superClass_.m.call(...)`) are folded into it. Also the conversions of
 * `goog.define`, of plain namespace members and the renaming of Angular UI
 * modules.
 *
 * Helpers the file imports but whose definitions are not part of this model
 * (`isConst`, `isPrivate`, `isControllerClass`, `memberExpressionToString`,
 * `getUniqueVarName`, `getDependency`) are answers supplied by the caller.
 * `addExports` of `goog.js` is not part of this model either: the export
 * each conversion asks for is returned to the caller.
 */
module Classes {
  import opened Wrappers
  import opened Strings
  import opened Seqs
  import opened Ast
  import opened AstUtils
  import opened Logger
  import opened ClassRegistry
  import opened ClassNames
  import opened ClassPass
  import opened Es6
  import CC = ClassComments
  import ArrayRules

  /** The answers of the helpers whose code is not part of this model. */
  datatype ClassHelpers = ClassHelpers(
    /** `isConst(statement)`: the statement's JSDoc marks a constant. */
    isConst: Node -> bool,
    /** `isPrivate(statement)`: the statement's JSDoc marks it private. */
    isPrivate: Node -> bool,
    /** `isControllerClass(statement)`: the class is an Angular controller. */
    isControllerClass: Node -> bool,
    /** `memberExpressionToString(node)`: the dotted text of an expression. */
    memberText: Node -> string,
    /** `getUniqueVarName(root, name, '_')`: a variable name not yet used in the file. */
    uniqueVarName: (seq<Node>, string) -> string)

  const ControllerName := "Controller"

  /** The error ast-types raises when an identifier is built from `undefined`. */
  const UndefinedName := "undefined does not match field \"name\": string of type Identifier"
  /** The error ast-types raises when a function is built from `undefined` parameters. */
  const UndefinedParams := "undefined does not match field \"params\": [Pattern] of type FunctionExpression"
  /** The error ast-types raises when a comment is built from `undefined` text. */
  const UndefinedComment := "undefined does not match field \"value\": string of type CommentBlock"
  /** The TypeError of reading a property of `undefined`. */
  const ReadOfUndefined := "TypeError: Cannot read properties of undefined"

  // ------------------------------------------------------------ statements

  /** `{left: {type: 'MemberExpression', object: createFindMemberExprObject(path)}}` on a top-level statement. */
  predicate AssignsMemberOf(s: Node, path: string)
  {
    IsAssignmentStatement(s) && s.expression.left.MemberExpression? && MatchesPath(s.expression.left.obj, path)
  }

  /** `{callee: createFindMemberExprObject(fn), arguments: [createFindMemberExprObject(moduleName)]}` as a top-level statement. */
  predicate CallsWithModule(s: Node, fn: string, moduleName: string)
  {
    s.ExpressionStatement? && IsCall(s.expression, fn) && |s.expression.arguments| >= 1 &&
    MatchesPath(s.expression.arguments[0], moduleName)
  }

  /** `addMethodToClass(moduleName, name, value, isStatic)`: the method definition pushed onto the class. */
  function ClassMethod(name: string, value: Node, isStatic: bool, comments: seq<Comment>): Node
  {
    MethodDefinition("method", Identifier(name), value, isStatic, comments)
  }

  /** `left.property.name` as text: an identifier's name, `undefined` otherwise. */
  function PropertyText(prop: Node): string
  {
    if prop.Identifier? then prop.name else "undefined"
  }

  /** The warning for a prototype member that is neither a function nor a member expression. */
  function UnconvertiblePrototype(name: string, valueType: string): string
  {
    "Unable to convert prototype expression " + name + " of type " + valueType + "."
  }

  /** `replaceFQClass(left.object, ...)`: in `M.prototype.x = v` the `M` becomes the class name. */
  function Requalified(s: Node, className: string): (r: Node)
    requires IsAssignmentStatement(s) && s.expression.left.MemberExpression?
    ensures IsAssignmentStatement(r) && r.expression.right == s.expression.right && r.comments == s.comments
  {
    var left := s.expression.left;
    if left.obj.MemberExpression? then
      var requalified := MemberExpression(MemberExpression(Identifier(className), left.obj.prop), left.prop);
      ExpressionStatement(AssignmentExpression(requalified, s.expression.right), s.comments)
    else s
  }

  /**
   * `convertPrototypeAssignment`: a function value becomes a method of the
   * class carrying the statement's comments, and the statement goes; a
   * member expression value stays, requalified to the class; anything else
   * stays as it is and is reported.
   */
  function ConvertPrototypeAssignment(s: Node, className: string): (r: ClassPass.Step)
    requires IsAssignmentStatement(s) && s.expression.left.MemberExpression?
    ensures r.Threw? <==> s.expression.right.FunctionExpression? && !s.expression.left.prop.Identifier?
    ensures r.Done? ==> |r.h.stays| + |r.h.members| == 1 && r.h.superClass.None? && r.h.hoisted == [] && r.h.renamed == []
    ensures r.Done? && s.expression.right.FunctionExpression? ==>
      r.h.stays == [] && r.h.members[0].MethodDefinition? && r.h.members[0].value == s.expression.right &&
      !r.h.members[0].isStatic && r.h.members[0].key == s.expression.left.prop && r.h.members[0].comments == s.comments
    ensures r.Done? && !s.expression.right.FunctionExpression? ==>
      r.h.members == [] && IsAssignmentStatement(r.h.stays[0]) && r.h.stays[0].expression.right == s.expression.right
    ensures r.Done? ==> (r.h.warnings != [] <==> !s.expression.right.FunctionExpression? && !s.expression.right.MemberExpression?)
  {
    var a := s.expression;
    var prop := a.left.prop;
    if a.right.FunctionExpression? then
      if prop.Identifier? then Done(Handled([], [ClassMethod(prop.name, a.right, false, s.comments)], [], None, [], []))
      else Threw(UndefinedName)
    else if a.right.MemberExpression? then Done(Keep(Requalified(s, className)))
    else Done(Handled([s], [], [UnconvertiblePrototype(PropertyText(prop), TypeName(a.right))], None, [], []))
  }

  /** The matcher of the prototype pass. */
  function PrototypeMatch(moduleName: string): Node -> bool
  {
    (s: Node) => AssignsMemberOf(s, moduleName + ".prototype")
  }

  function PrototypeHandler(moduleName: string, className: string): Node -> ClassPass.Step
  {
    (s: Node) => if AssignsMemberOf(s, moduleName + ".prototype") then ConvertPrototypeAssignment(s, className) else Done(Keep(s))
  }

  /** A prototype member holding a function: the statements the prototype pass must not leave behind. */
  predicate PrototypeFunction(s: Node, moduleName: string)
  {
    AssignsMemberOf(s, moduleName + ".prototype") && s.expression.right.FunctionExpression?
  }

  /**
   * After a completed prototype pass every prototype function has become a
   * method: none is left among the statements, and the statements left plus
   * the methods made number the statements there were.
   */
  lemma PrototypePassMovesFunctions(stmts: seq<Node>, moduleName: string, className: string)
    ensures var r := ForEach(stmts, PrototypeMatch(moduleName), PrototypeHandler(moduleName, className));
      r.error.None? ==>
        (forall t :: t in r.acc.stays ==> !PrototypeFunction(t, moduleName)) &&
        |r.acc.stays| + |r.acc.members| == |stmts|
  {
    var m := PrototypeMatch(moduleName);
    var hd := PrototypeHandler(moduleName, className);
    var Q := (s: Node) => PrototypeFunction(s, moduleName);
    forall s | m(s) && hd(s).Done?
      ensures forall t :: t in hd(s).h.stays ==> !Q(t)
    {
      var r := ConvertPrototypeAssignment(s, className);
      if s.expression.right.FunctionExpression? {
        assert r.h.stays == [];
      } else {
        assert r.h.stays == [r.h.stays[0]];
      }
    }
    PassClears(stmts, m, hd, Q);
    PassConserves(stmts, m, hd);
  }

  /** `convertStaticProperty` of `classes.js`: a function value becomes a static method; anything else is left alone. */
  function ConvertStaticFunction(s: Node): (r: ClassPass.Step)
    requires IsAssignmentStatement(s) && s.expression.left.MemberExpression?
    ensures r.Threw? <==> s.expression.right.FunctionExpression? && !s.expression.left.prop.Identifier?
    ensures r.Done? ==> |r.h.stays| + |r.h.members| == 1 && r.h.warnings == [] && r.h.superClass.None?
    ensures r.Done? ==> r.h.hoisted == [] && r.h.renamed == []
    ensures r.Done? && s.expression.right.FunctionExpression? ==>
      r.h.stays == [] && r.h.members[0].MethodDefinition? && r.h.members[0].isStatic && r.h.members[0].value == s.expression.right &&
      r.h.members[0].comments == s.comments
    ensures !s.expression.right.FunctionExpression? ==> r == Done(Keep(s))
  {
    var a := s.expression;
    if a.right.FunctionExpression? then
      if a.left.prop.Identifier? then Done(Handled([], [ClassMethod(a.left.prop.name, a.right, true, s.comments)], [], None, [], []))
      else Threw(UndefinedName)
    else Done(Keep(s))
  }

  function StaticMatch(moduleName: string): Node -> bool
  {
    (s: Node) => AssignsMemberOf(s, moduleName)
  }

  function StaticHandler(moduleName: string): Node -> ClassPass.Step
  {
    (s: Node) => if AssignsMemberOf(s, moduleName) then ConvertStaticFunction(s) else Done(Keep(s))
  }

  /** A static member holding a function. */
  predicate StaticFunction(s: Node, moduleName: string)
  {
    AssignsMemberOf(s, moduleName) && s.expression.right.FunctionExpression?
  }

  /** After a completed static pass no static function is left among the statements. */
  lemma StaticPassMovesFunctions(stmts: seq<Node>, moduleName: string)
    ensures var r := ForEach(stmts, StaticMatch(moduleName), StaticHandler(moduleName));
      r.error.None? ==>
        (forall t :: t in r.acc.stays ==> !StaticFunction(t, moduleName)) &&
        |r.acc.stays| + |r.acc.members| == |stmts|
  {
    var m := StaticMatch(moduleName);
    var hd := StaticHandler(moduleName);
    var Q := (s: Node) => StaticFunction(s, moduleName);
    forall s | m(s) && hd(s).Done?
      ensures forall t :: t in hd(s).h.stays ==> !Q(t)
    {
      var r := ConvertStaticFunction(s);
      if s.expression.right.FunctionExpression? {
        assert r.h.stays == [];
      } else {
        assert r.h.stays == [s];
      }
    }
    PassClears(stmts, m, hd, Q);
    PassConserves(stmts, m, hd);
  }

  // ------------------------------------------------------- static getters

  /** `new Comment(...).value.replace('\n * @const', '').replace('@return ', '@type ')` */
  function StaticGetComment(text: string): string
  {
    ReplaceFirst(ReplaceFirst(text, "\n * @const", ""), "@return ", "@type ")
  }

  /** `get name() { return name; }` */
  function Getter(name: string, comments: seq<Comment>): Node
  {
    MethodDefinition("get", Identifier(name), FunctionExpression([], BlockStatement([ReturnStatement(Identifier(name))]), []), true, comments)
  }

  /** `set name(value) { name = value; }` */
  function Setter(name: string): Node
  {
    MethodDefinition("set", Identifier(name),
      FunctionExpression([Identifier("value")],
        BlockStatement([ExpressionStatement(AssignmentExpression(Identifier(name), Identifier("value")), [])]), []),
      true, [])
  }

  /**
   * `addStaticGetToClass`: the property becomes a module variable (`const`
   * when the JSDoc marks a constant, else `let`) with the first comment
   * reworded, plus a static getter and, unless constant, a static setter.
   * Building the comment from `undefined` throws, so a statement without
   * comments is refused; the getter carries the comment only when it is
   * not empty.
   */
  function AddStaticGetToClass(s: Node, h: ClassHelpers): (r: ClassPass.Step)
    requires IsAssignmentStatement(s) && s.expression.left.MemberExpression?
    ensures r.Done? <==> s.expression.left.prop.Identifier? && s.comments != [] && s.comments[0].value.Text?
    ensures r.Done? ==>
      var name := s.expression.left.prop.name;
      |r.h.stays| == 1 && r.h.stays[0].VariableDeclaration? &&
      r.h.stays[0].declarations == [VariableDeclarator(Identifier(name), s.expression.right)] &&
      (r.h.stays[0].kind == "const" <==> h.isConst(s)) &&
      |r.h.members| >= 1 && r.h.members[0].MethodDefinition? &&
      r.h.members[0] == Getter(name, r.h.members[0].comments) &&
      (h.isConst(s) ==> |r.h.members| == 1) &&
      (!h.isConst(s) ==> r.h.members == [r.h.members[0], Setter(name)]) &&
      r.h.warnings == [] && r.h.superClass.None? && r.h.hoisted == [] && r.h.renamed == []
  {
    var a := s.expression;
    if !a.left.prop.Identifier? then Threw(UndefinedName)
    else if s.comments == [] then Threw(UndefinedComment)
    else if s.comments[0].value.Undefined? then Threw(ReadOfUndefined)
    else
      var name := a.left.prop.name;
      var isConstant := h.isConst(s);
      var comment := StaticGetComment(s.comments[0].value.s);
      var decl := VariableDeclaration(if isConstant then "const" else "let",
        [VariableDeclarator(Identifier(name), a.right)], [CommentBlock(comment)]);
      var getter := Getter(name, if comment != "" then [CommentBlock(comment)] else []);
      Done(Handled([decl], [getter] + (if isConstant then [] else [Setter(name)]), [], None, [], []))
  }

  /**
   * The getter reads and the setter writes the very variable the
   * declaration introduces, and the declaration and the getter carry the
   * same comment when it is not empty.
   */
  lemma StaticAccessorsShareVariable(s: Node, h: ClassHelpers)
    requires IsAssignmentStatement(s) && s.expression.left.MemberExpression?
    requires AddStaticGetToClass(s, h).Done?
    ensures var r := AddStaticGetToClass(s, h).h;
      var v := r.stays[0].declarations[0].id;
      r.members[0].value.body == BlockStatement([ReturnStatement(v)]) &&
      (|r.members| == 2 ==> r.members[1].value.body.stmts[0].expression.left == v) &&
      (r.members[0].comments == [] || r.members[0].comments == r.stays[0].comments)
  {
  }

  /** Without `@const` and `@return ` in it the comment is kept word for word. */
  lemma StaticGetCommentKept(text: string)
    requires !Contains(text, "\n * @const") && !Contains(text, "@return ")
    ensures StaticGetComment(text) == text
  {
    ReplaceFirstSpec(text, "\n * @const", "");
    ReplaceFirstSpec(text, "@return ", "@type ");
  }

  /** A `@return ` tag becomes `@type ` (the first one, after the first `@const` line is dropped). */
  lemma StaticGetCommentRetyped(text: string)
    requires !Contains(text, "\n * @const") && Contains(text, "@return ")
    ensures Contains(StaticGetComment(text), "@type ")
  {
    ReplaceFirstSpec(text, "\n * @const", "");
    ReplaceFirstSpec(text, "@return ", "@type ");
    var i := IndexOf(text, "@return ");
    var r := StaticGetComment(text);
    assert r == text[..i] + "@type " + text[i + |"@return "|..];
    assert r[i..i + |"@type "|] == "@type ";
    assert OccursAt(r, "@type ", i);
  }

  // ------------------------------------------------- singleton and inherits

  const InstanceName := "instance"

  /** The JSDoc text of `let instance;` */
  function InstanceComment(className: string): string
  {
    Join(["*", " * Global instance.", " * @type {" + className + "|undefined}", " "], "\n")
  }

  function GetInstanceComment(className: string): string
  {
    Join(["*", " * Get the global instance.", " * @return {!" + className + "}", " "], "\n")
  }

  function SetInstanceComment(className: string): string
  {
    Join(["*", " * Set the global instance.", " * @param {" + className + "} value", " "], "\n")
  }

  /** `if (!instance) { instance = new C(); } return instance;` */
  function GetInstanceFn(className: string): Node
  {
    var inst := Identifier(InstanceName);
    FunctionExpression([], BlockStatement([
      IfStatement(UnaryExpression("!", inst),
        BlockStatement([ExpressionStatement(AssignmentExpression(inst, NewExpression(Identifier(className), [])), [])])),
      ReturnStatement(inst)]), [])
  }

  /** `instance = value;` */
  function SetInstanceFn(): Node
  {
    FunctionExpression([Identifier("value")], BlockStatement([
      ExpressionStatement(AssignmentExpression(Identifier(InstanceName), Identifier("value")), [])]), [])
  }

  /**
   * `moveSingletonToClass` of `classes.js`: the call becomes `let instance;`
   * and the class gets a lazily creating static `getInstance` and a static
   * `setInstance`.
   */
  function MoveSingletonToClass(className: string): (r: Handled)
    ensures |r.stays| == 1 && r.stays[0].VariableDeclaration? && r.stays[0].kind == "let"
    ensures r.stays[0].declarations == [VariableDeclarator(Identifier(InstanceName), Absent)]
    ensures |r.members| == 2 && r.members[0].MethodDefinition? && r.members[1].MethodDefinition?
    ensures r.members[0].isStatic && r.members[1].isStatic
    ensures r.members[0].key == Identifier("getInstance") && r.members[1].key == Identifier("setInstance")
  {
    Handled(
      [VariableDeclaration("let", [VariableDeclarator(Identifier(InstanceName), Absent)], [CommentBlock(InstanceComment(className))])],
      [ClassMethod("getInstance", GetInstanceFn(className), true, [CommentBlock(GetInstanceComment(className))]),
       ClassMethod("setInstance", SetInstanceFn(), true, [CommentBlock(SetInstanceComment(className))])],
      [], None, [], [])
  }

  /** The getter creates the class's instance only when the variable is still empty, and returns the variable. */
  lemma GetInstanceLazy(className: string)
    ensures var body := MoveSingletonToClass(className).members[0].value.body.stmts;
      |body| == 2 && body[0].test == UnaryExpression("!", Identifier(InstanceName)) &&
      body[0].consequent.stmts[0].expression.right == NewExpression(Identifier(className), []) &&
      body[0].consequent.stmts[0].expression.left == MoveSingletonToClass(className).stays[0].declarations[0].id &&
      body[1] == ReturnStatement(Identifier(InstanceName))
  {
  }

  function SingletonMatch(moduleName: string): Node -> bool
  {
    (s: Node) => CallsWithModule(s, "goog.addSingletonGetter", moduleName)
  }

  function SingletonHandler(className: string): Node -> ClassPass.Step
  {
    (s: Node) => Done(MoveSingletonToClass(className))
  }

  /** `moveInheritsToClass`: the class extends the second argument (`undefined` when missing) and the call goes. */
  function MoveInheritsToClass(s: Node): (r: Handled)
    requires s.ExpressionStatement? && s.expression.CallExpression?
    ensures r.stays == [] && r.members == [] && r.superClass.Some?
    ensures |s.expression.arguments| >= 2 ==> r.superClass.value == s.expression.arguments[1]
  {
    var args := s.expression.arguments;
    Handled([], [], [], Some(if |args| >= 2 then args[1] else Absent), [], [])
  }

  function InheritsMatch(moduleName: string): Node -> bool
  {
    (s: Node) => CallsWithModule(s, "goog.inherits", moduleName)
  }

  function InheritsHandler(moduleName: string): Node -> ClassPass.Step
  {
    (s: Node) => if CallsWithModule(s, "goog.inherits", moduleName) then Done(MoveInheritsToClass(s)) else Done(Keep(s))
  }

  /** Some statement of the list satisfies `m`. */
  predicate AnyMatched(stmts: seq<Node>, m: Node -> bool)
  {
    exists i :: 0 <= i < |stmts| && m(stmts[i])
  }

  lemma AnyMatchedSnoc(stmts: seq<Node>, m: Node -> bool)
    requires stmts != []
    ensures AnyMatched(stmts, m) <==> AnyMatched(stmts[..|stmts| - 1], m) || m(stmts[|stmts| - 1])
  {
    var init := stmts[..|stmts| - 1];
    if AnyMatched(init, m) {
      var i :| 0 <= i < |init| && m(init[i]);
      assert stmts[i] == init[i];
    }
    if AnyMatched(stmts, m) && !m(stmts[|stmts| - 1]) {
      var i :| 0 <= i < |stmts| && m(stmts[i]);
      assert init[i] == stmts[i];
    }
  }

  /**
   * A completed inherits pass drops every `goog.inherits(M, ...)` statement,
   * and the class extends something exactly when there was one.
   */
  lemma {:induction false} InheritsPassSetsSuper(stmts: seq<Node>, moduleName: string)
    ensures var r := ForEach(stmts, InheritsMatch(moduleName), InheritsHandler(moduleName));
      r.error.None? &&
      (forall t :: t in r.acc.stays ==> !InheritsMatch(moduleName)(t)) &&
      (r.acc.superClass.Some? <==> AnyMatched(stmts, InheritsMatch(moduleName)))
    decreases |stmts|
  {
    var m := InheritsMatch(moduleName);
    var hd := InheritsHandler(moduleName);
    if stmts != [] {
      var init := stmts[..|stmts| - 1];
      var last := stmts[|stmts| - 1];
      InheritsPassSetsSuper(init, moduleName);
      AnyMatchedSnoc(stmts, m);
      var prev := ForEach(init, m, hd);
      var r := ForEach(stmts, m, hd);
      if m(last) {
        var h := MoveInheritsToClass(last);
        assert hd(last) == Done(h);
        assert r == PassResult(Then(prev.acc, h), None);
        assert r.acc.stays == prev.acc.stays;
      } else {
        assert r == PassResult(Then(prev.acc, Keep(last)), None);
        assert r.acc.stays == prev.acc.stays + [last];
      }
    }
  }

  // ------------------------------------------------------------ super calls

  /** `createFindCallFn(moduleName + '.base')` */
  predicate IsBaseCall(n: Node, moduleName: string)
  {
    IsCall(n, moduleName + ".base")
  }

  /**
   * A base call `replaceBaseWithSuper` throws on: no second argument
   * (`args[1].type`), or a literal name that is not a string (the
   * identifier builder refuses it).
   */
  predicate BadBaseCall(n: Node, moduleName: string)
  {
    IsBaseCall(n, moduleName) &&
    (|n.arguments| < 2 || (n.arguments[1].Literal? && !n.arguments[1].v.Str?))
  }

  /** A base call naming its method by a string literal: the ones replaced. */
  predicate ConvertibleBaseCall(n: Node, moduleName: string)
  {
    IsBaseCall(n, moduleName) && |n.arguments| >= 2 && n.arguments[1].Literal? && n.arguments[1].v.Str?
  }

  /** `super.name(args)` */
  function SuperMemberCall(name: string, args: seq<Node>): Node
  {
    CallExpression(MemberExpression(Super, Identifier(name)), args)
  }

  /** `super(args)` for the constructor, `super.name(args)` otherwise. */
  function SuperCall(name: string, args: seq<Node>): (r: Node)
    ensures r.CallExpression? && r.arguments == args
    ensures name == "constructor" <==> r.callee == Super
  {
    if name == "constructor" then CallExpression(Super, args)
    else SuperMemberCall(name, args)
  }

  /** `replaceBaseWithSuper` as a rewrite: `M.base(this, 'm', a...)` becomes the super call with `a...`. */
  function BaseRule(moduleName: string): Node -> Node
  {
    (n: Node) => if ConvertibleBaseCall(n, moduleName) then SuperCall(n.arguments[1].v.s, n.arguments[2..]) else n
  }

  /** No pattern built from a path matches `super` or a member of it. */
  lemma SuperUnmatched(path: string, name: string)
    requires '.' in path
    ensures !MatchesPath(Super, path) && !MatchesPath(MemberExpression(Super, Identifier(name)), path)
  {
    var parts := Split(path, '.');
    JoinSplit(path, '.');
    CreateFindMemberExprObjectShape(parts);
    match Chain(parts)
    case MemberIs(o, _) => assert !Matches(Super, o);
  }

  /** A super call holds no matched node when its arguments hold none and its own parts are not matched. */
  lemma SuperCallClean(c: Node, name: string, args: seq<Node>, P: Node -> bool)
    requires c == SuperCall(name, args) || c == SuperMemberCall(name, args)
    requires !P(c) && !P(Super) && !P(Identifier(name)) && !P(MemberExpression(Super, Identifier(name)))
    requires forall i :: 0 <= i < |args| ==> !AnyNode(args[i], P)
    ensures !AnyNode(c, P)
  {
    NoneAt(Super, P);
    if c.callee != Super {
      ArrayRules.MemberNone(Super, name, P);
    }
    ArrayRules.CallNone(c.callee, args, P);
  }

  /**
   * Completeness of the base pass: no `M.base(this, '<name>', ...)` is left
   * (calls with a non-literal name are the ones left, untouched).
   */
  lemma BaseRuleClears(body: seq<Node>, moduleName: string)
    ensures !AnyIn(RewriteAll(body, BaseRule(moduleName)), (n: Node) => ConvertibleBaseCall(n, moduleName))
  {
    var P := (n: Node) => ConvertibleBaseCall(n, moduleName);
    var f := BaseRule(moduleName);
    forall m | P(m) && NoneBelow(m, P)
      ensures !AnyNode(f(m), P)
    {
      ArrayRules.PartsNone(m, P);
      var name := m.arguments[1].v.s;
      var args := m.arguments[2..];
      assert forall i :: 0 <= i < |args| ==> args[i] == m.arguments[i + 2];
      SuperUnmatched(moduleName + ".base", name);
      SuperCallClean(f(m), name, args, P);
    }
    RewriteAllClears(body, f, P);
  }

  /** Calls naming the method by anything but a literal are left as they are. */
  lemma BaseRuleKeepsOthers(body: seq<Node>, moduleName: string)
    requires !AnyIn(body, (n: Node) => ConvertibleBaseCall(n, moduleName))
    ensures RewriteAll(body, BaseRule(moduleName)) == body
  {
    RewriteAllUnchanged(body, BaseRule(moduleName), (n: Node) => ConvertibleBaseCall(n, moduleName));
  }

  /** `{property: {name: 'superClass_'}}`: the pattern `createFindMemberExprObject('superClass_')` builds. */
  predicate IsSuperclassRef(n: Node)
  {
    Matches(n, PropertyIs("superClass_"))
  }

  /**
   * `C.superClass_.m.call(this, a...)` with `C` naming the module: the
   * shape `replaceSuperclassWithSuper` climbs from the `superClass_`
   * member up to the call (the third member's name is not looked at).
   */
  predicate OwnSuperclassCall(n: Node, h: ClassHelpers, moduleName: string)
  {
    n.CallExpression? && n.callee.MemberExpression? && n.callee.obj.MemberExpression? &&
    n.callee.obj.prop.Identifier? && IsSuperclassRef(n.callee.obj.obj) &&
    h.memberText(n.callee.obj.obj.obj) == moduleName
  }

  /** `super.m(a...)`: the first argument (`this`) dropped; a constructor too is called as `super.constructor(...)`. */
  function SuperclassRule(h: ClassHelpers, moduleName: string): Node -> Node
  {
    (n: Node) => if OwnSuperclassCall(n, h, moduleName)
      then SuperMemberCall(n.callee.obj.prop.name, if |n.arguments| >= 1 then n.arguments[1..] else [])
      else n
  }

  /** A `superClass_` reference to another class: the ones reported. */
  predicate ForeignSuperclassRef(n: Node, h: ClassHelpers, moduleName: string)
  {
    IsSuperclassRef(n) && h.memberText(n.obj) != moduleName
  }

  function ForeignSuperclassWarning(n: Node, h: ClassHelpers): string
    requires n.MemberExpression?
  {
    "Found superClass_ call to another class (" + h.memberText(n.obj) + ")."
  }

  /** The warnings of the superClass_ pass, one per reference to another class, in tree order. */
  function SuperclassWarnings(body: seq<Node>, h: ClassHelpers, moduleName: string): (r: seq<string>)
    ensures |r| == |CollectIn(body, (n: Node) => ForeignSuperclassRef(n, h, moduleName))|
  {
    WarningsFor(CollectIn(body, (n: Node) => ForeignSuperclassRef(n, h, moduleName)), h)
  }

  function WarningsFor(refs: seq<Node>, h: ClassHelpers): (r: seq<string>)
    requires forall i :: 0 <= i < |refs| ==> refs[i].MemberExpression?
    ensures |r| == |refs|
  {
    seq(|refs|, i requires 0 <= i < |refs| => ForeignSuperclassWarning(refs[i], h))
  }

  /** Completeness of the superClass_ pass: no call through the module's own `superClass_` is left. */
  lemma SuperclassRuleClears(body: seq<Node>, h: ClassHelpers, moduleName: string)
    ensures !AnyIn(RewriteAll(body, SuperclassRule(h, moduleName)), (n: Node) => OwnSuperclassCall(n, h, moduleName))
  {
    var P := (n: Node) => OwnSuperclassCall(n, h, moduleName);
    var f := SuperclassRule(h, moduleName);
    forall m | P(m) && NoneBelow(m, P)
      ensures !AnyNode(f(m), P)
    {
      ArrayRules.PartsNone(m, P);
      var name := m.callee.obj.prop.name;
      var args := if |m.arguments| >= 1 then m.arguments[1..] else [];
      assert forall i :: 0 <= i < |args| ==> args[i] == m.arguments[i + 1];
      SuperCallClean(f(m), name, args, P);
    }
    RewriteAllClears(body, f, P);
  }

  /** With no reference to another class's `superClass_` nothing is reported. */
  lemma SuperclassWarningsNone(body: seq<Node>, h: ClassHelpers, moduleName: string)
    ensures SuperclassWarnings(body, h, moduleName) == [] <==> !AnyIn(body, (n: Node) => ForeignSuperclassRef(n, h, moduleName))
  {
    CollectInEmpty(body, (n: Node) => ForeignSuperclassRef(n, h, moduleName));
  }

  /** Calls and `new` expressions: the nodes with an `arguments` list. */
  predicate HasArguments(n: Node)
  {
    n.CallExpression? || n.NewExpression?
  }

  /**
   * What `replaceSuperclassWithSuper` throws at one `superClass_`
   * reference, if anything, read on the tree the search ran over. The
   * method name is read as `path.parent.value.property.name` for every
   * reference, which throws unless the parent has a property; for a
   * reference to the module's own class the name must be an identifier's
   * (the identifier builder refuses `undefined`), and the third ancestor
   * must have arguments to slice.
   */
  function SuperclassError(s: Site, h: ClassHelpers, moduleName: string): Option<string>
    requires IsSuperclassRef(s.node)
  {
    if s.ancestors == [] || !s.ancestors[0].node.MemberExpression? then Some(ReadOfUndefined)
    else if h.memberText(s.node.obj) != moduleName then None
    else if !s.ancestors[0].node.prop.Identifier? then Some(UndefinedName)
    else if |s.ancestors| < 3 || !HasArguments(s.ancestors[2].node) then Some(ReadOfUndefined)
    else None
  }

  /**
   * The `forEach` of the superClass_ pass over the references in tree
   * order: a warning for each reference to another class until the first
   * that throws, and that error.
   */
  function SuperclassRun(sites: seq<Site>, h: ClassHelpers, moduleName: string): (r: (Option<string>, seq<string>))
    requires forall k :: 0 <= k < |sites| ==> IsSuperclassRef(sites[k].node)
    ensures |r.1| <= |sites|
  {
    if sites == [] then (None, [])
    else
      var e := SuperclassError(sites[0], h, moduleName);
      if e.Some? then (e, [])
      else
        var rest := SuperclassRun(sites[1..], h, moduleName);
        var own := if ForeignSuperclassRef(sites[0].node, h, moduleName) then [ForeignSuperclassWarning(sites[0].node, h)] else [];
        (rest.0, own + rest.1)
  }

  /** The run stops exactly at the first reference that throws, with that reference's error. */
  lemma {:induction false} SuperclassRunStops(sites: seq<Site>, h: ClassHelpers, moduleName: string)
    requires forall k :: 0 <= k < |sites| ==> IsSuperclassRef(sites[k].node)
    ensures var r := SuperclassRun(sites, h, moduleName);
      r.0.None? <==> forall k :: 0 <= k < |sites| ==> SuperclassError(sites[k], h, moduleName).None?
    ensures var r := SuperclassRun(sites, h, moduleName);
      r.0.Some? ==>
        exists k :: 0 <= k < |sites| && r.0 == SuperclassError(sites[k], h, moduleName) &&
          forall j :: 0 <= j < k ==> SuperclassError(sites[j], h, moduleName).None?
  {
    if sites != [] && SuperclassError(sites[0], h, moduleName).None? {
      var tail := sites[1..];
      SuperclassRunStops(tail, h, moduleName);
      assert forall k :: 0 <= k < |tail| ==> tail[k] == sites[k + 1];
      if SuperclassRun(tail, h, moduleName).0.Some? {
        var k :| 0 <= k < |tail| && SuperclassRun(tail, h, moduleName).0 == SuperclassError(tail[k], h, moduleName) &&
          forall j :: 0 <= j < k ==> SuperclassError(tail[j], h, moduleName).None?;
        assert forall j :: 0 <= j < k + 1 ==> SuperclassError(sites[j], h, moduleName).None? by {
          forall j | 1 <= j < k + 1
            ensures SuperclassError(sites[j], h, moduleName).None?
          {
            assert sites[j] == tail[j - 1];
          }
        }
      }
    }
  }

  /** A run that does not throw logs one warning per reference to another class, in order. */
  lemma {:induction false} SuperclassRunLogs(sites: seq<Site>, h: ClassHelpers, moduleName: string)
    requires forall k :: 0 <= k < |sites| ==> IsSuperclassRef(sites[k].node)
    ensures var r := SuperclassRun(sites, h, moduleName);
      r.0.None? ==> r.1 == WarningsFor(Filter(NodesOf(sites), (n: Node) => ForeignSuperclassRef(n, h, moduleName)), h)
  {
    if sites != [] && SuperclassError(sites[0], h, moduleName).None? {
      SuperclassRunLogs(sites[1..], h, moduleName);
      WarningsStep(sites, h, moduleName);
    }
  }

  lemma WarningsStep(sites: seq<Site>, h: ClassHelpers, moduleName: string)
    requires sites != [] && forall k :: 0 <= k < |sites| ==> IsSuperclassRef(sites[k].node)
    ensures var F := (n: Node) => ForeignSuperclassRef(n, h, moduleName);
      WarningsFor(Filter(NodesOf(sites), F), h) ==
        (if F(sites[0].node) then [ForeignSuperclassWarning(sites[0].node, h)] else []) +
        WarningsFor(Filter(NodesOf(sites[1..]), F), h)
  {
    var F := (n: Node) => ForeignSuperclassRef(n, h, moduleName);
    NodesOfConcat([sites[0]], sites[1..]);
    assert sites == [sites[0]] + sites[1..];
    FilterConcat([sites[0].node], NodesOf(sites[1..]), F);
    assert Filter([sites[0].node], F) == (if F(sites[0].node) then [sites[0].node] else []) + Filter([], F);
    WarningsForConcat(Filter([sites[0].node], F), Filter(NodesOf(sites[1..]), F), h);
  }

  lemma WarningsForConcat(a: seq<Node>, b: seq<Node>, h: ClassHelpers)
    requires forall i :: 0 <= i < |a| ==> a[i].MemberExpression?
    requires forall i :: 0 <= i < |b| ==> b[i].MemberExpression?
    ensures WarningsFor(a + b, h) == WarningsFor(a, h) + WarningsFor(b, h)
  {
  }

  /** When no reference throws, the pass logs exactly the warnings of `SuperclassWarnings`. */
  lemma SuperclassRunWarnings(body: seq<Node>, h: ClassHelpers, moduleName: string)
    ensures var run := SuperclassRun(SitesOf(body, 0, IsSuperclassRef), h, moduleName);
      run.0.None? ==> run.1 == SuperclassWarnings(body, h, moduleName)
  {
    var F := (n: Node) => ForeignSuperclassRef(n, h, moduleName);
    SuperclassRunLogs(SitesOf(body, 0, IsSuperclassRef), h, moduleName);
    SitesAreCollected(body, 0, IsSuperclassRef);
    CollectInFilter(body, IsSuperclassRef, F, F);
  }

  // ------------------------------------------------ fully qualified names

  /** A reference to the fully qualified name: `createFindMemberExprObject(moduleName)` matches it. */
  function RefersTo(moduleName: string): Node -> bool
  {
    (n: Node) => MatchesPath(n, moduleName)
  }

  /** `createFindMemberExprObject(moduleName)` replaced by the class name. */
  function QualifiedRule(moduleName: string, name: string): Node -> Node
  {
    (n: Node) => if MatchesPath(n, moduleName) then Identifier(name) else n
  }

  /** No pattern built by `createFindMemberExprObject` matches a bare identifier. */
  lemma IdentifierUnmatched(path: string, name: string)
    ensures !MatchesPath(Identifier(name), path)
  {
    CreateFindMemberExprObjectShape(Split(path, '.'));
  }

  /** Completeness of a qualified-name replacement: no reference to the path is left. */
  lemma QualifiedRuleClears(body: seq<Node>, moduleName: string, name: string)
    ensures !AnyIn(RewriteAll(body, QualifiedRule(moduleName, name)), RefersTo(moduleName))
  {
    var P := RefersTo(moduleName);
    forall m | P(m) && NoneBelow(m, P)
      ensures !AnyNode(QualifiedRule(moduleName, name)(m), P)
    {
      IdentifierUnmatched(moduleName, name);
    }
    RewriteAllClears(body, QualifiedRule(moduleName, name), P);
  }

  // -------------------------------------------------------- convertClass

  /** The statement `convertClass` is handed: an assignment to a member `...M` at the top level. */
  predicate ClassStatement(s: Node)
  {
    IsAssignmentStatement(s) && s.expression.left.MemberExpression? && s.expression.left.prop.Identifier?
  }

  /** `Controller` for an Angular controller, the assigned property's name otherwise. */
  function ClassName(s: Node, h: ClassHelpers): string
    requires ClassStatement(s)
  {
    if h.isControllerClass(s) then ControllerName else s.expression.left.prop.name
  }

  /** The class and constructor comments built from the JSDoc text of a constructor. */
  function SplitComments(text: string, isController: bool): (string, string)
  {
    var body := CC.CommentBlockText(CC.ClassLines(text));
    (if isController then CC.ReplaceTrailingSpaces(body, CC.UnrestrictedTail) else body,
     CC.CommentBlockText([CC.ConstructorLine] + CC.CtorLines(text)))
  }

  /** Building the declaration does not throw: the value is a function, and the last comment has text. */
  predicate Declarable(s: Node)
    requires ClassStatement(s)
  {
    s.expression.right.FunctionExpression? && (s.comments == [] || s.comments[|s.comments| - 1].value.Text?)
  }

  /** A declaration, or the error building it raised. */
  datatype Declared = Declared(node: Node) | Refused(error: string)

  /** The constructor method: the old function's parameters and body. */
  function Constructor(fn: Node, comments: seq<Comment>): Node
    requires fn.FunctionExpression?
  {
    MethodDefinition("constructor", Identifier("constructor"), FunctionExpression(fn.params, fn.body, []), false, comments)
  }

  /**
   * The class declaration that replaces the statement: named by `ClassName`,
   * holding only the constructor, and carrying the class part of the last
   * comment while the constructor carries the constructor part.
   */
  function ClassDeclarationFor(s: Node, h: ClassHelpers, uid: nat): (r: Declared)
    requires ClassStatement(s)
    ensures r.Declared? <==> Declarable(s)
    ensures r.Declared? ==>
      r.node.ClassDeclaration? && r.node.uid == uid && r.node.id == Identifier(ClassName(s, h)) &&
      r.node.superClass == Absent && |r.node.members| == 1 && r.node.members[0].MethodDefinition? &&
      r.node.members[0].kind == "constructor" && r.node.members[0].value.FunctionExpression? &&
      r.node.members[0].value.params == s.expression.right.params && r.node.members[0].value.body == s.expression.right.body
    ensures r.Declared? && s.comments != [] ==>
      var text := s.comments[|s.comments| - 1].value.s;
      r.node.comments == [CommentBlock(SplitComments(text, h.isControllerClass(s)).0)] &&
      r.node.members[0].comments == [CommentBlock(SplitComments(text, h.isControllerClass(s)).1)]
  {
    var fn := s.expression.right;
    if !fn.FunctionExpression? then Refused(UndefinedParams)
    else if s.comments == [] then
      Declared(ClassDeclaration(uid, Identifier(ClassName(s, h)), Absent, [Constructor(fn, [])], []))
    else
      var last := s.comments[|s.comments| - 1];
      if last.value.Undefined? then Refused(ReadOfUndefined)
      else
        var (body, ctor) := SplitComments(last.value.s, h.isControllerClass(s));
        Declared(ClassDeclaration(uid, Identifier(ClassName(s, h)), Absent, [Constructor(fn, [CommentBlock(ctor)])], [CommentBlock(body)]))
  }

  /** The constructor's comment opens with ` * Constructor.`, and a controller's class comment ends with `@unrestricted`. */
  lemma ClassCommentsShape(text: string, isController: bool)
    ensures StartsWith(SplitComments(text, isController).1, "*\n" + CC.ConstructorLine)
    ensures isController ==> EndsWith(SplitComments(text, isController).0, "\n" + CC.UnrestrictedTail)
  {
    CC.CtorBlockStarts(CC.CtorLines(text));
    if isController {
      CC.UnrestrictedBlock(CC.ClassLines(text));
    }
  }

  /** What a conversion did: its outcome, the new statements (when it passed) and the warnings it logged. */
  datatype Conversion = Conversion(outcome: Outcome, body: seq<Node>, warnings: seq<string>)

  /**
   * The last passes, which cannot throw: singleton getters (when
   * configured), `goog.inherits`, then every reference to the fully
   * qualified name replaced by the class name, so that none is left.
   */
  function FinishClass(body: seq<Node>, moduleName: string, className: string, uid: nat, replaceSingletons: bool): (r: seq<Node>)
    ensures !AnyIn(r, RefersTo(moduleName))
  {
    var singletons := if replaceSingletons then Settle(ForEach(body, SingletonMatch(moduleName), SingletonHandler(className)).acc, uid) else body;
    var inherited := Settle(ForEach(singletons, InheritsMatch(moduleName), InheritsHandler(moduleName)).acc, uid);
    QualifiedRuleClears(inherited, moduleName, className);
    RewriteAll(inherited, QualifiedRule(moduleName, className))
  }

  /** The static pass and what follows it; `warnings` are those logged so far. */
  function AfterSupers(body: seq<Node>, moduleName: string, className: string, uid: nat, replaceSingletons: bool,
                       original: seq<Node>, warnings: seq<string>): (c: Conversion)
    ensures c.outcome.Fail? ==> c.body == original
    ensures c.outcome.Pass? ==> !AnyIn(c.body, RefersTo(moduleName))
  {
    var p := ForEach(body, StaticMatch(moduleName), StaticHandler(moduleName));
    if p.error.Some? then Conversion(Fail(p.error.value), original, warnings + p.acc.warnings)
    else Conversion(Pass, FinishClass(Settle(p.acc, uid), moduleName, className, uid, replaceSingletons), warnings + p.acc.warnings)
  }

  /** The base and superClass_ passes and what follows them. */
  function AfterPrototypes(body: seq<Node>, h: ClassHelpers, moduleName: string, className: string, uid: nat, replaceSingletons: bool,
                           original: seq<Node>, warnings: seq<string>): (c: Conversion)
    ensures c.outcome.Fail? ==> c.body == original
    ensures c.outcome.Pass? ==> !AnyIn(c.body, RefersTo(moduleName))
  {
    if AnyIn(body, (n: Node) => BadBaseCall(n, moduleName)) then Conversion(Fail(ReadOfUndefined), original, warnings)
    else
      var based := RewriteAll(body, BaseRule(moduleName));
      var run := SuperclassRun(SitesOf(based, 0, IsSuperclassRef), h, moduleName);
      if run.0.Some? then Conversion(Fail(run.0.value), original, warnings + run.1)
      else AfterSupers(RewriteAll(based, SuperclassRule(h, moduleName)), moduleName, className, uid, replaceSingletons, original, warnings + run.1)
  }

  /** The prototype pass and what follows it, on the statements holding the new class. */
  function AfterDeclaration(body: seq<Node>, h: ClassHelpers, moduleName: string, className: string, uid: nat, replaceSingletons: bool,
                            original: seq<Node>): (c: Conversion)
    ensures c.outcome.Fail? ==> c.body == original
    ensures c.outcome.Pass? ==> !AnyIn(c.body, RefersTo(moduleName))
  {
    var p := ForEach(body, PrototypeMatch(moduleName), PrototypeHandler(moduleName, className));
    if p.error.Some? then Conversion(Fail(p.error.value), original, p.acc.warnings)
    else AfterPrototypes(Settle(p.acc, uid), h, moduleName, className, uid, replaceSingletons, original, p.acc.warnings)
  }

  /**
   * `convertClass`: the class declaration replaces the statement, then the
   * passes run in the source's order: prototype members, `M.base` calls,
   * `superClass_` calls, static members, singleton getters (when configured),
   * `goog.inherits`, and finally the fully qualified name becomes the class
   * name. A pass that throws stops the conversion and the file is left as
   * it was; the warnings logged until then stay logged.
   */
  function ClassConversion(body: seq<Node>, h: ClassHelpers, at: nat, moduleName: string, uid: nat, replaceSingletons: bool): (c: Conversion)
    requires at < |body| && ClassStatement(body[at])
    ensures c.outcome.Fail? ==> c.body == body
    ensures c.outcome.Pass? ==> !AnyIn(c.body, RefersTo(moduleName))
  {
    var decl := ClassDeclarationFor(body[at], h, uid);
    if decl.Refused? then Conversion(Fail(decl.error), body, [])
    else AfterDeclaration(body[at := decl.node], h, moduleName, ClassName(body[at], h), uid, replaceSingletons, body)
  }

  /** The declaration `convertClass` builds, with the comment split of `splitCommentsForClass`. */
  method DeclareClass(s: Node, h: ClassHelpers, uid: nat) returns (d: Declared)
    requires ClassStatement(s)
    ensures d == ClassDeclarationFor(s, h, uid)
  {
    var className := if h.isControllerClass(s) then ControllerName else s.expression.left.prop.name;
    var fn := s.expression.right;
    if !fn.FunctionExpression? {
      return Refused(UndefinedParams);
    }
    var classComments: seq<Comment> := [];
    var ctorComments: seq<Comment> := [];
    if s.comments != [] {
      var last := s.comments[|s.comments| - 1];
      if last.value.Undefined? {
        return Refused(ReadOfUndefined);
      }
      var classBody, ctorBody := CC.SplitCommentsForClass(last.value.s);
      if h.isControllerClass(s) {
        classBody := CC.ReplaceTrailingSpaces(classBody, CC.UnrestrictedTail);
      }
      classComments := [CommentBlock(classBody)];
      ctorComments := [CommentBlock(ctorBody)];
    }
    d := Declared(ClassDeclaration(uid, Identifier(className), Absent, [Constructor(fn, ctorComments)], classComments));
  }

  /** The passes of `convertClass` after the declaration, one after the other, stopping at the first that throws. */
  method RunClassPasses(body: seq<Node>, h: ClassHelpers, moduleName: string, className: string, uid: nat, replaceSingletons: bool,
                        original: seq<Node>) returns (c: Conversion)
    ensures c == AfterDeclaration(body, h, moduleName, className, uid, replaceSingletons, original)
  {
    var p1 := RunPass(body, PrototypeMatch(moduleName), PrototypeHandler(moduleName, className));
    if p1.error.Some? {
      return Conversion(Fail(p1.error.value), original, p1.acc.warnings);
    }
    var b := Settle(p1.acc, uid);
    if AnyIn(b, (n: Node) => BadBaseCall(n, moduleName)) {
      return Conversion(Fail(ReadOfUndefined), original, p1.acc.warnings);
    }
    b := RewriteAll(b, BaseRule(moduleName));
    var error, found := ReplaceSuperclassRefs(SitesOf(b, 0, IsSuperclassRef), h, moduleName);
    if error.Some? {
      return Conversion(Fail(error.value), original, p1.acc.warnings + found);
    }
    b := RewriteAll(b, SuperclassRule(h, moduleName));
    c := RunLaterPasses(b, moduleName, className, uid, replaceSingletons, original, p1.acc.warnings + found);
  }

  /** The `forEach` of the superClass_ pass: the warnings it logs, and the error that stops it. */
  method ReplaceSuperclassRefs(sites: seq<Site>, h: ClassHelpers, moduleName: string) returns (error: Option<string>, found: seq<string>)
    requires forall k :: 0 <= k < |sites| ==> IsSuperclassRef(sites[k].node)
    ensures (error, found) == SuperclassRun(sites, h, moduleName)
  {
    error, found := None, [];
    var i := 0;
    assert sites[0..] == sites;
    assert found + SuperclassRun(sites, h, moduleName).1 == SuperclassRun(sites, h, moduleName).1;
    while i < |sites|
      invariant 0 <= i <= |sites|
      invariant SuperclassRun(sites, h, moduleName) ==
        (SuperclassRun(sites[i..], h, moduleName).0, found + SuperclassRun(sites[i..], h, moduleName).1)
    {
      var s := sites[i];
      SuperclassRunUnfold(sites, i, h, moduleName);
      var e := SuperclassError(s, h, moduleName);
      if e.Some? {
        assert found + [] == found;
        return e, found;
      }
      ghost var rest := SuperclassRun(sites[i + 1..], h, moduleName).1;
      var own := if ForeignSuperclassRef(s.node, h, moduleName) then [ForeignSuperclassWarning(s.node, h)] else [];
      Assoc(found, own, rest);
      found := found + own;
      i := i + 1;
    }
    assert sites[i..] == [];
    assert found + [] == found;
  }

  lemma SuperclassRunUnfold(sites: seq<Site>, i: nat, h: ClassHelpers, moduleName: string)
    requires i < |sites| && forall k :: 0 <= k < |sites| ==> IsSuperclassRef(sites[k].node)
    ensures var s := sites[i];
      var rest := SuperclassRun(sites[i + 1..], h, moduleName);
      SuperclassRun(sites[i..], h, moduleName) ==
        if SuperclassError(s, h, moduleName).Some? then (SuperclassError(s, h, moduleName), [])
        else (rest.0, (if ForeignSuperclassRef(s.node, h, moduleName) then [ForeignSuperclassWarning(s.node, h)] else []) + rest.1)
  {
    assert sites[i..][0] == sites[i];
    assert sites[i..][1..] == sites[i + 1..];
  }

  /** The static, singleton, inherits and qualified-name passes. */
  method RunLaterPasses(body: seq<Node>, moduleName: string, className: string, uid: nat, replaceSingletons: bool,
                        original: seq<Node>, warnings: seq<string>) returns (c: Conversion)
    ensures c == AfterSupers(body, moduleName, className, uid, replaceSingletons, original, warnings)
  {
    var p4 := RunPass(body, StaticMatch(moduleName), StaticHandler(moduleName));
    if p4.error.Some? {
      return Conversion(Fail(p4.error.value), original, warnings + p4.acc.warnings);
    }
    var b := Settle(p4.acc, uid);
    if replaceSingletons {
      var p5 := RunPass(b, SingletonMatch(moduleName), SingletonHandler(className));
      b := Settle(p5.acc, uid);
    }
    var p6 := RunPass(b, InheritsMatch(moduleName), InheritsHandler(moduleName));
    b := Settle(p6.acc, uid);
    c := Conversion(Pass, RewriteAll(b, QualifiedRule(moduleName, className)), warnings + p4.acc.warnings);
  }

  /** The whole conversion on a statement list; `declared` tells whether the declaration was built. */
  method ConvertStatements(body: seq<Node>, h: ClassHelpers, at: nat, moduleName: string, uid: nat, replaceSingletons: bool)
    returns (c: Conversion, declared: bool)
    requires at < |body| && ClassStatement(body[at])
    ensures c == ClassConversion(body, h, at, moduleName, uid, replaceSingletons)
    ensures declared <==> Declarable(body[at])
  {
    var d := DeclareClass(body[at], h, uid);
    if d.Refused? {
      return Conversion(Fail(d.error), body, []), false;
    }
    c := RunClassPasses(body[at := d.node], h, moduleName, ClassName(body[at], h), uid, replaceSingletons, body);
    declared := true;
  }

  /**
   * `convertClass(root, path, moduleName)` on the statement at `at`. The
   * class is registered under the module name before the passes run, so it
   * stays registered even when a later pass throws. `uid` is the identity
   * of the new class node.
   */
  method ConvertClass(p: Program, reg: Registry, log: Log, h: ClassHelpers, at: nat, moduleName: string, uid: nat, replaceSingletons: bool)
    returns (r: Outcome, exported: Option<ExportKeys>)
    requires at < |p.body| && ClassStatement(p.body[at])
    modifies p, reg, log
    ensures var c := ClassConversion(old(p.body), h, at, moduleName, uid, replaceSingletons);
      r == c.outcome && p.body == c.body && log.warnings == old(log.warnings) + c.warnings && log.infos == old(log.infos)
    ensures Declarable(old(p.body)[at]) ==>
      reg.classes == old(reg.classes)[moduleName := ClassRef(uid, ClassName(old(p.body)[at], h))]
    ensures !Declarable(old(p.body)[at]) ==> reg.classes == old(reg.classes)
    ensures r.Pass? ==> exported == Some(Single(ClassName(old(p.body)[at], h)))
    ensures r.Fail? ==> exported == None
  {
    var original := p.body;
    var className := ClassName(original[at], h);
    var c, declared := ConvertStatements(original, h, at, moduleName, uid, replaceSingletons);
    if declared {
      reg.RegisterClassNode(moduleName, ClassRef(uid, className));
    }
    log.warnings := log.warnings + c.warnings;
    p.body := c.body;
    r := c.outcome;
    exported := if r.Pass? then Some(Single(className)) else None;
  }
}
