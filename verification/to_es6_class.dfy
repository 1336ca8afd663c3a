/**
 * `src/transforms/es6/toes6class.js`: a file of `goog.provide` code becomes
 * a `goog.module` whose Closure classes are ES6 classes. Each provide call
 * becomes a `goog.module` call (the first one also gets the legacy
 * namespace statement), and each constructor assigned to a provided name
 * is converted: prototype functions become methods, static members become
 * static methods, module constants or static getters, the singleton getter
 * becomes a module `instance` constant and `goog.inherits` becomes the
 * class's `extends`; the class is then exported.
 *
 * `isPrivate`, `isConst` (through `addStaticGetToClass`), `isClosureClass`
 * and `addLegacyNamespace` are not part of this model: their answers are
 * supplied by the caller.
 */
module ToEs6Class {
  import opened Wrappers
  import opened Strings
  import opened Seqs
  import opened Ast
  import opened AstUtils
  import opened Logger
  import opened ClassRegistry
  import opened ClassPass
  import opened Classes
  import Es6
  import Goog
  import CC = ClassComments

  /** The answers of the helpers whose code is not part of this model. */
  datatype Es6Helpers = Es6Helpers(
    /** `isPrivate` and `isConst` (the latter used by `addStaticGetToClass`). */
    classes: ClassHelpers,
    /** `isClosureClass(statement)`: the statement's JSDoc marks a constructor. */
    isClosureClass: Node -> bool,
    /** `addLegacyNamespace(statement)`: the statements left in place of the first `goog.module` statement. */
    legacyNamespace: Node -> seq<Node>)

  /**
   * How `convertClass` reads the result of `splitCommentsForClass`: as
   * written it destructures `classComment` and `ctorComment`, names the
   * function does not return; corrected it uses the returned `body` and
   * `ctor`.
   */
  datatype Reading = AsWritten | Corrected

  // ------------------------------------------------ private static to const

  /** A JSDoc line `* @private` or `* @const`, surrounding white space aside. */
  predicate IsTagLine(line: string)
  {
    Trim(line) == "* @private" || Trim(line) == "* @const"
  }

  function KeptLines(lines: seq<string>): seq<string>
  {
    Filter(lines, (l: string) => !IsTagLine(l))
  }

  /** The comment of the module constant: the JSDoc text without its `@private` and `@const` lines. */
  function PrivateConstComment(text: string): string
  {
    Join(KeptLines(Split(text, '\n')), "\n")
  }

  lemma {:induction false} FilterAll<T>(xs: seq<T>, P: T -> bool)
    requires forall i :: 0 <= i < |xs| ==> P(xs[i])
    ensures Filter(xs, P) == xs
  {
    if xs != [] {
      FilterAll(xs[1..], P);
      HeadTail(xs);
    }
  }

  /**
   * The lines of the new comment are exactly the lines of the old one that
   * are not `* @private` or `* @const`, in their order; so none of those
   * tags is left.
   */
  lemma PrivateConstCommentLines(text: string)
    requires KeptLines(Split(text, '\n')) != []
    ensures Split(PrivateConstComment(text), '\n') == KeptLines(Split(text, '\n'))
    ensures forall k :: 0 <= k < |Split(PrivateConstComment(text), '\n')| ==> !IsTagLine(Split(PrivateConstComment(text), '\n')[k])
  {
    var lines := Split(text, '\n');
    var kept := KeptLines(lines);
    forall k | 0 <= k < |kept|
      ensures '\n' !in kept[k]
    {
      FilterMember(lines, (l: string) => !IsTagLine(l), kept[k]);
    }
    SplitJoin(kept, '\n');
  }

  /** A comment without those tags is kept word for word. */
  lemma PrivateConstCommentKept(text: string)
    requires forall k :: 0 <= k < |Split(text, '\n')| ==> !IsTagLine(Split(text, '\n')[k])
    ensures PrivateConstComment(text) == text
  {
    FilterAll(Split(text, '\n'), (l: string) => !IsTagLine(l));
    JoinSplit(text, '\n');
  }

  /** `const name = value;` with its comment. */
  function ConstDeclaration(name: string, value: Node, comment: string): Node
  {
    VariableDeclaration("const", [VariableDeclarator(Identifier(name), value)], [CommentBlock(comment)])
  }

  /**
   * `convertPrivateClassPropertyToConst`: the static property becomes a
   * module constant carrying the statement's last comment without its
   * `@private`/`@const` lines. With a class registered for the module the
   * constant moves before that class and the statement goes; without one
   * it takes the statement's place. Either way `module.prop` references
   * become `prop`. A property that is not an identifier, or a statement
   * without a readable last comment, makes it throw.
   */
  function ConvertPrivateClassPropertyToConst(s: Node, registered: Option<ClassRef>): (r: ClassPass.Step)
    requires IsAssignmentStatement(s) && s.expression.left.MemberExpression?
    ensures r.Done? <==> s.expression.left.prop.Identifier? && s.comments != [] && s.comments[|s.comments| - 1].value.Text?
    ensures r.Done? ==>
      var name := s.expression.left.prop.name;
      var decl := ConstDeclaration(name, s.expression.right, PrivateConstComment(s.comments[|s.comments| - 1].value.s));
      r.h.members == [] && r.h.warnings == [] && r.h.superClass.None? && r.h.renamed == [name] &&
      (registered.Some? ==> r.h.stays == [] && r.h.hoisted == [decl]) &&
      (registered.None? ==> r.h.stays == [decl] && r.h.hoisted == [])
  {
    var prop := s.expression.left.prop;
    if !prop.Identifier? then Threw(UndefinedName)
    else if s.comments == [] || s.comments[|s.comments| - 1].value.Undefined? then Threw(ReadOfUndefined)
    else
      var decl := ConstDeclaration(prop.name, s.expression.right, PrivateConstComment(s.comments[|s.comments| - 1].value.s));
      if registered.Some? then Done(Handled([], [], [], None, [decl], [prop.name]))
      else Done(Handled([decl], [], [], None, [], [prop.name]))
  }

  /**
   * `convertStaticProperty` of `toes6class.js`: a function becomes a static
   * method carrying the statement's comments; a private value becomes a
   * module constant; any other value becomes a static getter (and setter).
   */
  function ConvertStaticProperty(s: Node, h: Es6Helpers, registered: Option<ClassRef>): (r: ClassPass.Step)
    requires IsAssignmentStatement(s) && s.expression.left.MemberExpression?
    ensures r.Done? ==> r.h.warnings == [] && r.h.superClass.None?
    ensures r.Done? && s.expression.right.FunctionExpression? ==>
      s.expression.left.prop.Identifier? && r.h.stays == [] && r.h.hoisted == [] && r.h.renamed == [] &&
      r.h.members == [ClassMethod(s.expression.left.prop.name, s.expression.right, true, s.comments)]
    ensures r.Done? && !s.expression.right.FunctionExpression? && h.classes.isPrivate(s) ==>
      s.expression.left.prop.Identifier? && r.h.members == [] && r.h.renamed == [s.expression.left.prop.name] &&
      |r.h.stays + r.h.hoisted| == 1 && (r.h.stays + r.h.hoisted)[0].VariableDeclaration? &&
      (r.h.stays + r.h.hoisted)[0].kind == "const"
    ensures r.Done? && !s.expression.right.FunctionExpression? && !h.classes.isPrivate(s) ==>
      s.expression.left.prop.Identifier? &&
      r.h.hoisted == [] && r.h.renamed == [] && |r.h.stays| == 1 && r.h.stays[0].VariableDeclaration? &&
      |r.h.members| >= 1 && r.h.members[0].MethodDefinition? && r.h.members[0] == Getter(s.expression.left.prop.name, r.h.members[0].comments)
    ensures r.Done? ==> forall t :: t in r.h.stays ==> t.VariableDeclaration?
  {
    if s.expression.right.FunctionExpression? then ConvertStaticFunction(s)
    else if h.classes.isPrivate(s) then ConvertPrivateClassPropertyToConst(s, registered)
    else AddStaticGetToClass(s, h.classes)
  }

  function StaticPropertyHandler(h: Es6Helpers, moduleName: string, registered: Option<ClassRef>): Node -> ClassPass.Step
  {
    (s: Node) => if AssignsMemberOf(s, moduleName) then ConvertStaticProperty(s, h, registered) else Done(Keep(s))
  }

  /**
   * After a completed static pass no assignment to a static member of the
   * module is left among the statements: every one was turned into a
   * method, a constant or a variable behind a getter.
   */
  lemma StaticPassConvertsAll(stmts: seq<Node>, h: Es6Helpers, moduleName: string, registered: Option<ClassRef>)
    ensures var r := ForEach(stmts, StaticMatch(moduleName), StaticPropertyHandler(h, moduleName, registered));
      r.error.None? ==> forall t :: t in r.acc.stays ==> !AssignsMemberOf(t, moduleName)
  {
    var m := StaticMatch(moduleName);
    var hd := StaticPropertyHandler(h, moduleName, registered);
    PassClears(stmts, m, hd, m);
  }

  // ---------------------------------------------------------- prototypes

  /** The warning for a prototype member whose value is not a function. */
  function NotAFunctionWarning(moduleName: string, property: string): string
  {
    "In " + moduleName + ": Unable to move property " + property + ". Value is not a function."
  }

  /**
   * `movePrototypeToClass`: a function becomes an instance method carrying
   * the statement's comments and the statement goes; anything else stays
   * where it is and is reported.
   */
  function MovePrototypeToClass(s: Node, moduleName: string): (r: ClassPass.Step)
    requires IsAssignmentStatement(s) && s.expression.left.MemberExpression?
    ensures r.Threw? <==> s.expression.right.FunctionExpression? && !s.expression.left.prop.Identifier?
    ensures r.Done? ==> r.h.superClass.None? && r.h.hoisted == [] && r.h.renamed == []
    ensures r.Done? && s.expression.right.FunctionExpression? ==>
      r.h.stays == [] && r.h.warnings == [] &&
      r.h.members == [ClassMethod(s.expression.left.prop.name, s.expression.right, false, s.comments)]
    ensures !s.expression.right.FunctionExpression? ==>
      r == Done(Handled([s], [], [NotAFunctionWarning(moduleName, PropertyText(s.expression.left.prop))], None, [], []))
  {
    var a := s.expression;
    if a.right.FunctionExpression? then
      if a.left.prop.Identifier? then Done(Handled([], [ClassMethod(a.left.prop.name, a.right, false, s.comments)], [], None, [], []))
      else Threw(UndefinedName)
    else Done(Handled([s], [], [NotAFunctionWarning(moduleName, PropertyText(a.left.prop))], None, [], []))
  }

  function MovePrototypeHandler(moduleName: string): Node -> ClassPass.Step
  {
    (s: Node) => if AssignsMemberOf(s, moduleName + ".prototype") then MovePrototypeToClass(s, moduleName) else Done(Keep(s))
  }

  /** A prototype member holding something other than a function. */
  predicate PrototypeValue(s: Node, moduleName: string)
  {
    AssignsMemberOf(s, moduleName + ".prototype") && !s.expression.right.FunctionExpression?
  }

  /**
   * A completed prototype pass keeps exactly the statements that are not
   * prototype functions, in order; it makes one method per prototype
   * function and logs one warning per other prototype member.
   */
  lemma {:induction false} PrototypePassSorts(stmts: seq<Node>, moduleName: string)
    ensures var r := ForEach(stmts, PrototypeMatch(moduleName), MovePrototypeHandler(moduleName));
      r.error.None? ==>
        r.acc.stays == Filter(stmts, (s: Node) => !PrototypeFunction(s, moduleName)) &&
        |r.acc.members| == |Filter(stmts, (s: Node) => PrototypeFunction(s, moduleName))| &&
        |r.acc.warnings| == |Filter(stmts, (s: Node) => PrototypeValue(s, moduleName))|
    decreases |stmts|
  {
    var m := PrototypeMatch(moduleName);
    var hd := MovePrototypeHandler(moduleName);
    if stmts != [] {
      var init := stmts[..|stmts| - 1];
      var s := stmts[|stmts| - 1];
      PrototypePassSorts(init, moduleName);
      LastSplit(stmts, |stmts| - 1);
      FilterAppend(init, s, (s: Node) => !PrototypeFunction(s, moduleName));
      FilterAppend(init, s, (s: Node) => PrototypeFunction(s, moduleName));
      FilterAppend(init, s, (s: Node) => PrototypeValue(s, moduleName));
    }
  }

  // ------------------------------------------------------------ singleton

  function InstanceDeclarationComment(className: string): string
  {
    Join(["*", " * Global " + className + " instance.", " * @type {" + className + "}", " "], "\n")
  }

  function GetInstanceComment(className: string): string
  {
    Join(["*", " * Get the global instance.", " * @return {" + className + "}", " "], "\n")
  }

  /**
   * `moveSingletonToClass` of `toes6class.js`: the call becomes
   * `const instance = new C();` and the class gets a static `getInstance`
   * returning it; there is no setter.
   */
  function MoveSingletonToClass(className: string): (r: Handled)
    ensures |r.stays| == 1 && r.stays[0].VariableDeclaration? && r.stays[0].kind == "const"
    ensures r.stays[0].declarations == [VariableDeclarator(Identifier(InstanceName), NewExpression(Identifier(className), []))]
    ensures |r.members| == 1 && r.members[0].MethodDefinition? && r.members[0].isStatic
    ensures r.members[0].key == Identifier("getInstance")
    ensures r.members[0].value.FunctionExpression? && r.members[0].value.body == BlockStatement([ReturnStatement(r.stays[0].declarations[0].id)])
    ensures r.warnings == [] && r.superClass.None? && r.hoisted == [] && r.renamed == []
  {
    var instance := Identifier(InstanceName);
    Handled(
      [VariableDeclaration("const", [VariableDeclarator(instance, NewExpression(Identifier(className), []))],
        [CommentBlock(InstanceDeclarationComment(className))])],
      [ClassMethod("getInstance", FunctionExpression([], BlockStatement([ReturnStatement(instance)]), []), true,
        [CommentBlock(GetInstanceComment(className))])],
      [], None, [], [])
  }

  function Es6SingletonHandler(className: string): Node -> ClassPass.Step
  {
    (s: Node) => Done(MoveSingletonToClass(className))
  }

  /** Every `goog.addSingletonGetter(M)` statement becomes an `instance` constant and a getter. */
  lemma SingletonPassReplacesAll(stmts: seq<Node>, moduleName: string, className: string)
    ensures var r := ForEach(stmts, SingletonMatch(moduleName), Es6SingletonHandler(className));
      r.error.None? &&
      (forall t :: t in r.acc.stays ==> !SingletonMatch(moduleName)(t)) &&
      |r.acc.stays| + |r.acc.members| == |stmts| + |Filter(stmts, SingletonMatch(moduleName))|
  {
    SingletonPassCounts(stmts, moduleName, className);
    var m := SingletonMatch(moduleName);
    var hd := Es6SingletonHandler(className);
    PassClears(stmts, m, hd, m);
  }

  lemma {:induction false} SingletonPassCounts(stmts: seq<Node>, moduleName: string, className: string)
    ensures var r := ForEach(stmts, SingletonMatch(moduleName), Es6SingletonHandler(className));
      r.error.None? && |r.acc.stays| + |r.acc.members| == |stmts| + |Filter(stmts, SingletonMatch(moduleName))|
    decreases |stmts|
  {
    if stmts != [] {
      var init := stmts[..|stmts| - 1];
      var s := stmts[|stmts| - 1];
      SingletonPassCounts(init, moduleName, className);
      LastSplit(stmts, |stmts| - 1);
      FilterAppend(init, s, SingletonMatch(moduleName));
    }
  }

  // -------------------------------------------------------------- exports

  /** The value `addExports` assigns: the name itself, or a shorthand object of the names in order. */
  function ExportsValue(keys: Es6.ExportKeys): (r: Node)
    ensures keys.Single? ==> r == Identifier(keys.name)
    ensures keys.Names? ==> r.ObjectExpression? && Es6.KeyNames(r.properties) == keys.names
  {
    match keys
    case Single(k) => Identifier(k)
    case Names(ks) =>
      Es6.KeyNamesOfShorthands(ks);
      ObjectExpression(Es6.ShorthandProperties(ks))
  }

  /**
   * `addExports` of `toes6class.js`: always appends one `exports = ...`
   * statement and touches nothing else.
   */
  method AppendExports(p: Program, keys: Es6.ExportKeys)
    modifies p
    ensures p.body == old(p.body) + [Es6.ExportsStatement(ExportsValue(keys))]
  {
    var value: Node;
    if keys.Single? {
      value := Identifier(keys.name);
    } else {
      value := ObjectExpression(Es6.ShorthandProperties(keys.names));
    }
    p.body := p.body + [Es6.ExportsStatement(value)];
  }

  /**
   * Against the merging `addExports` of `es6.js`: the two agree on a
   * single name, and on a list of names when the file has no
   * `exports = {...}` yet; otherwise this one appends a second object.
   */
  lemma AppendExportsAgrees(body: seq<Node>, keys: Es6.ExportKeys)
    requires keys.Names? ==> Goog.FirstIndex(body, Es6.IsExportsObject).None?
    ensures Es6.WithExports(body, keys) == body + [Es6.ExportsStatement(ExportsValue(keys))]
  {
  }

  // ------------------------------------------------------------ the class

  /** An assignment of a function to a member `...name` at the top level: what `convertClass` is handed. */
  predicate ConstructorAssignment(s: Node)
  {
    ClassStatement(s) && s.expression.right.FunctionExpression?
  }

  /** The driver's search `{left: createFindMemberExprObject(M), right: {type: 'FunctionExpression'}}` on a top-level statement. */
  predicate ClassPattern(s: Node, moduleName: string)
  {
    IsAssignmentStatement(s) && MatchesPath(s.expression.left, moduleName) && s.expression.right.FunctionExpression?
  }

  /** Whatever the path, a statement the search finds is one `convertClass` can be handed. */
  lemma ClassPatternShape(s: Node, moduleName: string)
    requires ClassPattern(s, moduleName)
    ensures ConstructorAssignment(s)
  {
    var parts := Split(moduleName, '.');
    CreateFindMemberExprObjectShape(parts);
    if |parts| >= 2 {
      assert Chain(parts).MemberIs?;
    }
  }

  /** Building the declaration does not throw: no comment, or a last comment with text read the corrected way. */
  predicate CommentsReadable(s: Node, rd: Reading)
  {
    s.ExpressionStatement? && (s.comments == [] || (rd.Corrected? && s.comments[|s.comments| - 1].value.Text?))
  }

  /** The statement holding the new class: the class replaces the assignment inside the statement. */
  function ClassStatementFor(s: Node, uid: nat, ctorComments: seq<Comment>, comments: seq<Comment>): (r: Node)
    requires ConstructorAssignment(s)
    ensures r.ExpressionStatement? && IsClass(r.expression, uid) && HoldsClass(r, uid)
  {
    ExpressionStatement(
      ClassDeclaration(uid, Identifier(s.expression.left.prop.name), Absent, [Constructor(s.expression.right, ctorComments)], []),
      comments)
  }

  /**
   * `convertClass` up to the registration: the statement now holds a class
   * named by the assigned property, with only a constructor taking the old
   * function's parameters and body. A statement with comments has its last
   * comment popped and split: as written the split's result is read under
   * names it does not have and `commentBlock(undefined)` throws; corrected,
   * the class part goes back on the statement and the constructor part on
   * the constructor.
   */
  function DeclarationFor(s: Node, uid: nat, rd: Reading): (r: Declared)
    requires ConstructorAssignment(s)
    ensures r.Declared? <==> CommentsReadable(s, rd)
    ensures r.Declared? ==>
      r.node.ExpressionStatement? && IsClass(r.node.expression, uid) &&
      r.node.expression.id == Identifier(s.expression.left.prop.name) && r.node.expression.superClass == Absent &&
      |r.node.expression.members| == 1 && r.node.expression.members[0].MethodDefinition? &&
      r.node.expression.members[0] == Constructor(s.expression.right, r.node.expression.members[0].comments)
    ensures r.Declared? && s.comments == [] ==> r.node.comments == [] && r.node.expression.members[0].comments == []
    ensures r.Declared? && s.comments != [] ==>
      var text := s.comments[|s.comments| - 1].value.s;
      r.node.comments == s.comments[..|s.comments| - 1] + [CommentBlock(SplitComments(text, false).0)] &&
      r.node.expression.members[0].comments == [CommentBlock(SplitComments(text, false).1)]
    ensures rd.AsWritten? && s.comments != [] && s.comments[|s.comments| - 1].value.Text? ==> r == Refused(UndefinedComment)
  {
    if s.comments == [] then Declared(ClassStatementFor(s, uid, [], []))
    else
      var last := s.comments[|s.comments| - 1];
      if last.value.Undefined? then Refused(ReadOfUndefined)
      else if rd.AsWritten? then Refused(UndefinedComment)
      else
        var (body, ctor) := SplitComments(last.value.s, false);
        Declared(ClassStatementFor(s, uid, [CommentBlock(ctor)], s.comments[..|s.comments| - 1] + [CommentBlock(body)]))
  }

  /**
   * A constructor with a JSDoc comment: `convertClass` as written throws,
   * the corrected reading declares the class with the comment split in two,
   * the constructor's part opening with ` * Constructor.`.
   */
  lemma CommentedConstructor(s: Node, uid: nat)
    requires ConstructorAssignment(s) && s.comments != [] && s.comments[|s.comments| - 1].value.Text?
    ensures DeclarationFor(s, uid, AsWritten) == Refused(UndefinedComment)
    ensures var d := DeclarationFor(s, uid, Corrected);
      d.Declared? && |d.node.expression.members[0].comments| == 1 &&
      StartsWith(d.node.expression.members[0].comments[0].value.s, "*\n" + CC.ConstructorLine)
  {
    ClassCommentsShape(s.comments[|s.comments| - 1].value.s, false);
  }

  /** The passes after the static members: singleton getters, `goog.inherits`, then the class's export appended. */
  function FinishEs6Class(body: seq<Node>, moduleName: string, className: string, uid: nat): (r: seq<Node>)
    ensures |r| >= 1 && r[|r| - 1] == Es6.ExportsStatement(Identifier(className))
  {
    var singletons := ForEach(body, SingletonMatch(moduleName), Es6SingletonHandler(className)).acc;
    var inherits := ForEach(Settle(singletons, uid), InheritsMatch(moduleName), InheritsHandler(moduleName)).acc;
    Settle(inherits, uid) + [Es6.ExportsStatement(Identifier(className))]
  }

  /** A statement holding the class still holds it once settled. */
  lemma SettleHolds(h: Handled, uid: nat, i: nat)
    requires i < |h.stays| && HoldsClass(h.stays[i], uid)
    ensures HoldsClass(Settle(h, uid)[i], uid)
  {
  }

  /** Settling keeps out the statements the inherits pass removed. */
  lemma SettleKeepsOut(hd: Handled, uid: nat, moduleName: string)
    requires forall t :: t in hd.stays ==> !InheritsMatch(moduleName)(t)
    ensures forall i :: 0 <= i < |Settle(hd, uid)| ==> !InheritsMatch(moduleName)(Settle(hd, uid)[i])
  {
    forall i | 0 <= i < |Settle(hd, uid)|
      ensures !InheritsMatch(moduleName)(Settle(hd, uid)[i])
    {
      SettleSpec(hd, uid, i);
      if HoldsClass(hd.stays[i], uid) {
        SettleHolds(hd, uid, i);
      } else {
        assert hd.stays[i] in hd.stays;
      }
    }
  }

  /** After the last passes no `goog.inherits(M, ...)` statement is left: each became the class's `extends`. */
  lemma FinishLeavesNoInherits(body: seq<Node>, moduleName: string, className: string, uid: nat)
    ensures var r := FinishEs6Class(body, moduleName, className, uid);
      forall i :: 0 <= i < |r| ==> !InheritsMatch(moduleName)(r[i])
  {
    var singletons := ForEach(body, SingletonMatch(moduleName), Es6SingletonHandler(className)).acc;
    var stmts := Settle(singletons, uid);
    var inherits := ForEach(stmts, InheritsMatch(moduleName), InheritsHandler(moduleName)).acc;
    InheritsPassSetsSuper(stmts, moduleName);
    SettleKeepsOut(inherits, uid, moduleName);
    var settled := Settle(inherits, uid);
    var exports := Es6.ExportsStatement(Identifier(className));
    assert FinishEs6Class(body, moduleName, className, uid) == settled + [exports];
    assert !InheritsMatch(moduleName)(exports);
  }

  /** The static pass and what follows it; `warnings` are those the prototype pass logged. */
  function Es6StaticStage(body: seq<Node>, h: Es6Helpers, moduleName: string, className: string, uid: nat,
                          original: seq<Node>, warnings: seq<string>): (c: Conversion)
    ensures c.warnings == warnings
    ensures c.outcome.Fail? ==> c.body == original
    ensures c.outcome.Pass? ==> |c.body| >= 1 && c.body[|c.body| - 1] == Es6.ExportsStatement(Identifier(className))
  {
    var p := ForEach(body, StaticMatch(moduleName), StaticPropertyHandler(h, moduleName, Some(ClassRef(uid, className))));
    if p.error.Some? then Conversion(Fail(p.error.value), original, warnings)
    else Conversion(Pass, FinishEs6Class(Apply(p.acc, uid, className, moduleName), moduleName, className, uid), warnings)
  }

  /** The prototype pass and what follows it, on the statements holding the new class. */
  function Es6ClassPasses(body: seq<Node>, h: Es6Helpers, moduleName: string, className: string, uid: nat,
                          original: seq<Node>): (c: Conversion)
    ensures c.outcome.Fail? ==> c.body == original
    ensures c.outcome.Pass? ==> |c.body| >= 1 && c.body[|c.body| - 1] == Es6.ExportsStatement(Identifier(className))
  {
    var p := ForEach(body, PrototypeMatch(moduleName), MovePrototypeHandler(moduleName));
    if p.error.Some? then Conversion(Fail(p.error.value), original, p.acc.warnings)
    else Es6StaticStage(Settle(p.acc, uid), h, moduleName, className, uid, original, p.acc.warnings)
  }

  /** The name the class declared by `s` gets. */
  function DeclaredName(s: Node): string
    requires ConstructorAssignment(s)
  {
    s.expression.left.prop.name
  }

  /**
   * `convertClass` of `toes6class.js` on the statement at `at`: the class
   * declaration replaces the assignment, then prototype members, static
   * members, singleton getters and `goog.inherits` are folded into it, and
   * `exports = <class name>` is appended to the file. When anything throws
   * the file is left as it was; warnings logged until then stay logged.
   */
  function Es6ClassConversion(body: seq<Node>, h: Es6Helpers, at: nat, moduleName: string, uid: nat, rd: Reading): (c: Conversion)
    requires at < |body| && ConstructorAssignment(body[at])
    ensures c.outcome.Fail? ==> c.body == body
  {
    AfterDeclaration(body, h, at, moduleName, uid, DeclarationFor(body[at], uid, rd))
  }

  /** The passes once the declaration is built (or the refusal to build it); a result that does not throw ends in the class's export. */
  function AfterDeclaration(body: seq<Node>, h: Es6Helpers, at: nat, moduleName: string, uid: nat, d: Declared): (c: Conversion)
    requires at < |body| && ConstructorAssignment(body[at])
    ensures c.outcome.Fail? ==> c.body == body
    ensures c.outcome.Pass? ==> |c.body| >= 1 && c.body[|c.body| - 1] == Es6.ExportsStatement(Identifier(DeclaredName(body[at])))
  {
    if d.Refused? then Conversion(Fail(d.error), body, [])
    else Es6ClassPasses(body[at := d.node], h, moduleName, DeclaredName(body[at]), uid, body)
  }

  /** A conversion only gets past the declaration when the statement's comments can be read. */
  lemma ConversionNeedsComments(body: seq<Node>, h: Es6Helpers, at: nat, moduleName: string, uid: nat, rd: Reading)
    requires at < |body| && ConstructorAssignment(body[at])
    ensures Es6ClassConversion(body, h, at, moduleName, uid, rd).outcome.Pass? ==> CommentsReadable(body[at], rd)
  {
    var d := DeclarationFor(body[at], uid, rd);
    assert d.Refused? ==> Es6ClassConversion(body, h, at, moduleName, uid, rd).outcome.Fail?;
  }

  // ----------------------------------------------------------- the driver

  /**
   * The state of a run over one file: its statements, the process-wide
   * class registry, every warning logged, the identity the next class
   * node gets, and the error that stopped the run.
   */
  datatype Run = Run(body: seq<Node>, classes: map<string, ClassRef>, warnings: seq<string>, nextUid: nat, error: Option<string>)

  /**
   * One `convertClass` on the statement at `at`. The class is registered
   * under the module name as soon as it is declared, before any pass that
   * may throw.
   */
  /** The registry once `registerClass` has run, which it does exactly when the declaration was built. */
  function Registered(classes: map<string, ClassRef>, s: Node, uid: nat, moduleName: string, rd: Reading): (r: map<string, ClassRef>)
    requires ConstructorAssignment(s)
    ensures CommentsReadable(s, rd) ==> r == classes[moduleName := ClassRef(uid, DeclaredName(s))]
    ensures !CommentsReadable(s, rd) ==> r == classes
    ensures forall k :: k != moduleName && k in classes ==> k in r && r[k] == classes[k]
    ensures forall k :: k in r ==> k in classes || k == moduleName
  {
    if CommentsReadable(s, rd) then classes[moduleName := ClassRef(uid, DeclaredName(s))] else classes
  }

  /**
   * One `convertClass` on the statement at `at`. The class is registered
   * under the module name as soon as it is declared, before any pass that
   * may throw.
   */
  function ConvertAt(run: Run, h: Es6Helpers, at: nat, moduleName: string, rd: Reading): (r: Run)
    requires at < |run.body| && ConstructorAssignment(run.body[at])
    ensures r.nextUid == run.nextUid + 1 && run.warnings <= r.warnings
    ensures r.error.Some? ==> r.body == run.body
    ensures r.error.None? ==>
      r.classes == run.classes[moduleName := ClassRef(run.nextUid, DeclaredName(run.body[at]))]
    ensures forall k :: k != moduleName && k in run.classes ==> k in r.classes && r.classes[k] == run.classes[k]
    ensures forall k :: k in r.classes ==> k in run.classes || k == moduleName
  {
    var c := Es6ClassConversion(run.body, h, at, moduleName, run.nextUid, rd);
    ConversionNeedsComments(run.body, h, at, moduleName, run.nextUid, rd);
    Run(c.body, Registered(run.classes, run.body[at], run.nextUid, moduleName, rd), run.warnings + c.warnings,
        run.nextUid + 1, if c.outcome.Fail? then Some(c.outcome.error) else None)
  }

  /** A conversion that does not throw leaves the file ending in `exports = <class name>`. */
  lemma ConvertAtExports(run: Run, h: Es6Helpers, at: nat, moduleName: string, rd: Reading)
    requires at < |run.body| && ConstructorAssignment(run.body[at])
    ensures var r := ConvertAt(run, h, at, moduleName, rd);
      r.error.None? ==> |r.body| >= 1 && r.body[|r.body| - 1] == Es6.ExportsStatement(Identifier(DeclaredName(run.body[at])))
  {
    var c := Es6ClassConversion(run.body, h, at, moduleName, run.nextUid, rd);
    assert ConvertAt(run, h, at, moduleName, rd).body == c.body;
  }

  /** The driver's search for one module: `isClosureClass` decides which of the found statements are converted. */
  function Convertible(moduleName: string, h: Es6Helpers): Node -> bool
  {
    (s: Node) => ClassPattern(s, moduleName) && h.isClosureClass(s)
  }

  /**
   * The `forEach` over the statements `found` by the search for one module:
   * one round per found statement, each converting the first statement
   * still to convert, until one conversion throws.
   */
  function Rounds(run: Run, h: Es6Helpers, moduleName: string, rd: Reading, found: seq<Node>): (r: Run)
    ensures run.warnings <= r.warnings && run.nextUid <= r.nextUid
    ensures run.error.Some? ==> r == run
    ensures forall k :: k != moduleName && k in run.classes ==> k in r.classes && r.classes[k] == run.classes[k]
    ensures forall k :: k in r.classes ==> k in run.classes || k == moduleName
    decreases |found|
  {
    if found == [] || run.error.Some? then run
    else
      var i := Goog.FirstIndex(run.body, Convertible(moduleName, h));
      if i.None? then run
      else
        ClassPatternShape(run.body[i.value], moduleName);
        Rounds(ConvertAt(run, h, i.value, moduleName, rd), h, moduleName, rd, found[1..])
  }

  /** One round: the first convertible statement is converted, or the rounds stop when there is none. */
  lemma RoundStep(run: Run, h: Es6Helpers, moduleName: string, rd: Reading, found: seq<Node>, at: Option<nat>)
    requires found != [] && run.error.None? && at == Goog.FirstIndex(run.body, Convertible(moduleName, h))
    ensures at.None? ==> Rounds(run, h, moduleName, rd, found) == run
    ensures at.Some? ==>
      at.value < |run.body| && ConstructorAssignment(run.body[at.value]) &&
      Rounds(run, h, moduleName, rd, found) == Rounds(ConvertAt(run, h, at.value, moduleName, rd), h, moduleName, rd, found[1..])
  {
    if at.Some? {
      ClassPatternShape(run.body[at.value], moduleName);
    }
  }

  /** After a conversion threw, no further round changes anything. */
  lemma RoundsStopped(run: Run, h: Es6Helpers, moduleName: string, rd: Reading, found: seq<Node>)
    requires run.error.Some?
    ensures Rounds(run, h, moduleName, rd, found) == run
  {
  }

  /** The message of `createFindMemberExprObject` given a module name that is not a string. */
  function PathError(arg: Node): string
  {
    if arg.Literal? && arg.v.NullValue? then "TypeError: Cannot read properties of null"
    else if arg.Literal? then "TypeError: memberPath.split is not a function"
    else ReadOfUndefined
  }

  /** A constructor assignment the search finds for the module. */
  function Found(moduleName: string): Node -> bool
  {
    (s: Node) => ClassPattern(s, moduleName)
  }

  /**
   * `modules.forEach(...)`: for each provided name in order, the search
   * and the conversions it leads to; a name that is not a string throws.
   */
  function ConvertModules(run: Run, modules: seq<Node>, h: Es6Helpers, rd: Reading): (r: Run)
    ensures run.warnings <= r.warnings && run.nextUid <= r.nextUid
    ensures run.error.Some? ==> r == run
    decreases |modules|
  {
    if modules == [] || run.error.Some? then run
    else
      var arg := modules[0];
      var next := if arg.Literal? && arg.v.Str? then Rounds(run, h, arg.v.s, rd, Filter(run.body, Found(arg.v.s)))
        else Run(run.body, run.classes, run.warnings, run.nextUid, Some(PathError(arg)));
      ConvertModules(next, modules[1..], h, rd)
  }

  // ---------------------------------------------------------- provides

  /** `goog.module(args)` as `createCall('goog.module', args)` builds it. */
  function ModuleCall(args: seq<Node>): Node
  {
    CallExpression(MemberExpression(Identifier("goog"), Identifier("module")), args)
  }

  /** The provide statement with its call replaced by `goog.module` with the same arguments. */
  function ModuleStatement(s: Node): (r: Node)
    requires Goog.IsProvideStatement(s)
    ensures r.ExpressionStatement? && r.expression.CallExpression? && r.expression.arguments == s.expression.arguments
    ensures r.comments == s.comments
  {
    ExpressionStatement(ModuleCall(s.expression.arguments), s.comments)
  }

  /** What the provide pass built: the new statements, the provided names' argument nodes in order, and its error. */
  datatype Provided = Provided(body: seq<Node>, modules: seq<Node>, error: Option<string>)

  /**
   * The pass over the provide calls: each records its first argument and
   * becomes a `goog.module` call; only the first (`!idx`) gets the legacy
   * namespace statement. A call without arguments throws.
   */
  function ProvidePass(stmts: seq<Node>, legacy: Node -> seq<Node>): (r: Provided)
    decreases |stmts|
  {
    if stmts == [] then Provided([], [], None)
    else
      var prev := ProvidePass(stmts[..|stmts| - 1], legacy);
      var s := stmts[|stmts| - 1];
      if prev.error.Some? then prev
      else if !Goog.IsProvideStatement(s) then Provided(prev.body + [s], prev.modules, None)
      else if s.expression.arguments == [] then Provided(prev.body, prev.modules, Some(ReadOfUndefined))
      else
        var m := ModuleStatement(s);
        Provided(prev.body + (if prev.modules == [] then legacy(m) else [m]), prev.modules + [s.expression.arguments[0]], None)
  }

  /** A provide call with an argument, or any other statement. */
  predicate Named(s: Node)
  {
    Goog.IsProvideStatement(s) ==> s.expression.arguments != []
  }

  /** The statements with every provide replaced by its `goog.module` statement. */
  function AsModules(stmts: seq<Node>): (r: seq<Node>)
    ensures |r| == |stmts|
    decreases |stmts|
  {
    if stmts == [] then []
    else
      var s := stmts[|stmts| - 1];
      AsModules(stmts[..|stmts| - 1]) + [if Goog.IsProvideStatement(s) then ModuleStatement(s) else s]
  }

  /** The first arguments of the provide calls, in order. */
  function ProvidedNames(stmts: seq<Node>): seq<Node>
    requires forall i :: 0 <= i < |stmts| ==> Named(stmts[i])
    decreases |stmts|
  {
    if stmts == [] then []
    else
      var s := stmts[|stmts| - 1];
      assert Named(s);
      ProvidedNames(stmts[..|stmts| - 1]) + (if Goog.IsProvideStatement(s) then [s.expression.arguments[0]] else [])
  }

  /** Without a provide call the pass changes nothing and finds no module. */
  lemma {:induction false} ProvideNone(stmts: seq<Node>, legacy: Node -> seq<Node>)
    requires forall i :: 0 <= i < |stmts| ==> !Goog.IsProvideStatement(stmts[i])
    ensures ProvidePass(stmts, legacy) == Provided(stmts, [], None)
    decreases |stmts|
  {
    if stmts != [] {
      ProvideNone(stmts[..|stmts| - 1], legacy);
      LastSplit(stmts, |stmts| - 1);
    }
  }

  /**
   * Only the first provide gets the legacy namespace: with `s` the first
   * provide call, the statements before it are kept, `s` becomes its
   * `goog.module` statement with the legacy namespace, every later provide
   * becomes a plain `goog.module` statement, and the module names are the
   * provides' first arguments in order.
   */
  lemma {:induction false} ProvideFirstOnly(pre: seq<Node>, s: Node, post: seq<Node>, legacy: Node -> seq<Node>)
    requires forall i :: 0 <= i < |pre| ==> !Goog.IsProvideStatement(pre[i])
    requires Goog.IsProvideStatement(s) && s.expression.arguments != []
    requires forall i :: 0 <= i < |post| ==> Named(post[i])
    ensures ProvidePass(pre + [s] + post, legacy) ==
      Provided(pre + legacy(ModuleStatement(s)) + AsModules(post), [s.expression.arguments[0]] + ProvidedNames(post), None)
    decreases |post|
  {
    if post == [] {
      ProvideNone(pre, legacy);
      assert (pre + [s])[..|pre|] == pre;
      assert pre + [s] + post == pre + [s];
    } else {
      var init := post[..|post| - 1];
      var x := post[|post| - 1];
      ProvideFirstOnly(pre, s, init, legacy);
      LastSplit(post, |post| - 1);
      var xs := pre + [s] + post;
      assert xs == (pre + [s] + init) + [x];
      ProvideLater(pre + [s] + init, x, legacy);
      var y := if Goog.IsProvideStatement(x) then ModuleStatement(x) else x;
      Assoc(pre + legacy(ModuleStatement(s)), AsModules(init), [y]);
      assert AsModules(post) == AsModules(init) + [y];
    }
  }

  /** A statement after the first provide: a provide becomes its plain `goog.module` statement, anything else stays. */
  lemma ProvideLater(stmts: seq<Node>, x: Node, legacy: Node -> seq<Node>)
    requires ProvidePass(stmts, legacy).error.None? && ProvidePass(stmts, legacy).modules != [] && Named(x)
    ensures var prev := ProvidePass(stmts, legacy);
      ProvidePass(stmts + [x], legacy) ==
        if Goog.IsProvideStatement(x) then Provided(prev.body + [ModuleStatement(x)], prev.modules + [x.expression.arguments[0]], None)
        else Provided(prev.body + [x], prev.modules, None)
  {
    assert (stmts + [x])[..|stmts|] == stmts;
  }

  /**
   * The run over a file: the provide pass, then the conversions module by
   * module. When anything throws, the file is left as it was; the registry
   * and the log keep what was done before.
   */
  function Transform(body: seq<Node>, classes: map<string, ClassRef>, warnings: seq<string>, h: Es6Helpers, rd: Reading, firstUid: nat): (r: Run)
    ensures r.error.Some? ==> r.body == body
    ensures warnings <= r.warnings
  {
    var pp := ProvidePass(body, h.legacyNamespace);
    if pp.error.Some? then Run(body, classes, warnings, firstUid, pp.error)
    else
      var r := ConvertModules(Run(pp.body, classes, warnings, firstUid, None), pp.modules, h, rd);
      if r.error.Some? then Run(body, r.classes, r.warnings, r.nextUid, r.error) else r
  }

  /** A file without provide calls is left alone: nothing is converted, registered or logged. */
  lemma TransformWithoutProvides(body: seq<Node>, classes: map<string, ClassRef>, warnings: seq<string>, h: Es6Helpers, rd: Reading, firstUid: nat)
    requires forall i :: 0 <= i < |body| ==> !Goog.IsProvideStatement(body[i])
    ensures Transform(body, classes, warnings, h, rd, firstUid) == Run(body, classes, warnings, firstUid, None)
  {
    ProvideNone(body, h.legacyNamespace);
  }

  // ----------------------------------------------------------- the passes run on the tree

  /** The prototype and static passes and what follows them, run one statement at a time. */
  method RunEs6Passes(body: seq<Node>, h: Es6Helpers, moduleName: string, className: string, uid: nat, original: seq<Node>)
    returns (c: Conversion)
    ensures c == Es6ClassPasses(body, h, moduleName, className, uid, original)
  {
    var p1 := RunPass(body, PrototypeMatch(moduleName), MovePrototypeHandler(moduleName));
    if p1.error.Some? {
      return Conversion(Fail(p1.error.value), original, p1.acc.warnings);
    }
    var b := Settle(p1.acc, uid);
    var p2 := RunPass(b, StaticMatch(moduleName), StaticPropertyHandler(h, moduleName, Some(ClassRef(uid, className))));
    if p2.error.Some? {
      return Conversion(Fail(p2.error.value), original, p1.acc.warnings);
    }
    b := Apply(p2.acc, uid, className, moduleName);
    var p3 := RunPass(b, SingletonMatch(moduleName), Es6SingletonHandler(className));
    b := Settle(p3.acc, uid);
    var p4 := RunPass(b, InheritsMatch(moduleName), InheritsHandler(moduleName));
    b := Settle(p4.acc, uid);
    c := Conversion(Pass, b + [Es6.ExportsStatement(Identifier(className))], p1.acc.warnings);
  }

  /** The whole conversion on a statement list; `declared` tells whether the declaration was built. */
  method Es6Statements(body: seq<Node>, h: Es6Helpers, at: nat, moduleName: string, uid: nat, rd: Reading)
    returns (c: Conversion, declared: bool)
    requires at < |body| && ConstructorAssignment(body[at])
    ensures c == Es6ClassConversion(body, h, at, moduleName, uid, rd)
    ensures declared <==> CommentsReadable(body[at], rd)
  {
    var d := DeclarationFor(body[at], uid, rd);
    if d.Refused? {
      return Conversion(Fail(d.error), body, []), false;
    }
    c := RunEs6Passes(body[at := d.node], h, moduleName, DeclaredName(body[at]), uid, body);
    declared := true;
  }

  /**
   * `convertClass(path, moduleName)` on the statement at `at`: the class
   * is registered before the passes run, the warnings they log are logged,
   * and `uid` is the identity of the new class node.
   */
  method ConvertClass(p: Program, reg: Registry, log: Log, h: Es6Helpers, at: nat, moduleName: string, uid: nat, rd: Reading)
    returns (r: Outcome)
    requires at < |p.body| && ConstructorAssignment(p.body[at])
    modifies p, reg, log
    ensures var c := Es6ClassConversion(old(p.body), h, at, moduleName, uid, rd);
      r == c.outcome && p.body == c.body && log.warnings == old(log.warnings) + c.warnings && log.infos == old(log.infos)
    ensures reg.classes == Registered(old(reg.classes), old(p.body)[at], uid, moduleName, rd)
  {
    var original := p.body;
    var c, declared := Es6Statements(original, h, at, moduleName, uid, rd);
    if declared {
      reg.RegisterClassNode(moduleName, ClassRef(uid, DeclaredName(original[at])));
    }
    log.warnings := log.warnings + c.warnings;
    p.body := c.body;
    r := c.outcome;
  }

  /**
   * The `forEach` over the constructor assignments found for one module:
   * each one `isClosureClass` accepts is converted, until a conversion
   * throws. `uid` is the identity the next class node gets.
   */
  method ConvertModule(p: Program, reg: Registry, log: Log, h: Es6Helpers, moduleName: string, rd: Reading, firstUid: nat)
    returns (error: Option<string>, uid: nat)
    modifies p, reg, log
    ensures Run(p.body, reg.classes, log.warnings, uid, error) ==
      Rounds(Run(old(p.body), old(reg.classes), old(log.warnings), firstUid, None), h, moduleName, rd, Filter(old(p.body), Found(moduleName)))
    ensures log.infos == old(log.infos)
  {
    var found := Filter(p.body, Found(moduleName));
    ghost var cur := Run(p.body, reg.classes, log.warnings, firstUid, None);
    ghost var goal := Rounds(cur, h, moduleName, rd, found);
    uid := firstUid;
    error := None;
    while found != []
      invariant cur == Run(p.body, reg.classes, log.warnings, uid, None)
      invariant Rounds(cur, h, moduleName, rd, found) == goal
      invariant log.infos == old(log.infos)
      decreases |found|
    {
      var i := Goog.FirstIndex(p.body, Convertible(moduleName, h));
      RoundStep(cur, h, moduleName, rd, found, i);
      if i.None? {
        return;
      }
      cur := ConvertAt(cur, h, i.value, moduleName, rd);
      var r := ConvertClass(p, reg, log, h, i.value, moduleName, uid, rd);
      uid := uid + 1;
      found := found[1..];
      if r.Fail? {
        error := Some(r.error);
        RoundsStopped(cur, h, moduleName, rd, found);
        return;
      }
    }
  }

  /**
   * The provide pass run over the statements: on success the provided
   * names are returned; when a provide call has no argument the statements
   * are left as they were.
   */
  method ReplaceProvides(p: Program, legacy: Node -> seq<Node>) returns (r: Outcome, modules: seq<Node>)
    modifies p
    ensures var pp := ProvidePass(old(p.body), legacy);
      (r.Pass? <==> pp.error.None?) && (r.Fail? ==> r.error == pp.error.value) &&
      modules == pp.modules && p.body == (if r.Pass? then pp.body else old(p.body))
  {
    var body := p.body;
    var acc: seq<Node> := [];
    modules := [];
    for i := 0 to |body|
      invariant ProvidePass(body[..i], legacy) == Provided(acc, modules, None)
    {
      var s := body[i];
      assert body[..i + 1][..i] == body[..i];
      if Goog.IsProvideStatement(s) {
        var args := s.expression.arguments;
        if args == [] {
          PassStops(body, i + 1, legacy);
          return Fail(ReadOfUndefined), modules;
        }
        var m := ModuleStatement(s);
        acc := acc + (if modules == [] then legacy(m) else [m]);
        modules := modules + [args[0]];
      } else {
        acc := acc + [s];
      }
    }
    assert body[..|body|] == body;
    p.body := acc;
    r := Pass;
  }

  /** Once the provide pass has thrown on a prefix, it has thrown on the whole. */
  lemma {:induction false} PassStops(body: seq<Node>, i: nat, legacy: Node -> seq<Node>)
    requires i <= |body| && ProvidePass(body[..i], legacy).error.Some?
    ensures ProvidePass(body, legacy) == ProvidePass(body[..i], legacy)
    decreases |body| - i
  {
    if i < |body| {
      assert body[..i + 1][..i] == body[..i];
      PassStops(body, i + 1, legacy);
    } else {
      assert body[..i] == body;
    }
  }

  /**
   * The transform over one file. The file is left as it was when anything
   * throws; the registry and the log keep what was done before. `firstUid`
   * is the identity of the first class node created, and `uid` the one
   * after the last.
   */
  method ConvertFile(p: Program, reg: Registry, log: Log, h: Es6Helpers, rd: Reading, firstUid: nat)
    returns (r: Outcome, uid: nat)
    modifies p, reg, log
    ensures var t := Transform(old(p.body), old(reg.classes), old(log.warnings), h, rd, firstUid);
      p.body == t.body && reg.classes == t.classes && log.warnings == t.warnings && uid == t.nextUid &&
      (r.Fail? <==> t.error.Some?) && (r.Fail? ==> r.error == t.error.value)
    ensures log.infos == old(log.infos)
  {
    var original := p.body;
    var r0, modules := ReplaceProvides(p, h.legacyNamespace);
    uid := firstUid;
    if r0.Fail? {
      return r0, uid;
    }
    var error;
    error, uid := ConvertEach(p, reg, log, h, rd, modules, firstUid);
    if error.Some? {
      p.body := original;
      return Fail(error.value), uid;
    }
    r := Pass;
  }

  /** The `forEach` over the provided module names: each is converted in turn until one throws or is not a string. */
  method ConvertEach(p: Program, reg: Registry, log: Log, h: Es6Helpers, rd: Reading, modules: seq<Node>, firstUid: nat)
    returns (error: Option<string>, uid: nat)
    modifies p, reg, log
    ensures Run(p.body, reg.classes, log.warnings, uid, error) ==
      ConvertModules(Run(old(p.body), old(reg.classes), old(log.warnings), firstUid, None), modules, h, rd)
    ensures log.infos == old(log.infos)
  {
    uid := firstUid;
    error := None;
    ghost var start := Run(p.body, reg.classes, log.warnings, firstUid, None);
    for i := 0 to |modules|
      invariant ConvertModules(Run(p.body, reg.classes, log.warnings, uid, None), modules[i..], h, rd) ==
        ConvertModules(start, modules, h, rd)
      invariant error.None? && log.infos == old(log.infos)
    {
      var arg := modules[i];
      assert modules[i..][0] == arg && modules[i..][1..] == modules[i + 1..];
      ghost var cur := Run(p.body, reg.classes, log.warnings, uid, None);
      if arg.Literal? && arg.v.Str? {
        ghost var next := Rounds(cur, h, arg.v.s, rd, Filter(cur.body, Found(arg.v.s)));
        assert ConvertModules(cur, modules[i..], h, rd) == ConvertModules(next, modules[i + 1..], h, rd);
        error, uid := ConvertModule(p, reg, log, h, arg.v.s, rd, uid);
        if error.Some? {
          return;
        }
      } else {
        error := Some(PathError(arg));
        return;
      }
    }
    assert modules[|modules|..] == [];
  }
}
