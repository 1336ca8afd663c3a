/**
 * The part of the JavaScript syntax tree (ESTree, as built by recast and
 * ast-types) that the codemods read and write, plus the generic traversals
 * jscodeshift's `find(...).forEach/replaceWith` are modelled with.
 */
module Ast {
  import opened Wrappers
  import opened Seqs

  datatype CommentKind = Block | Line

  /** A comment's text; ast-types is handed `undefined` in one place the model keeps. */
  datatype CommentText = Text(s: string) | Undefined

  datatype Comment = Comment(kind: CommentKind, value: CommentText, leading: bool)

  /** `jscs.commentBlock(text)`: a leading block comment. */
  function CommentBlock(text: string): (c: Comment)
    ensures c.kind == Block && c.value == Text(text) && c.leading
  {
    Comment(Block, Text(text), true)
  }

  datatype Value = Str(s: string) | Num(n: int) | Bool(b: bool) | NullValue

  datatype Node =
    | Identifier(name: string)
    | Literal(v: Value)
    | ThisExpression
    | Super
    | MemberExpression(obj: Node, prop: Node)
    | CallExpression(callee: Node, arguments: seq<Node>)
    | NewExpression(callee: Node, arguments: seq<Node>)
    | FunctionExpression(params: seq<Node>, body: Node, comments: seq<Comment>)
    | ArrowFunctionExpression(params: seq<Node>, body: Node, isExpression: bool, comments: seq<Comment>)
    | UnaryExpression(operator: string, argument: Node)
    | BinaryExpression(operator: string, left: Node, right: Node)
    | AssignmentExpression(left: Node, right: Node)
    | ObjectExpression(properties: seq<Node>)
    | ObjectPattern(properties: seq<Node>)
    | Property(key: Node, value: Node, shorthand: bool)
    | BlockStatement(stmts: seq<Node>)
    | ReturnStatement(argument: Node)
    | IfStatement(test: Node, consequent: Node)
    | ExpressionStatement(expression: Node, comments: seq<Comment>)
    | VariableDeclaration(kind: string, declarations: seq<Node>, comments: seq<Comment>)
    | VariableDeclarator(id: Node, init: Node)
      /** A class declaration; `uid` stands for the node's identity as an object. */
    | ClassDeclaration(uid: nat, id: Node, superClass: Node, members: seq<Node>, comments: seq<Comment>)
    | MethodDefinition(kind: string, key: Node, value: Node, isStatic: bool, comments: seq<Comment>)
    | ImportDeclaration(specifiers: seq<Node>, source: Node)
    | ImportDefaultSpecifier(local: Node)
    | ImportNamespaceSpecifier(local: Node)
    | ImportSpecifier(imported: Node, local: Node)
    | EmptyStatement
      /** An empty slot: `undefined` where a node is expected. */
    | Absent
      /** Any other node type, with its child nodes in source order. */
    | Other(kind: string, children: seq<Node>)

  /** The root of a file: the `Program` node whose statement list the transforms edit in place. */
  class Program {
    var body: seq<Node>

    constructor(body: seq<Node>)
      ensures this.body == body
    {
      this.body := body;
    }
  }

  /** A registered class: the identity and name of a class declaration in some tree. */
  datatype ClassRef = ClassRef(uid: nat, name: string)

  /** The node's `type` as the parser names it. */
  function TypeName(n: Node): string
  {
    match n
    case Identifier(_) => "Identifier"
    case Literal(_) => "Literal"
    case ThisExpression => "ThisExpression"
    case Super => "Super"
    case MemberExpression(_, _) => "MemberExpression"
    case CallExpression(_, _) => "CallExpression"
    case NewExpression(_, _) => "NewExpression"
    case FunctionExpression(_, _, _) => "FunctionExpression"
    case ArrowFunctionExpression(_, _, _, _) => "ArrowFunctionExpression"
    case UnaryExpression(_, _) => "UnaryExpression"
    case BinaryExpression(_, _, _) => "BinaryExpression"
    case AssignmentExpression(_, _) => "AssignmentExpression"
    case ObjectExpression(_) => "ObjectExpression"
    case ObjectPattern(_) => "ObjectPattern"
    case Property(_, _, _) => "Property"
    case BlockStatement(_) => "BlockStatement"
    case ReturnStatement(_) => "ReturnStatement"
    case IfStatement(_, _) => "IfStatement"
    case ExpressionStatement(_, _) => "ExpressionStatement"
    case VariableDeclaration(_, _, _) => "VariableDeclaration"
    case VariableDeclarator(_, _) => "VariableDeclarator"
    case ClassDeclaration(_, _, _, _, _) => "ClassDeclaration"
    case MethodDefinition(_, _, _, _, _) => "MethodDefinition"
    case ImportDeclaration(_, _) => "ImportDeclaration"
    case ImportDefaultSpecifier(_) => "ImportDefaultSpecifier"
    case ImportNamespaceSpecifier(_) => "ImportNamespaceSpecifier"
    case ImportSpecifier(_, _) => "ImportSpecifier"
    case EmptyStatement => "EmptyStatement"
    case Absent => "undefined"
    case Other(k, _) => k
  }

  /** The comments attached to a node (only statement, function, class and method nodes carry them here). */
  function CommentsOf(n: Node): seq<Comment>
  {
    match n
    case FunctionExpression(_, _, c) => c
    case ArrowFunctionExpression(_, _, _, c) => c
    case ExpressionStatement(_, c) => c
    case VariableDeclaration(_, _, c) => c
    case ClassDeclaration(_, _, _, _, c) => c
    case MethodDefinition(_, _, _, _, c) => c
    case _ => []
  }

  /** The direct child nodes of `n`, in source order. */
  function Children(n: Node): (r: seq<Node>)
    ensures forall i :: 0 <= i < |r| ==> r[i] < n
  {
    match n
    case MemberExpression(o, p) => [o, p]
    case CallExpression(c, args) => [c] + args
    case NewExpression(c, args) => [c] + args
    case FunctionExpression(ps, b, _) => ps + [b]
    case ArrowFunctionExpression(ps, b, _, _) => ps + [b]
    case UnaryExpression(_, a) => [a]
    case BinaryExpression(_, l, r) => [l, r]
    case AssignmentExpression(l, r) => [l, r]
    case ObjectExpression(ps) => ps
    case ObjectPattern(ps) => ps
    case Property(k, v, _) => [k, v]
    case BlockStatement(ss) => ss
    case ReturnStatement(a) => [a]
    case IfStatement(t, c) => [t, c]
    case ExpressionStatement(e, _) => [e]
    case VariableDeclaration(_, ds, _) => ds
    case VariableDeclarator(i, v) => [i, v]
    case ClassDeclaration(_, i, s, ms, _) => [i, s] + ms
    case MethodDefinition(_, k, v, _, _) => [k, v]
    case ImportDeclaration(ss, src) => ss + [src]
    case ImportDefaultSpecifier(l) => [l]
    case ImportNamespaceSpecifier(l) => [l]
    case ImportSpecifier(i, l) => [i, l]
    case Other(_, cs) => cs
    case _ => []
  }

  /** `n` with its direct children replaced, position by position, by `cs`. */
  function WithChildren(n: Node, cs: seq<Node>): (r: Node)
    requires |cs| == |Children(n)|
    ensures r.ClassDeclaration? <==> n.ClassDeclaration?
  {
    match n
    case MemberExpression(_, _) => MemberExpression(cs[0], cs[1])
    case CallExpression(_, _) => CallExpression(cs[0], cs[1..])
    case NewExpression(_, _) => NewExpression(cs[0], cs[1..])
    case FunctionExpression(ps, _, c) => FunctionExpression(cs[..|ps|], cs[|ps|], c)
    case ArrowFunctionExpression(ps, _, e, c) => ArrowFunctionExpression(cs[..|ps|], cs[|ps|], e, c)
    case UnaryExpression(op, _) => UnaryExpression(op, cs[0])
    case BinaryExpression(op, _, _) => BinaryExpression(op, cs[0], cs[1])
    case AssignmentExpression(_, _) => AssignmentExpression(cs[0], cs[1])
    case ObjectExpression(_) => ObjectExpression(cs)
    case ObjectPattern(_) => ObjectPattern(cs)
    case Property(_, _, sh) => Property(cs[0], cs[1], sh)
    case BlockStatement(_) => BlockStatement(cs)
    case ReturnStatement(_) => ReturnStatement(cs[0])
    case IfStatement(_, _) => IfStatement(cs[0], cs[1])
    case ExpressionStatement(_, c) => ExpressionStatement(cs[0], c)
    case VariableDeclaration(k, _, c) => VariableDeclaration(k, cs, c)
    case VariableDeclarator(_, _) => VariableDeclarator(cs[0], cs[1])
    case ClassDeclaration(u, _, _, _, c) => ClassDeclaration(u, cs[0], cs[1], cs[2..], c)
    case MethodDefinition(k, _, _, st, c) => MethodDefinition(k, cs[0], cs[1], st, c)
    case ImportDeclaration(ss, _) => ImportDeclaration(cs[..|ss|], cs[|ss|])
    case ImportDefaultSpecifier(_) => ImportDefaultSpecifier(cs[0])
    case ImportNamespaceSpecifier(_) => ImportNamespaceSpecifier(cs[0])
    case ImportSpecifier(_, _) => ImportSpecifier(cs[0], cs[1])
    case Other(k, _) => Other(k, cs)
    case _ => n
  }

  /** Rebuilding keeps the node's kind, identity and comments. */
  lemma WithChildrenKeeps(n: Node, cs: seq<Node>)
    requires |cs| == |Children(n)|
    ensures n.ClassDeclaration? ==> WithChildren(n, cs).uid == n.uid
    ensures CommentsOf(WithChildren(n, cs)) == CommentsOf(n)
  {
  }

  /** The rebuilt node has exactly the given children. */
  lemma ChildrenOfWithChildren(n: Node, cs: seq<Node>)
    requires |cs| == |Children(n)|
    ensures Children(WithChildren(n, cs)) == cs
  {
    if n.CallExpression? || n.NewExpression? || n.FunctionExpression? || n.ArrowFunctionExpression? ||
       n.ImportDeclaration? || n.ClassDeclaration? {
      ListChildren(n, cs);
    } else {
      FixedChildren(n, cs);
    }
  }

  /** The node kinds with a list among their children. */
  lemma ListChildren(n: Node, cs: seq<Node>)
    requires |cs| == |Children(n)|
    requires n.CallExpression? || n.NewExpression? || n.FunctionExpression? || n.ArrowFunctionExpression? ||
             n.ImportDeclaration? || n.ClassDeclaration?
    ensures Children(WithChildren(n, cs)) == cs
  {
    if n.CallExpression? || n.NewExpression? {
      HeadTail(cs);
    } else if n.FunctionExpression? || n.ArrowFunctionExpression? {
      FunctionChildren(n, cs);
    } else if n.ImportDeclaration? {
      LastSplit(cs, |n.specifiers|);
    } else {
      TwoSplit(cs);
    }
  }

  lemma FunctionChildren(n: Node, cs: seq<Node>)
    requires |cs| == |Children(n)|
    requires n.FunctionExpression? || n.ArrowFunctionExpression?
    ensures Children(WithChildren(n, cs)) == cs
  {
    LastSplit(cs, |n.params|);
  }

  /** The node kinds whose children are listed one by one. */
  lemma FixedChildren(n: Node, cs: seq<Node>)
    requires |cs| == |Children(n)|
    requires !(n.CallExpression? || n.NewExpression? || n.FunctionExpression? || n.ArrowFunctionExpression? ||
               n.ImportDeclaration? || n.ClassDeclaration?)
    ensures Children(WithChildren(n, cs)) == cs
  {
  }

  /** Putting a node's own children back changes nothing. */
  lemma WithOwnChildren(n: Node)
    ensures WithChildren(n, Children(n)) == n
  {
    if n.CallExpression? || n.NewExpression? || n.FunctionExpression? || n.ArrowFunctionExpression? ||
       n.ImportDeclaration? || n.ClassDeclaration? {
      OwnListChildren(n);
    }
  }

  lemma OwnListChildren(n: Node)
    requires n.CallExpression? || n.NewExpression? || n.FunctionExpression? || n.ArrowFunctionExpression? ||
             n.ImportDeclaration? || n.ClassDeclaration?
    ensures WithChildren(n, Children(n)) == n
  {
    match n
    case FunctionExpression(ps, b, c) => ConcatSlices(ps, [b]);
    case ArrowFunctionExpression(ps, b, e, c) => ConcatSlices(ps, [b]);
    case ImportDeclaration(ss, src) => ConcatSlices(ss, [src]);
    case CallExpression(c, args) => ConcatSlices([c], args);
    case NewExpression(c, args) => ConcatSlices([c], args);
    case ClassDeclaration(u, i, s, ms, c) => ConcatSlices([i, s], ms);
  }

  /**
   * Bottom-up rewrite: every node's children are rewritten first, then `f`
   * is applied to the rebuilt node. This is how `root.find(T, pattern)`
   * followed by `replaceWith` is modelled (matches are rewritten innermost
   * first).
   */
  function Rewrite(n: Node, f: Node -> Node): Node
    decreases n
  {
    var cs := Children(n);
    f(WithChildren(n, seq(|cs|, i requires 0 <= i < |cs| => Rewrite(cs[i], f))))
  }

  /** `Rewrite` applied to each statement of a list. */
  function RewriteAll(stmts: seq<Node>, f: Node -> Node): (r: seq<Node>)
    ensures |r| == |stmts|
    ensures forall i :: 0 <= i < |stmts| ==> r[i] == Rewrite(stmts[i], f)
  {
    seq(|stmts|, i requires 0 <= i < |stmts| => Rewrite(stmts[i], f))
  }

  /** A rewrite whose function fixes every node outside `P` leaves a tree without `P` nodes as it is. */
  lemma {:induction false} RewriteUnchanged(n: Node, f: Node -> Node, P: Node -> bool)
    requires forall m :: !P(m) ==> f(m) == m
    requires !AnyNode(n, P)
    ensures Rewrite(n, f) == n
    decreases n
  {
    var cs := Children(n);
    var rs := seq(|cs|, i requires 0 <= i < |cs| => Rewrite(cs[i], f));
    forall i | 0 <= i < |cs|
      ensures rs[i] == cs[i]
    {
      RewriteUnchanged(cs[i], f, P);
    }
    assert rs == cs;
    WithOwnChildren(n);
  }

  lemma CallChildren(callee: Node, args: seq<Node>)
    ensures Children(CallExpression(callee, args)) == [callee] + args
  {
  }

  /** One level of `Rewrite`: the children are rewritten, then the node. */
  lemma RewriteUnfold(n: Node, f: Node -> Node)
    ensures |RewriteAll(Children(n), f)| == |Children(n)|
    ensures Rewrite(n, f) == f(WithChildren(n, RewriteAll(Children(n), f)))
  {
    var cs := Children(n);
    assert RewriteAll(cs, f) == seq(|cs|, i requires 0 <= i < |cs| => Rewrite(cs[i], f));
  }

  lemma RewriteAllUnchanged(stmts: seq<Node>, f: Node -> Node, P: Node -> bool)
    requires forall m :: !P(m) ==> f(m) == m
    requires !AnyIn(stmts, P)
    ensures RewriteAll(stmts, f) == stmts
  {
    forall i | 0 <= i < |stmts|
      ensures RewriteAll(stmts, f)[i] == stmts[i]
    {
      RewriteUnchanged(stmts[i], f, P);
    }
  }

  /** A call whose callee and arguments hold no `P` node is rewritten by `f` alone. */
  lemma RewriteCallTop(callee: Node, args: seq<Node>, f: Node -> Node, P: Node -> bool)
    requires forall m :: !P(m) ==> f(m) == m
    requires !AnyNode(callee, P) && !AnyIn(args, P)
    ensures Rewrite(CallExpression(callee, args), f) == f(CallExpression(callee, args))
  {
    var call := CallExpression(callee, args);
    CallChildren(callee, args);
    RewriteUnchanged(callee, f, P);
    RewriteAllUnchanged(args, f, P);
    RewriteAllConcat([callee], args, f);
    RewriteUnfold(call, f);
    WithOwnChildren(call);
  }

  lemma RewriteAllConcat(a: seq<Node>, b: seq<Node>, f: Node -> Node)
    ensures RewriteAll(a + b, f) == RewriteAll(a, f) + RewriteAll(b, f)
  {
    Extensional(RewriteAll(a + b, f), RewriteAll(a, f) + RewriteAll(b, f));
  }

  /** Three trees without `P` nodes make a list without them. */
  lemma NoneInThree(a: Node, b: Node, c: Node, P: Node -> bool)
    requires !AnyNode(a, P) && !AnyNode(b, P) && !AnyNode(c, P)
    ensures !AnyIn([a, b, c], P)
  {
    var l := [a, b, c];
    assert forall i :: 0 <= i < 3 ==> l[i] == a || l[i] == b || l[i] == c;
  }

  /** `f` replaces only nodes satisfying `P`, and those are calls that it replaces by calls. */
  ghost predicate CallRewrite(f: Node -> Node, P: Node -> bool)
  {
    (forall m :: !P(m) ==> f(m) == m) &&
    (forall m :: P(m) ==> m.CallExpression? && f(m).CallExpression?)
  }

  /**
   * Under a rewrite of calls into calls every other node keeps its kind and
   * is rebuilt from its rewritten children; a call stays a call, replaced
   * only when its rebuilt form satisfies `P`.
   */
  lemma RewriteStructure(x: Node, f: Node -> Node, P: Node -> bool)
    requires CallRewrite(f, P)
    ensures Rewrite(x, f).CallExpression? <==> x.CallExpression?
    ensures Rewrite(x, f).Identifier? <==> x.Identifier?
    ensures Rewrite(x, f).MemberExpression? <==> x.MemberExpression?
    ensures Rewrite(x, f).ExpressionStatement? <==> x.ExpressionStatement?
    ensures x.Identifier? || x.Literal? ==> Rewrite(x, f) == x
    ensures x.MemberExpression? ==> Rewrite(x, f) == MemberExpression(Rewrite(x.obj, f), Rewrite(x.prop, f))
    ensures x.ExpressionStatement? ==> Rewrite(x, f) == ExpressionStatement(Rewrite(x.expression, f), x.comments)
    ensures x.CallExpression? ==>
      var w := CallExpression(Rewrite(x.callee, f), RewriteAll(x.arguments, f));
      Rewrite(x, f) == (if P(w) then f(w) else w)
  {
    RewriteKinds(x, f, P);
    if x.MemberExpression? {
      RewriteMember(x, f, P);
    } else if x.ExpressionStatement? {
      RewriteStatement(x, f, P);
    } else if x.CallExpression? {
      RewriteCall(x, f, P);
    }
  }

  lemma RewriteKinds(x: Node, f: Node -> Node, P: Node -> bool)
    requires CallRewrite(f, P)
    ensures Rewrite(x, f).CallExpression? <==> x.CallExpression?
    ensures Rewrite(x, f).Identifier? <==> x.Identifier?
    ensures Rewrite(x, f).MemberExpression? <==> x.MemberExpression?
    ensures Rewrite(x, f).ExpressionStatement? <==> x.ExpressionStatement?
    ensures x.Identifier? || x.Literal? ==> Rewrite(x, f) == x
  {
    RewriteUnfold(x, f);
    RebuiltKind(x, RewriteAll(Children(x), f));
  }

  lemma RewriteMember(x: Node, f: Node -> Node, P: Node -> bool)
    requires CallRewrite(f, P) && x.MemberExpression?
    ensures Rewrite(x, f) == MemberExpression(Rewrite(x.obj, f), Rewrite(x.prop, f))
  {
    RewriteUnfold(x, f);
    assert Children(x) == [x.obj, x.prop];
    RebuiltKind(x, RewriteAll(Children(x), f));
  }

  lemma RewriteStatement(x: Node, f: Node -> Node, P: Node -> bool)
    requires CallRewrite(f, P) && x.ExpressionStatement?
    ensures Rewrite(x, f) == ExpressionStatement(Rewrite(x.expression, f), x.comments)
  {
    RewriteUnfold(x, f);
    assert Children(x) == [x.expression];
    RebuiltKind(x, RewriteAll(Children(x), f));
  }

  lemma RewriteCall(x: Node, f: Node -> Node, P: Node -> bool)
    requires CallRewrite(f, P) && x.CallExpression?
    ensures var w := CallExpression(Rewrite(x.callee, f), RewriteAll(x.arguments, f));
      Rewrite(x, f) == (if P(w) then f(w) else w)
  {
    var a, b := Rewrite(x.callee, f), RewriteAll(x.arguments, f);
    RewriteUnfold(x, f);
    CallChildren(x.callee, x.arguments);
    RewriteAllConcat([x.callee], x.arguments, f);
    assert RewriteAll([x.callee], f) == [a];
    assert ([a] + b)[1..] == b;
    assert WithChildren(x, [a] + b) == CallExpression(a, b);
  }

  /** What rebuilding with new children gives for the node kinds the rewrites look at. */
  lemma RebuiltKind(x: Node, cs: seq<Node>)
    requires |cs| == |Children(x)|
    ensures WithChildren(x, cs).CallExpression? <==> x.CallExpression?
    ensures WithChildren(x, cs).Identifier? <==> x.Identifier?
    ensures WithChildren(x, cs).MemberExpression? <==> x.MemberExpression?
    ensures WithChildren(x, cs).ExpressionStatement? <==> x.ExpressionStatement?
    ensures x.Identifier? || x.Literal? ==> WithChildren(x, cs) == x
    ensures x.MemberExpression? ==> WithChildren(x, cs) == MemberExpression(cs[0], cs[1])
    ensures x.ExpressionStatement? ==> WithChildren(x, cs) == ExpressionStatement(cs[0], x.comments)
    ensures x.CallExpression? ==> WithChildren(x, cs) == CallExpression(cs[0], cs[1..])
  {
  }

  /** No node satisfying `P` among the children of `m` or below them. */
  ghost predicate NoneBelow(m: Node, P: Node -> bool)
  {
    forall i :: 0 <= i < |Children(m)| ==> !AnyNode(Children(m)[i], P)
  }

  /** A node without `P` at or below it. */
  lemma NoneAt(n: Node, P: Node -> bool)
    requires !P(n) && NoneBelow(n, P)
    ensures !AnyNode(n, P)
  {
  }

  /** The children of a node without `P` below it hold no `P`. */
  lemma ChildNone(n: Node, P: Node -> bool, i: nat)
    requires !AnyNode(n, P) && i < |Children(n)|
    ensures !AnyNode(Children(n)[i], P)
  {
  }

  /**
   * Completeness of a rewrite: when no replacement of a `P` node (whose
   * subtrees are already free of `P`) contains a `P` node, the rewritten
   * tree has none left.
   */
  lemma {:induction false} RewriteClears(n: Node, f: Node -> Node, P: Node -> bool)
    requires forall m :: !P(m) ==> f(m) == m
    requires forall m :: P(m) && NoneBelow(m, P) ==> !AnyNode(f(m), P)
    ensures !AnyNode(Rewrite(n, f), P)
    decreases n
  {
    RewriteUnfold(n, f);
    var rs := RewriteAll(Children(n), f);
    forall i | 0 <= i < |rs|
      ensures !AnyNode(rs[i], P)
    {
      RewriteClears(Children(n)[i], f, P);
    }
    ChildrenOfWithChildren(n, rs);
    assert NoneBelow(WithChildren(n, rs), P);
  }

  lemma RewriteAllClears(stmts: seq<Node>, f: Node -> Node, P: Node -> bool)
    requires forall m :: !P(m) ==> f(m) == m
    requires forall m :: P(m) && NoneBelow(m, P) ==> !AnyNode(f(m), P)
    ensures !AnyIn(RewriteAll(stmts, f), P)
  {
    forall i | 0 <= i < |stmts|
      ensures !AnyNode(RewriteAll(stmts, f)[i], P)
    {
      RewriteClears(stmts[i], f, P);
    }
  }

  /** Is there a node satisfying `P` anywhere in `n` (including `n`)? */
  predicate AnyNode(n: Node, P: Node -> bool)
    decreases n
  {
    P(n) || exists i :: 0 <= i < |Children(n)| && AnyNode(Children(n)[i], P)
  }

  /** Is there a node satisfying `P` in any of the statements? */
  predicate AnyIn(stmts: seq<Node>, P: Node -> bool)
  {
    exists i :: 0 <= i < |stmts| && AnyNode(stmts[i], P)
  }

  /** The nodes of `n` satisfying `P`, in pre-order (the order of `root.find`). */
  function Collect(n: Node, P: Node -> bool): (r: seq<Node>)
    ensures forall k :: 0 <= k < |r| ==> P(r[k])
    decreases n, 1
  {
    (if P(n) then [n] else []) + CollectAll(Children(n), P, n)
  }

  function CollectAll(cs: seq<Node>, P: Node -> bool, parent: Node): (r: seq<Node>)
    requires forall i :: 0 <= i < |cs| ==> cs[i] < parent
    ensures forall k :: 0 <= k < |r| ==> P(r[k])
    decreases parent, 0, |cs|
  {
    if cs == [] then [] else Collect(cs[0], P) + CollectAll(cs[1..], P, parent)
  }

  /** The matching nodes of a statement list, in pre-order. */
  function CollectIn(stmts: seq<Node>, P: Node -> bool): (r: seq<Node>)
    ensures forall k :: 0 <= k < |r| ==> P(r[k])
  {
    if stmts == [] then [] else Collect(stmts[0], P) + CollectIn(stmts[1..], P)
  }

  /** A statement list holds nothing matching `P` exactly when its collection is empty. */
  lemma {:induction false} CollectInEmpty(stmts: seq<Node>, P: Node -> bool)
    ensures CollectIn(stmts, P) == [] <==> !AnyIn(stmts, P)
  {
    if stmts != [] {
      CollectEmpty(stmts[0], P);
      CollectInEmpty(stmts[1..], P);
      AnyInHeadTail(stmts, P);
    }
  }

  /** A non-empty list holds a `P` node exactly when its head or its tail does. */
  lemma AnyInHeadTail(cs: seq<Node>, P: Node -> bool)
    requires cs != []
    ensures AnyIn(cs, P) <==> AnyNode(cs[0], P) || AnyIn(cs[1..], P)
  {
    if AnyIn(cs[1..], P) {
      var i :| 0 <= i < |cs[1..]| && AnyNode(cs[1..][i], P);
      assert AnyNode(cs[i + 1], P);
    }
    if AnyIn(cs, P) && !AnyNode(cs[0], P) {
      var i :| 0 <= i < |cs| && AnyNode(cs[i], P);
      assert AnyNode(cs[1..][i - 1], P);
    }
  }

  lemma {:induction false} CollectEmpty(n: Node, P: Node -> bool)
    ensures Collect(n, P) == [] <==> !AnyNode(n, P)
    decreases n, 1
  {
    CollectAllEmpty(Children(n), P, n);
  }

  lemma {:induction false} CollectAllEmpty(cs: seq<Node>, P: Node -> bool, parent: Node)
    requires forall i :: 0 <= i < |cs| ==> cs[i] < parent
    ensures CollectAll(cs, P, parent) == [] <==> !AnyIn(cs, P)
    decreases parent, 0, |cs|
  {
    if cs != [] {
      CollectEmpty(cs[0], P);
      CollectAllEmpty(cs[1..], P, parent);
      AnyInHeadTail(cs, P);
    }
  }

  /** Number of nodes satisfying `P` in `n`. */
  function Count(n: Node, P: Node -> bool): nat
    decreases n, 1
  {
    (if P(n) then 1 else 0) + CountAll(Children(n), P, n)
  }

  function CountAll(cs: seq<Node>, P: Node -> bool, parent: Node): nat
    requires forall i :: 0 <= i < |cs| ==> cs[i] < parent
    decreases parent, 0, |cs|
  {
    if cs == [] then 0 else Count(cs[0], P) + CountAll(cs[1..], P, parent)
  }

  /** The class declaration with identity `uid`, with `member` appended to its body. */
  function AddMember(stmts: seq<Node>, uid: nat, member: Node): (r: seq<Node>)
    ensures |r| == |stmts|
  {
    RewriteAll(stmts, (x: Node) => if x.ClassDeclaration? && x.uid == uid then x.(members := x.members + [member]) else x)
  }

  /** The class declarations (identities) directly in a statement list. */
  predicate DeclaresClass(stmts: seq<Node>, uid: nat)
  {
    exists i :: 0 <= i < |stmts| && stmts[i].ClassDeclaration? && stmts[i].uid == uid
  }

  /** Is `s` an expression statement wrapping an assignment? */
  predicate IsAssignmentStatement(s: Node)
  {
    s.ExpressionStatement? && s.expression.AssignmentExpression?
  }

  /** `list` without the element at index `i` (jscodeshift `remove` / ast-types `prune` of a statement). */
  function RemoveAt<T>(list: seq<T>, i: nat): (r: seq<T>)
    requires i < |list|
    ensures |r| == |list| - 1
    ensures r == list[..i] + list[i + 1..]
  {
    list[..i] + list[i + 1..]
  }

  // ---- where matches sit ----

  /** Where a node sits: the index of its statement, then the index of each child on the way down, as `Children` lists them. */
  type Position = seq<nat>

  /** An ancestor of a matched node, and where it sits. */
  datatype Ancestor = Ancestor(node: Node, pos: Position)

  /**
   * A matched node, where it sits, and its ancestors nearest first (its
   * `path.parent` chain). The `Program` and `File` nodes above the
   * statements are left off.
   */
  datatype Site = Site(node: Node, pos: Position, ancestors: seq<Ancestor>)

  /** The sites of the nodes of `n` satisfying `P`, in pre-order: the paths `root.find` hands to `forEach`. */
  function SitesIn(n: Node, pos: Position, ancestors: seq<Ancestor>, P: Node -> bool): (r: seq<Site>)
    ensures forall k :: 0 <= k < |r| ==> P(r[k].node)
    decreases n, 1
  {
    (if P(n) then [Site(n, pos, ancestors)] else []) +
    SitesInChildren(Children(n), 0, pos, [Ancestor(n, pos)] + ancestors, P, n)
  }

  function SitesInChildren(cs: seq<Node>, first: nat, pos: Position, ancestors: seq<Ancestor>, P: Node -> bool, parent: Node)
    : (r: seq<Site>)
    requires forall i :: 0 <= i < |cs| ==> cs[i] < parent
    ensures forall k :: 0 <= k < |r| ==> P(r[k].node)
    decreases parent, 0, |cs|
  {
    if cs == [] then []
    else SitesIn(cs[0], pos + [first], ancestors, P) + SitesInChildren(cs[1..], first + 1, pos, ancestors, P, parent)
  }

  /** The sites of the statements from index `first` on. */
  function SitesOf(stmts: seq<Node>, first: nat, P: Node -> bool): (r: seq<Site>)
    ensures forall k :: 0 <= k < |r| ==> P(r[k].node)
  {
    if stmts == [] then [] else SitesIn(stmts[0], [first], [], P) + SitesOf(stmts[1..], first + 1, P)
  }

  /** The sites are exactly the matches: a narrower test `Q` holds somewhere in the file just when it holds at a site's call. */
  lemma SitesAreMatches(stmts: seq<Node>, P: Node -> bool, Q: Node -> bool)
    requires forall m :: Q(m) ==> P(m)
    ensures AnyIn(stmts, Q) <==> exists k :: 0 <= k < |SitesOf(stmts, 0, P)| && Q(SitesOf(stmts, 0, P)[k].node)
  {
    var sites := SitesOf(stmts, 0, P);
    if AnyIn(stmts, Q) {
      var k := SiteForStatements(stmts, 0, P, Q);
    }
    if exists k :: 0 <= k < |sites| && Q(sites[k].node) {
      var k :| 0 <= k < |sites| && Q(sites[k].node);
      SiteInStatements(stmts, 0, P, Q, k);
    }
  }

  lemma {:induction false} SiteForStatements(stmts: seq<Node>, first: nat, P: Node -> bool, Q: Node -> bool) returns (k: nat)
    requires AnyIn(stmts, Q) && forall m :: Q(m) ==> P(m)
    ensures k < |SitesOf(stmts, first, P)| && Q(SitesOf(stmts, first, P)[k].node)
  {
    var head := SitesIn(stmts[0], [first], [], P);
    AnyInHeadTail(stmts, Q);
    if AnyNode(stmts[0], Q) {
      k := SiteFor(stmts[0], [first], [], P, Q);
    } else {
      var k' := SiteForStatements(stmts[1..], first + 1, P, Q);
      k := |head| + k';
    }
  }

  lemma {:induction false} SiteFor(n: Node, pos: Position, ancestors: seq<Ancestor>, P: Node -> bool, Q: Node -> bool)
    returns (k: nat)
    requires AnyNode(n, Q) && forall m :: Q(m) ==> P(m)
    ensures k < |SitesIn(n, pos, ancestors, P)| && Q(SitesIn(n, pos, ancestors, P)[k].node)
    decreases n, 1
  {
    if Q(n) {
      k := 0;
    } else {
      var i :| 0 <= i < |Children(n)| && AnyNode(Children(n)[i], Q);
      var k' := SiteForChildren(Children(n), 0, pos, [Ancestor(n, pos)] + ancestors, P, Q, n, i);
      k := (if P(n) then 1 else 0) + k';
    }
  }

  lemma {:induction false} SiteForChildren(cs: seq<Node>, first: nat, pos: Position, ancestors: seq<Ancestor>,
                                           P: Node -> bool, Q: Node -> bool, parent: Node, i: nat) returns (k: nat)
    requires forall j :: 0 <= j < |cs| ==> cs[j] < parent
    requires i < |cs| && AnyNode(cs[i], Q) && forall m :: Q(m) ==> P(m)
    ensures k < |SitesInChildren(cs, first, pos, ancestors, P, parent)|
    ensures Q(SitesInChildren(cs, first, pos, ancestors, P, parent)[k].node)
    decreases parent, 0, |cs|
  {
    var head := SitesIn(cs[0], pos + [first], ancestors, P);
    if i == 0 {
      k := SiteFor(cs[0], pos + [first], ancestors, P, Q);
    } else {
      var k' := SiteForChildren(cs[1..], first + 1, pos, ancestors, P, Q, parent, i - 1);
      k := |head| + k';
    }
  }

  lemma {:induction false} SiteInStatements(stmts: seq<Node>, first: nat, P: Node -> bool, Q: Node -> bool, k: nat)
    requires k < |SitesOf(stmts, first, P)| && Q(SitesOf(stmts, first, P)[k].node)
    ensures AnyIn(stmts, Q)
  {
    var head := SitesIn(stmts[0], [first], [], P);
    AnyInHeadTail(stmts, Q);
    if k < |head| {
      SiteInTree(stmts[0], [first], [], P, Q, k);
    } else {
      SiteInStatements(stmts[1..], first + 1, P, Q, k - |head|);
    }
  }

  lemma {:induction false} SiteInTree(n: Node, pos: Position, ancestors: seq<Ancestor>, P: Node -> bool, Q: Node -> bool, k: nat)
    requires k < |SitesIn(n, pos, ancestors, P)| && Q(SitesIn(n, pos, ancestors, P)[k].node)
    ensures AnyNode(n, Q)
    decreases n, 1
  {
    var own := if P(n) then 1 else 0;
    if k >= own {
      var i := SiteInChildren(Children(n), 0, pos, [Ancestor(n, pos)] + ancestors, P, Q, n, k - own);
    }
  }

  lemma {:induction false} SiteInChildren(cs: seq<Node>, first: nat, pos: Position, ancestors: seq<Ancestor>,
                                          P: Node -> bool, Q: Node -> bool, parent: Node, k: nat) returns (i: nat)
    requires forall j :: 0 <= j < |cs| ==> cs[j] < parent
    requires k < |SitesInChildren(cs, first, pos, ancestors, P, parent)|
    requires Q(SitesInChildren(cs, first, pos, ancestors, P, parent)[k].node)
    ensures i < |cs| && AnyNode(cs[i], Q)
    decreases parent, 0, |cs|
  {
    var head := SitesIn(cs[0], pos + [first], ancestors, P);
    if k < |head| {
      SiteInTree(cs[0], pos + [first], ancestors, P, Q, k);
      i := 0;
    } else {
      var i' := SiteInChildren(cs[1..], first + 1, pos, ancestors, P, Q, parent, k - |head|);
      i := i' + 1;
    }
  }

  /** The matched nodes of a list of sites, in order. */
  function NodesOf(sites: seq<Site>): (r: seq<Node>)
    ensures |r| == |sites| && forall k :: 0 <= k < |r| ==> r[k] == sites[k].node
  {
    seq(|sites|, k requires 0 <= k < |sites| => sites[k].node)
  }

  lemma NodesOfConcat(a: seq<Site>, b: seq<Site>)
    ensures NodesOf(a + b) == NodesOf(a) + NodesOf(b)
  {
  }

  /** The sites hold the nodes `CollectIn` gathers, in the same order: the two searches are the same `root.find`. */
  lemma {:induction false} SitesAreCollected(stmts: seq<Node>, first: nat, P: Node -> bool)
    ensures NodesOf(SitesOf(stmts, first, P)) == CollectIn(stmts, P)
  {
    if stmts != [] {
      SiteNodesCollected(stmts[0], [first], [], P);
      SitesAreCollected(stmts[1..], first + 1, P);
      NodesOfConcat(SitesIn(stmts[0], [first], [], P), SitesOf(stmts[1..], first + 1, P));
    }
  }

  lemma {:induction false} SiteNodesCollected(n: Node, pos: Position, ancestors: seq<Ancestor>, P: Node -> bool)
    ensures NodesOf(SitesIn(n, pos, ancestors, P)) == Collect(n, P)
    decreases n, 1
  {
    var own := if P(n) then [Site(n, pos, ancestors)] else [];
    var below := SitesInChildren(Children(n), 0, pos, [Ancestor(n, pos)] + ancestors, P, n);
    ChildSitesCollected(Children(n), 0, pos, [Ancestor(n, pos)] + ancestors, P, n);
    NodesOfConcat(own, below);
  }

  lemma {:induction false} ChildSitesCollected(cs: seq<Node>, first: nat, pos: Position, ancestors: seq<Ancestor>,
                                               P: Node -> bool, parent: Node)
    requires forall i :: 0 <= i < |cs| ==> cs[i] < parent
    ensures NodesOf(SitesInChildren(cs, first, pos, ancestors, P, parent)) == CollectAll(cs, P, parent)
    decreases parent, 0, |cs|
  {
    if cs != [] {
      SiteNodesCollected(cs[0], pos + [first], ancestors, P);
      ChildSitesCollected(cs[1..], first + 1, pos, ancestors, P, parent);
      NodesOfConcat(SitesIn(cs[0], pos + [first], ancestors, P), SitesInChildren(cs[1..], first + 1, pos, ancestors, P, parent));
    }
  }

  /** Keeping the `Q` nodes of a search for `P` is searching for `P` and `Q` together. */
  lemma {:induction false} CollectInFilter(stmts: seq<Node>, P: Node -> bool, Q: Node -> bool, R: Node -> bool)
    requires forall n :: R(n) == (P(n) && Q(n))
    ensures Filter(CollectIn(stmts, P), Q) == CollectIn(stmts, R)
  {
    if stmts != [] {
      CollectFilter(stmts[0], P, Q, R);
      CollectInFilter(stmts[1..], P, Q, R);
      FilterConcat(Collect(stmts[0], P), CollectIn(stmts[1..], P), Q);
    }
  }

  lemma {:induction false} CollectFilter(n: Node, P: Node -> bool, Q: Node -> bool, R: Node -> bool)
    requires forall m :: R(m) == (P(m) && Q(m))
    ensures Filter(Collect(n, P), Q) == Collect(n, R)
    decreases n, 1
  {
    var own := if P(n) then [n] else [];
    CollectAllFilter(Children(n), P, Q, R, n);
    FilterConcat(own, CollectAll(Children(n), P, n), Q);
    assert Filter(own, Q) == if R(n) then [n] else [] by {
      if P(n) {
        assert Filter(own, Q) == (if Q(n) then [n] else []) + Filter([], Q);
      }
    }
  }

  lemma {:induction false} CollectAllFilter(cs: seq<Node>, P: Node -> bool, Q: Node -> bool, R: Node -> bool, parent: Node)
    requires forall i :: 0 <= i < |cs| ==> cs[i] < parent
    requires forall m :: R(m) == (P(m) && Q(m))
    ensures Filter(CollectAll(cs, P, parent), Q) == CollectAll(cs, R, parent)
    decreases parent, 0, |cs|
  {
    if cs != [] {
      CollectFilter(cs[0], P, Q, R);
      CollectAllFilter(cs[1..], P, Q, R, parent);
      FilterConcat(Collect(cs[0], P), CollectAll(cs[1..], P, parent), Q);
    }
  }
}
