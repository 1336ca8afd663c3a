/**
 * Node-matching helpers of `src/utils/ast.js`: the partial-object patterns
 * handed to `jscs.match` for dotted member paths, call recognition, variable
 * lookup and the function-to-arrow conversion.
 */
module AstUtils {
  import opened Wrappers
  import opened Strings
  import opened Ast

  /**
   * The partial objects `createFindMemberExprObject` builds:
   * `{name: s}`, `{property: {name: s}}` and `{object: o, property: {name: s}}`.
   */
  datatype MemberPattern =
    | NameIs(name: string)
    | PropertyIs(property: string)
    | MemberIs(object: MemberPattern, property: string)

  /** `jscs.match(node, pattern)`: every key of the pattern is present in the node with a matching value. */
  predicate Matches(n: Node, pat: MemberPattern)
  {
    match pat
    case NameIs(s) => n.Identifier? && n.name == s
    case PropertyIs(p) => n.MemberExpression? && n.prop.Identifier? && n.prop.name == p
    case MemberIs(o, p) =>
      n.MemberExpression? && n.prop.Identifier? && n.prop.name == p && Matches(n.obj, o)
  }

  /** The identifier segments of a chain `a.b.c` (identifier properties only), if `n` is one. */
  function Segments(n: Node): (r: Option<seq<string>>)
    ensures r.Some? ==> |r.value| >= 1
  {
    match n
    case Identifier(x) => Some([x])
    case MemberExpression(o, p) =>
      if p.Identifier? && Segments(o).Some? then Some(Segments(o).value + [p.name]) else None
    case _ => None
  }

  /** The dotted text of an identifier chain (the `memberExpressionToString` helper, for the chains it is used on). */
  function DottedName(n: Node): (r: Option<string>)
    ensures r.Some? <==> Segments(n).Some?
  {
    if Segments(n).Some? then Some(Join(Segments(n).value, ".")) else None
  }

  /** One step of the `reduce` in `createFindMemberExprObject`. */
  function FindStep(obj: Option<MemberPattern>, idx: nat, arr: seq<string>): Option<MemberPattern>
    requires idx < |arr|
  {
    if obj.None? then
      if |arr| > idx + 1 then Some(MemberIs(NameIs(arr[idx]), arr[idx + 1]))
      else Some(PropertyIs(arr[idx]))
    else if |arr| > idx + 1 then Some(MemberIs(obj.value, arr[idx + 1]))
    else obj
  }

  function ReduceFrom(arr: seq<string>, idx: nat, acc: Option<MemberPattern>): Option<MemberPattern>
    requires idx <= |arr|
    decreases |arr| - idx
  {
    if idx == |arr| then acc else ReduceFrom(arr, idx + 1, FindStep(acc, idx, arr))
  }

  /** `createFindMemberExprObject` given an array of segments (`undefined` for an empty array). */
  function CreateFindMemberExprObject(parts: seq<string>): Option<MemberPattern>
  {
    ReduceFrom(parts, 0, None)
  }

  /** `createFindMemberExprObject` given a dotted path, which is split on '.'. */
  function CreateFindMemberExprObjectFor(path: string): Option<MemberPattern>
  {
    CreateFindMemberExprObject(Split(path, '.'))
  }

  /** The pattern for a chain of two or more segments, built from the left. */
  function Chain(parts: seq<string>): MemberPattern
    requires |parts| >= 2
    decreases |parts|
  {
    if |parts| == 2 then MemberIs(NameIs(parts[0]), parts[1])
    else MemberIs(Chain(parts[..|parts| - 1]), parts[|parts| - 1])
  }

  lemma {:induction false} ReduceFromChain(arr: seq<string>, idx: nat)
    requires 1 <= idx < |arr|
    ensures ReduceFrom(arr, idx, Some(Chain(arr[..idx + 1]))) == Some(Chain(arr))
    decreases |arr| - idx
  {
    if idx + 1 == |arr| {
      assert arr[..idx + 1] == arr;
    } else {
      var next := Chain(arr[..idx + 2]);
      assert arr[..idx + 2][..idx + 1] == arr[..idx + 1];
      assert FindStep(Some(Chain(arr[..idx + 1])), idx, arr) == Some(next);
      ReduceFromChain(arr, idx + 1);
    }
  }

  lemma {:induction false} ReduceFromSingle(arr: seq<string>)
    requires |arr| == 1
    ensures ReduceFrom(arr, 0, None) == Some(PropertyIs(arr[0]))
  {
    assert FindStep(None, 0, arr) == Some(PropertyIs(arr[0]));
  }

  /**
   * What `createFindMemberExprObject` builds: nothing for no segments,
   * `{property: {name}}` for one, and the left-nested chain for two or more.
   */
  lemma CreateFindMemberExprObjectShape(parts: seq<string>)
    ensures |parts| == 0 ==> CreateFindMemberExprObject(parts) == None
    ensures |parts| == 1 ==> CreateFindMemberExprObject(parts) == Some(PropertyIs(parts[0]))
    ensures |parts| >= 2 ==> CreateFindMemberExprObject(parts) == Some(Chain(parts))
  {
    if |parts| == 1 {
      ReduceFromSingle(parts);
    } else if |parts| >= 2 {
      assert FindStep(None, 0, parts) == Some(Chain(parts[..2]));
      ReduceFromChain(parts, 1);
    }
  }

  /** A chain pattern matches exactly the identifier chains with the same segments. */
  lemma {:induction false} ChainMatchesSegments(n: Node, parts: seq<string>)
    requires |parts| >= 2
    ensures Matches(n, Chain(parts)) <==> Segments(n) == Some(parts)
    decreases |parts|
  {
    var init := parts[..|parts| - 1];
    var last := parts[|parts| - 1];
    assert parts == init + [last];
    if n.MemberExpression? && n.prop.Identifier? && n.prop.name == last {
      if |parts| == 2 {
        assert init == [parts[0]];
        match n.obj
        case Identifier(x) =>
        case MemberExpression(o, p) =>
          if Segments(n.obj).Some? {
            assert |Segments(n.obj).value| >= 2;
          }
        case _ =>
      } else {
        ChainMatchesSegments(n.obj, init);
        if Segments(n) == Some(parts) {
          assert Segments(n.obj).value + [last] == init + [last];
          assert Segments(n.obj).value == init;
        }
      }
    }
  }

  /** Splitting a dotted path and passing the segments array build the same pattern. */
  lemma PathAndSegmentsAgree(parts: seq<string>)
    requires |parts| >= 1
    requires forall k :: 0 <= k < |parts| ==> '.' !in parts[k]
    ensures CreateFindMemberExprObjectFor(Join(parts, ".")) == CreateFindMemberExprObject(parts)
  {
    SplitJoin(parts, '.');
  }

  /** `jscs.match(n, createFindMemberExprObject(path))` */
  predicate MatchesPath(n: Node, path: string)
  {
    var pat := CreateFindMemberExprObjectFor(path);
    pat.Some? && Matches(n, pat.value)
  }

  /** `isCall(node, fn)` / `createFindCallFn(fn)(node)`: a call whose callee matches the path's pattern. */
  predicate IsCall(n: Node, fn: string)
  {
    n.CallExpression? && MatchesPath(n.callee, fn)
  }

  /** For a path of two or more segments, `IsCall` recognises exactly the calls of that identifier chain. */
  lemma IsCallChain(n: Node, parts: seq<string>)
    requires |parts| >= 2
    requires forall k :: 0 <= k < |parts| ==> '.' !in parts[k]
    ensures IsCall(n, Join(parts, ".")) <==> n.CallExpression? && Segments(n.callee) == Some(parts)
  {
    PathAndSegmentsAgree(parts);
    CreateFindMemberExprObjectShape(parts);
    if n.CallExpression? {
      ChainMatchesSegments(n.callee, parts);
    }
  }

  /** `hasVar(root, name)`: some variable declarator in the file declares an identifier `name`. */
  predicate HasVar(body: seq<Node>, name: string)
  {
    AnyIn(body, (x: Node) => x.VariableDeclarator? && x.id.Identifier? && x.id.name == name)
  }

  /** A variable statement whose first declarator binds the identifier `name` makes `hasVar` hold. */
  lemma HasVarDeclared(body: seq<Node>, i: nat, name: string)
    requires i < |body| && body[i].VariableDeclaration? && |body[i].declarations| >= 1
    requires body[i].declarations[0].VariableDeclarator? && body[i].declarations[0].id == Identifier(name)
    ensures HasVar(body, name)
  {
    var P := (x: Node) => x.VariableDeclarator? && x.id.Identifier? && x.id.name == name;
    assert Children(body[i])[0] == body[i].declarations[0];
    assert AnyNode(Children(body[i])[0], P);
    assert AnyNode(body[i], P);
  }

  /**
   * `replaceFunctionExpressionWithArrow`: null for anything but a function
   * expression; otherwise an arrow with the same parameters and comments whose
   * body is the returned expression when the body is a single `return`, else
   * the block (a parsed function expression has `expression` false).
   */
  function ReplaceFunctionExpressionWithArrow(n: Node): (r: Option<Node>)
    ensures r.Some? <==> n.FunctionExpression?
    ensures r.Some? ==> (r.value.ArrowFunctionExpression? && r.value.params == n.params &&
                         r.value.comments == n.comments && !r.value.isExpression)
    ensures r.Some? && SingleReturn(n.body) ==> r.value.body == n.body.stmts[0].argument
    ensures r.Some? && !SingleReturn(n.body) ==> r.value.body == n.body
  {
    if !n.FunctionExpression? then None
    else
      var arrowBody :=
        if SingleReturn(n.body) then n.body.stmts[0].argument
        else n.body;
      Some(ArrowFunctionExpression(n.params, arrowBody, false, n.comments))
  }

  /** A block whose only statement is a `return`. */
  predicate SingleReturn(body: Node)
  {
    body.BlockStatement? && |body.stmts| == 1 && body.stmts[0].ReturnStatement?
  }

  /** The block an arrow's body stands for: an expression body `e` means `{ return e; }`. */
  function ArrowBlock(arrow: Node): (b: Node)
    requires arrow.ArrowFunctionExpression?
    ensures b.BlockStatement?
  {
    if arrow.body.BlockStatement? then arrow.body else BlockStatement([ReturnStatement(arrow.body)])
  }

  /**
   * The arrow runs the function's body: reading its body back as a block
   * gives the function's block, provided a returned value is an expression
   * and not itself a block.
   */
  lemma ArrowKeepsBody(n: Node)
    requires n.FunctionExpression? && n.body.BlockStatement?
    requires SingleReturn(n.body) ==> !n.body.stmts[0].argument.BlockStatement?
    ensures ArrowBlock(ReplaceFunctionExpressionWithArrow(n).value) == n.body
  {
    if SingleReturn(n.body) {
      assert n.body.stmts == [ReturnStatement(n.body.stmts[0].argument)];
    }
  }

  /** A rewrite of calls into calls changes no node's match against a member pattern. */
  lemma {:induction false} RewriteMatches(n: Node, pat: MemberPattern, f: Node -> Node, P: Node -> bool)
    requires CallRewrite(f, P)
    ensures Matches(Rewrite(n, f), pat) <==> Matches(n, pat)
    decreases pat
  {
    RewriteStructure(n, f, P);
    if n.MemberExpression? {
      RewriteStructure(n.prop, f, P);
      match pat
      case MemberIs(o, _) => RewriteMatches(n.obj, o, f, P);
      case _ =>
    }
  }
}
