/** The node builders of `src/utils/jscs.js`. */
module Jscs {
  import opened Wrappers
  import opened Strings
  import opened Ast
  import opened AstUtils

  /**
   * `bindArgs`: three arguments `(a, f, t)` become `(a, f.bind(t))`; any
   * other argument list is returned as it is.
   */
  function BindArgs(args: seq<Node>): (r: seq<Node>)
  {
    if |args| == 3 then
      [args[0], CallExpression(MemberExpression(args[1], Identifier("bind")), [args[2]])]
    else args
  }

  /** Only a three-argument list changes, into two arguments whose second binds the callback to the third. */
  lemma BindArgsSpec(args: seq<Node>)
    ensures |args| != 3 <==> BindArgs(args) == args
    ensures |args| == 3 ==>
      (|BindArgs(args)| == 2 && BindArgs(args)[0] == args[0] &&
       BindArgs(args)[1].CallExpression? && BindArgs(args)[1].arguments == [args[2]] &&
       BindArgs(args)[1].callee == MemberExpression(args[1], Identifier("bind")))
  {
  }

  /** Binding twice is binding once: the bound list never has three arguments. */
  lemma BindArgsIdempotent(args: seq<Node>)
    ensures BindArgs(BindArgs(args)) == BindArgs(args)
  {
  }

  /** The left-nested member chain the `reduce` in `createCall` builds (`undefined` below two segments). */
  function CalleeFor(parts: seq<string>): (r: Option<Node>)
    ensures r.Some? <==> |parts| >= 2
    decreases |parts|
  {
    if |parts| < 2 then None
    else if |parts| == 2 then Some(MemberExpression(Identifier(parts[0]), Identifier(parts[1])))
    else Some(MemberExpression(CalleeFor(parts[..|parts| - 1]).value, Identifier(parts[|parts| - 1])))
  }

  /**
   * `createCall(path, args)`. With fewer than two segments the callee is
   * `undefined`, which the `callExpression` builder rejects: `None`.
   */
  function CreateCall(path: string, args: seq<Node>): (r: Option<Node>)
    ensures r.Some? ==> r.value.CallExpression? && r.value.arguments == args
  {
    var callee := CalleeFor(Split(path, '.'));
    if callee.Some? then Some(CallExpression(callee.value, args)) else None
  }

  lemma {:induction false} CalleeSegments(parts: seq<string>)
    requires |parts| >= 2
    ensures Segments(CalleeFor(parts).value) == Some(parts)
    decreases |parts|
  {
    if |parts| > 2 {
      CalleeSegments(parts[..|parts| - 1]);
      assert parts[..|parts| - 1] + [parts[|parts| - 1]] == parts;
    } else {
      assert [parts[0]] + [parts[1]] == parts;
    }
  }

  /**
   * Round trip with `isCall`: a call built for a dotted path of two or more
   * segments is recognised as a call of that path, and no call is built for
   * a path without a dot.
   */
  lemma CreateCallIsCall(parts: seq<string>, args: seq<Node>)
    requires |parts| >= 1
    requires forall k :: 0 <= k < |parts| ==> '.' !in parts[k]
    ensures |parts| >= 2 <==> CreateCall(Join(parts, "."), args).Some?
    ensures |parts| >= 2 ==> IsCall(CreateCall(Join(parts, "."), args).value, Join(parts, "."))
  {
    SplitJoin(parts, '.');
    if |parts| >= 2 {
      CalleeSegments(parts);
      IsCallChain(CreateCall(Join(parts, "."), args).value, parts);
    }
  }
}
