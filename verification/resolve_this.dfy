/**
 * `src/utils/resolvethis.js`: callbacks passed together with an explicit
 * `this` argument are turned into arrow functions, and the `this` argument
 * is dropped (or blanked) once every listed callback was converted.
 */
module ResolveThis {
  import opened Wrappers
  import opened Seqs
  import opened Ast
  import opened AstUtils

  /** The node type a pattern is looked up with. */
  datatype CallKind = NewCall | PlainCall

  /**
   * One entry of `PATTERNS`: the node type and callee path of the filter,
   * whether the filter also fixes the argument types (the `listen` entry),
   * the callback positions, the `this` position, and whether the
   * `goog.bind` post-step runs.
   */
  datatype Pattern = Pattern(kind: CallKind, callee: string, listenArgs: bool,
                             fnArgs: seq<nat>, thisArg: Option<nat>, unwrapBind: bool)

  function Plain(callee: string, fnArgs: seq<nat>, thisArg: nat): Pattern
  {
    Pattern(PlainCall, callee, false, fnArgs, Some(thisArg), false)
  }

  /** `PATTERNS`, in order. */
  const Patterns: seq<Pattern> := [
    Pattern(NewCall, "goog.Promise", false, [0], Some(1), false),
    Pattern(PlainCall, "goog.events.listenOnce", false, [2], None, false),
    Plain("goog.array.map", [1], 2),
    Plain("goog.object.forEach", [1], 2),
    Plain("goog.array.forEach", [1], 2),
    Plain("goog.array.removeIf", [1], 2),
    Plain("goog.events.listen", [2], 4),
    Plain("goog.events.listenOnce", [2], 4),
    Pattern(PlainCall, "goog.bind", false, [0], Some(1), true),
    Plain("ol.events.listen", [2], 3),
    Plain("ol.events.listenOnce", [2], 3),
    Plain("addCallbacks", [0, 1], 2),
    Plain("then", [0, 1], 2),
    Pattern(PlainCall, "listen", true, [1], Some(3), false)
  ]

  /**
   * The callback positions are distinct and lie below the `this` position,
   * so a call that passed the `this` check has every callback slot.
   */
  predicate WellFormed(pat: Pattern)
  {
    Distinct(pat.fnArgs) &&
    (pat.thisArg.Some? ==> forall k :: 0 <= k < |pat.fnArgs| ==> pat.fnArgs[k] < pat.thisArg.value)
  }

  /** Every entry of the table is well formed. */
  lemma PatternsWellFormed()
    ensures forall k :: 0 <= k < |Patterns| ==> WellFormed(Patterns[k])
  {
  }

  /** `root.find(pattern.type, pattern.filter)` selects `n`. */
  predicate Selected(n: Node, pat: Pattern)
  {
    (if pat.kind == NewCall then n.NewExpression? else n.CallExpression?) &&
    MatchesPath(n.callee, pat.callee) &&
    (pat.listenArgs ==>
      |n.arguments| >= 4 && n.arguments[1].FunctionExpression? && n.arguments[2].Literal? &&
      n.arguments[3].ThisExpression?)
  }

  /** The `this` check: the pattern names a `this` position and the argument there is `this`. */
  predicate ThisPassed(args: seq<Node>, pat: Pattern)
  {
    pat.thisArg.Some? && pat.thisArg.value < |args| && args[pat.thisArg.value].ThisExpression?
  }

  /** The arrow `replaceFunctionExpressionWithArrow` returns for a function expression. */
  function Arrow(f: Node): (r: Node)
    requires f.FunctionExpression?
    ensures r.ArrowFunctionExpression? && r.params == f.params && r.comments == f.comments
  {
    ReplaceFunctionExpressionWithArrow(f).value
  }

  /**
   * The arguments after visiting the callback positions `fnArgs` in order,
   * each function expression becoming an arrow, and how many were replaced.
   */
  function ReplaceFns(args: seq<Node>, fnArgs: seq<nat>): (r: (seq<Node>, nat))
    requires forall k :: 0 <= k < |fnArgs| ==> fnArgs[k] < |args|
    ensures |r.0| == |args|
    decreases |fnArgs|
  {
    if fnArgs == [] then (args, 0)
    else
      var prev := ReplaceFns(args, fnArgs[..|fnArgs| - 1]);
      var idx := fnArgs[|fnArgs| - 1];
      if prev.0[idx].FunctionExpression? then (prev.0[idx := Arrow(prev.0[idx])], prev.1 + 1) else prev
  }

  /** Each slot ends up as the arrow of its function expression when it is a listed position, and unchanged otherwise. */
  lemma {:induction false} ReplaceFnsSlots(args: seq<Node>, fnArgs: seq<nat>)
    requires forall k :: 0 <= k < |fnArgs| ==> fnArgs[k] < |args|
    ensures forall i :: 0 <= i < |args| ==>
      ReplaceFns(args, fnArgs).0[i] == (if i in fnArgs && args[i].FunctionExpression? then Arrow(args[i]) else args[i])
    decreases |fnArgs|
  {
    if fnArgs != [] {
      var init := fnArgs[..|fnArgs| - 1];
      ReplaceFnsSlots(args, init);
      assert fnArgs == init + [fnArgs[|fnArgs| - 1]];
    }
  }

  /** The positions, among `fnArgs`, holding a function expression. */
  function FunctionSlots(args: seq<Node>, fnArgs: seq<nat>): seq<nat>
  {
    Filter(fnArgs, (idx: nat) => idx < |args| && args[idx].FunctionExpression?)
  }

  /** With distinct positions, the count is the number of listed positions that held a function expression. */
  lemma {:induction false} ReplaceFnsCount(args: seq<Node>, fnArgs: seq<nat>)
    requires forall k :: 0 <= k < |fnArgs| ==> fnArgs[k] < |args|
    requires Distinct(fnArgs)
    ensures ReplaceFns(args, fnArgs).1 == |FunctionSlots(args, fnArgs)|
    decreases |fnArgs|
  {
    if fnArgs != [] {
      var init := fnArgs[..|fnArgs| - 1];
      var idx := fnArgs[|fnArgs| - 1];
      ReplaceFnsCount(args, init);
      ReplaceFnsSlots(args, init);
      assert idx !in init;
      assert fnArgs == init + [idx];
      FilterAppend(init, idx, (idx: nat) => idx < |args| && args[idx].FunctionExpression?);
    }
  }

  /** The outcome for one selected call's arguments; `completed` says the `this` step ran. */
  datatype CallResult = CallResult(args: seq<Node>, count: nat, completed: bool)

  /**
   * The work of the `forEach` callback on one selected node: nothing unless
   * the `this` check passes; then the callbacks are converted, and when all
   * of them were, the `this` argument is popped if it is last and replaced
   * by `undefined` otherwise.
   */
  function ResolveCall(args: seq<Node>, pat: Pattern): (r: CallResult)
    requires WellFormed(pat)
  {
    if !ThisPassed(args, pat) then CallResult(args, 0, false)
    else
      var t := pat.thisArg.value;
      var (a, c) := ReplaceFns(args, pat.fnArgs);
      if c != |pat.fnArgs| then CallResult(a, c, false)
      else if t == |a| - 1 then CallResult(a[..|a| - 1], c, true)
      else CallResult(a[t := Identifier("undefined")], c, true)
  }

  /** Without the `this` argument in place nothing changes. */
  lemma ResolveCallGuard(args: seq<Node>, pat: Pattern)
    requires WellFormed(pat)
    ensures !ThisPassed(args, pat) ==> ResolveCall(args, pat) == CallResult(args, 0, false)
    ensures ThisPassed(args, pat) ==> forall k :: 0 <= k < |pat.fnArgs| ==> pat.fnArgs[k] < |args|
  {
  }

  /** The count is the number of callback slots that held a function expression; the `this` step runs exactly when that is all of them. */
  lemma ResolveCallCount(args: seq<Node>, pat: Pattern)
    requires WellFormed(pat) && ThisPassed(args, pat)
    ensures ResolveCall(args, pat).count == |FunctionSlots(args, pat.fnArgs)|
    ensures ResolveCall(args, pat).completed <==>
      forall k :: 0 <= k < |pat.fnArgs| ==> args[pat.fnArgs[k]].FunctionExpression?
  {
    ReplaceFnsCount(args, pat.fnArgs);
    FilterFull(pat.fnArgs, (idx: nat) => idx < |args| && args[idx].FunctionExpression?);
  }

  /**
   * The list shrinks by one exactly when the `this` argument was last and
   * dropped; it is `undefined` when it stays; listed function expressions
   * become arrows and every other argument keeps its place.
   */
  lemma ResolveCallShape(args: seq<Node>, pat: Pattern)
    requires WellFormed(pat) && ThisPassed(args, pat)
    ensures var r := ResolveCall(args, pat); var t := pat.thisArg.value;
      (|r.args| == |args| - 1 <==> r.completed && t == |args| - 1) &&
      (!(r.completed && t == |args| - 1) ==> |r.args| == |args|) &&
      (r.completed && t < |args| - 1 ==> r.args[t] == Identifier("undefined")) &&
      (forall i :: 0 <= i < |r.args| && i != t ==>
        r.args[i] == (if i in pat.fnArgs && args[i].FunctionExpression? then Arrow(args[i]) else args[i]))
  {
    ReplaceFnsSlots(args, pat.fnArgs);
  }

  /** A pattern without a `this` position never changes anything: the first `goog.events.listenOnce` entry. */
  lemma ListenOnceWithoutThis(args: seq<Node>)
    ensures Patterns[1].callee == "goog.events.listenOnce"
    ensures ResolveCall(args, Patterns[1]) == CallResult(args, 0, false)
  {
  }

  /** The per-call method: the `fnArgs.forEach` loop writes into the argument list and counts. */
  method ResolveArgs(args: seq<Node>, pat: Pattern) returns (res: seq<Node>, count: nat, completed: bool)
    requires WellFormed(pat)
    ensures CallResult(res, count, completed) == ResolveCall(args, pat)
  {
    res, count, completed := args, 0, false;
    if !ThisPassed(args, pat) {
      return;
    }
    var t := pat.thisArg.value;
    var fnArgs := pat.fnArgs;
    var k := 0;
    while k < |fnArgs|
      invariant 0 <= k <= |fnArgs|
      invariant (res, count) == ReplaceFns(args, fnArgs[..k])
    {
      var idx := fnArgs[k];
      assert fnArgs[..k + 1][..k] == fnArgs[..k];
      if res[idx].FunctionExpression? {
        res := res[idx := Arrow(res[idx])];
        count := count + 1;
      }
      k := k + 1;
    }
    assert fnArgs[..k] == fnArgs;
    if count == |fnArgs| {
      completed := true;
      if t == |res| - 1 {
        res := res[..|res| - 1];
      } else {
        res := res[t := Identifier("undefined")];
      }
    }
  }

  /**
   * One selected node after its callback; the `goog.bind` post-step replaces
   * the call by its only argument when one argument is left.
   */
  function ResolveAt(n: Node, pat: Pattern): (r: (Node, nat))
    requires WellFormed(pat)
  {
    if !Selected(n, pat) then (n, 0)
    else
      var c := ResolveCall(n.arguments, pat);
      if pat.unwrapBind && c.completed && |c.args| == 1 then (c.args[0], c.count)
      else (n.(arguments := c.args), c.count)
  }

  /** The `goog.bind` post-step unwraps only a completed call left with exactly one argument. */
  lemma UnwrapOnlySingle(n: Node, pat: Pattern)
    requires WellFormed(pat) && Selected(n, pat)
    ensures var c := ResolveCall(n.arguments, pat);
      (pat.unwrapBind && c.completed && |c.args| == 1 ==> ResolveAt(n, pat).0 == c.args[0]) &&
      (!(pat.unwrapBind && c.completed && |c.args| == 1) ==>
        ResolveAt(n, pat).0 == n.(arguments := c.args))
  {
  }

  /**
   * Every selected node of `n` rewritten, with the number of callbacks
   * converted. The children go first, where `find(...).forEach` visits the
   * outer call first. Matching looks at a node's callee and argument types,
   * which no rewrite below changes, so the same calls are selected; the
   * results differ only where an inner selected call sits in a callback
   * whose single return the outer rewrite lifts into an arrow's body: the
   * source then writes the inner replacement into the detached return
   * statement and keeps the inner call there.
   */
  function ResolveNode(n: Node, pat: Pattern): (r: (Node, nat))
    requires WellFormed(pat)
    decreases n, 1
  {
    var (cs, k) := ResolveChildren(Children(n), pat, n);
    var (m, c) := ResolveAt(WithChildren(n, cs), pat);
    (m, k + c)
  }

  function ResolveChildren(cs: seq<Node>, pat: Pattern, parent: Node): (r: (seq<Node>, nat))
    requires WellFormed(pat)
    requires forall i :: 0 <= i < |cs| ==> cs[i] < parent
    ensures |r.0| == |cs|
    decreases parent, 0, |cs|
  {
    if cs == [] then ([], 0)
    else
      var (h, a) := ResolveNode(cs[0], pat);
      var (t, b) := ResolveChildren(cs[1..], pat, parent);
      ([h] + t, a + b)
  }

  /** One pattern over the statements of a file. */
  function ResolveStatements(stmts: seq<Node>, pat: Pattern): (r: (seq<Node>, nat))
    requires WellFormed(pat)
    ensures |r.0| == |stmts|
  {
    if stmts == [] then ([], 0)
    else
      var (h, a) := ResolveNode(stmts[0], pat);
      var (t, b) := ResolveStatements(stmts[1..], pat);
      ([h] + t, a + b)
  }

  /** The patterns `pats`, in order, over the statements. */
  function ResolvePatterns(stmts: seq<Node>, pats: seq<Pattern>): (r: (seq<Node>, nat))
    requires forall k :: 0 <= k < |pats| ==> WellFormed(pats[k])
    decreases |pats|
  {
    if pats == [] then (stmts, 0)
    else
      var (s, a) := ResolvePatterns(stmts, pats[..|pats| - 1]);
      var (t, b) := ResolveStatements(s, pats[|pats| - 1]);
      (t, a + b)
  }

  /** `resolveThis(root)`: every pattern in turn over the file; the result is the number of callbacks converted. */
  method ResolveThisIn(p: Program) returns (totalReplaceCount: nat)
    modifies p
    ensures (p.body, totalReplaceCount) == ResolvePatterns(old(p.body), Patterns)
  {
    PatternsWellFormed();
    var body;
    body, totalReplaceCount := ApplyPatterns(p.body, Patterns);
    p.body := body;
  }

  /** The `PATTERNS.forEach` loop, over the statements of the file. */
  method ApplyPatterns(stmts: seq<Node>, pats: seq<Pattern>) returns (body: seq<Node>, total: nat)
    requires forall k :: 0 <= k < |pats| ==> WellFormed(pats[k])
    ensures (body, total) == ResolvePatterns(stmts, pats)
  {
    body, total := stmts, 0;
    var k := 0;
    while k < |pats|
      invariant 0 <= k <= |pats|
      invariant (body, total) == ResolvePatterns(stmts, pats[..k])
    {
      assert pats[..k + 1][..k] == pats[..k];
      var step := ResolveStatements(body, pats[k]);
      body, total := step.0, total + step.1;
      k := k + 1;
    }
    assert pats[..k] == pats;
  }

  /** Where the `this` check fires for the pattern. */
  function Fires(pat: Pattern): Node -> bool
  {
    (n: Node) => Selected(n, pat) && ThisPassed(n.arguments, pat)
  }

  /** A tree in which no selected call passes the `this` check is left as it is, and nothing is counted. */
  lemma {:induction false} NothingFiresUnchanged(n: Node, pat: Pattern)
    requires WellFormed(pat)
    requires !AnyNode(n, Fires(pat))
    ensures ResolveNode(n, pat) == (n, 0)
    decreases n, 1
  {
    var cs := Children(n);
    forall i | 0 <= i < |cs|
      ensures !AnyNode(cs[i], Fires(pat))
    {
    }
    ChildrenUnchanged(cs, pat, n);
    WithOwnChildren(n);
  }

  lemma {:induction false} ChildrenUnchanged(cs: seq<Node>, pat: Pattern, parent: Node)
    requires WellFormed(pat)
    requires forall i :: 0 <= i < |cs| ==> cs[i] < parent
    requires forall i :: 0 <= i < |cs| ==> !AnyNode(cs[i], Fires(pat))
    ensures ResolveChildren(cs, pat, parent) == (cs, 0)
    decreases parent, 0, |cs|
  {
    if cs != [] {
      NothingFiresUnchanged(cs[0], pat);
      ChildrenUnchanged(cs[1..], pat, parent);
      HeadTail(cs);
    }
  }
}
