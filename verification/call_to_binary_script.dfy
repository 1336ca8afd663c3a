/**
 * `scripts/calltobinary.js`, the older call-to-binary rewrite: the left
 * side is always the first argument, and the JSDoc check looks at both
 * branches of a conditional, only writes warnings, and deletes nothing.
 */
module CallToBinaryScript {
  import opened Wrappers
  import opened Strings
  import opened Ast
  import opened Seqs
  import opened CallToBinary

  /** The options of the older rewrite: the two operators and the right side. */
  datatype ScriptOptions = ScriptOptions(expression: string, notExpression: string, rightSide: Node)

  /** The same rewrite expressed in the options of `src/calltobinary.js`: the first argument as left side. */
  function AsBinaryOptions(opts: ScriptOptions): BinaryOptions
  {
    BinaryOptions(opts.expression, opts.notExpression, LeftArg, opts.rightSide)
  }

  /** A matched call without arguments: the builder is handed `undefined` as the left side. */
  function NoLeftSide(matches: Node -> bool): Node -> bool
  {
    (n: Node) => n.CallExpression? && matches(n) && |n.arguments| == 0
  }

  /** The failure when a matched call has no argument: `binaryExpression` rejects an undefined left side. */
  const UndefinedLeftError := "binaryExpression: left side is undefined"

  /** The matched calls, `root.find(j.CallExpression, callOptions)`. */
  function Matched(matches: Node -> bool): Node -> bool
  {
    (n: Node) => n.CallExpression? && matches(n)
  }

  /**
   * The older rewrite over the matched calls in document order: each is
   * replaced and walked from. The run stops at a call without arguments,
   * where the builder throws, or at a walk that throws; what was written
   * before stays written.
   */
  function ScriptRun(sites: seq<Site>, file: string, ann: Annotations, touched: map<Position, NodeFlags>)
    : (r: (Outcome, seq<string>))
    requires forall k :: 0 <= k < |sites| ==> sites[k].node.CallExpression?
    ensures r.0.Fail? ==> r.0 == Fail(UndefinedLeftError) || r.0 == Fail(NoLocationError)
    decreases |sites|
  {
    if sites == [] then (Pass, [])
    else
      var at := ScriptAt(sites[0], file, ann, touched);
      if at.0.Fail? then (at.0, [])
      else
        var rest := ScriptRun(sites[1..], file, ann, touched[Replaced(sites[0]) := Built]);
        (rest.0, (if at.1.Some? then [at.1.value] else []) + rest.1)
  }

  /** One matched call: the builder throws without an argument; otherwise the call is replaced and walked from. */
  function ScriptAt(s: Site, file: string, ann: Annotations, touched: map<Position, NodeFlags>): (Outcome, Option<string>)
    requires s.node.CallExpression?
  {
    if |s.node.arguments| == 0 then (Fail(UndefinedLeftError), None)
    else ScriptWalk(file, FramesOf(s.ancestors, ann, touched[Replaced(s) := Built]))
  }

  lemma ScriptRunUnfold(sites: seq<Site>, i: nat, file: string, ann: Annotations, touched: map<Position, NodeFlags>)
    requires forall k :: 0 <= k < |sites| ==> sites[k].node.CallExpression?
    requires i < |sites|
    ensures var at := ScriptAt(sites[i], file, ann, touched);
      var rest := ScriptRun(sites[i + 1..], file, ann, touched[Replaced(sites[i]) := Built]);
      ScriptRun(sites[i..], file, ann, touched) ==
        if at.0.Fail? then (at.0, []) else (rest.0, (if at.1.Some? then [at.1.value] else []) + rest.1)
  {
    assert sites[i..][1..] == sites[i + 1..];
  }

  /** One iteration of the `forEach`, on what it throws and writes. */
  method ReplaceAt(s: Site, file: string, ann: Annotations, touched: map<Position, NodeFlags>) returns (r: Outcome, text: Option<string>)
    requires s.node.CallExpression?
    ensures (r, text) == ScriptAt(s, file, ann, touched)
  {
    if |s.node.arguments| == 0 {
      return Fail(UndefinedLeftError), None;
    }
    r, text := TestForJsdocWarningScript(file, FramesOf(s.ancestors, ann, touched[Replaced(s) := Built]), 0);
  }

  /**
   * `replaceCallWithBinaryExpression(file, api, callOptions, binaryOptions)`,
   * with `ann` what the parser records of each node: the run over the
   * matched calls decides whether the transform throws and what it writes;
   * when it throws the file is left as it was, otherwise every matched call
   * is replaced with its first argument as the left side.
   */
  method ReplaceCallWithBinaryExpression(p: Program, matches: Node -> bool, opts: ScriptOptions, file: string, ann: Annotations)
    returns (r: Outcome, written: seq<string>)
    modifies p
    ensures (r, written) == ScriptRun(SitesOf(old(p.body), 0, Matched(matches)), file, ann, map[])
    ensures r.Fail? ==> p.body == old(p.body)
    ensures r.Pass? ==> p.body == ConvertStatements(old(p.body), matches, AsBinaryOptions(opts))
  {
    var sites := SitesOf(p.body, 0, Matched(matches));
    assert forall k :: 0 <= k < |sites| ==> Matched(matches)(sites[k].node);
    r, written := ForEachMatch(sites, file, ann);
    if r.Pass? {
      p.body := ConvertStatements(p.body, matches, AsBinaryOptions(opts));
    }
  }

  /** The `forEach` over the matched calls, on what it throws and writes. */
  method ForEachMatch(sites: seq<Site>, file: string, ann: Annotations) returns (r: Outcome, written: seq<string>)
    requires forall k :: 0 <= k < |sites| ==> sites[k].node.CallExpression?
    ensures (r, written) == ScriptRun(sites, file, ann, map[])
  {
    var touched: map<Position, NodeFlags> := map[];
    written := [];
    var i := 0;
    assert sites[0..] == sites;
    ghost var whole := ScriptRun(sites, file, ann, map[]);
    assert written + whole.1 == whole.1;
    while i < |sites|
      invariant 0 <= i <= |sites|
      invariant var run := ScriptRun(sites[i..], file, ann, touched);
        ScriptRun(sites, file, ann, map[]) == (run.0, written + run.1)
    {
      ScriptRunUnfold(sites, i, file, ann, touched);
      var walk, text := ReplaceAt(sites[i], file, ann, touched);
      if walk.Fail? {
        assert written + [] == written;
        return walk, written;
      }
      ghost var before := written;
      ghost var wrote: seq<string> := if text.Some? then [text.value] else [];
      ghost var rest := ScriptRun(sites[i + 1..], file, ann, touched[Replaced(sites[i]) := Built]);
      assert ScriptRun(sites[i..], file, ann, touched) == (rest.0, wrote + rest.1);
      if text.Some? {
        written := written + [text.value];
      } else {
        assert written == before + wrote;
      }
      touched := touched[Replaced(sites[i]) := Built];
      Assoc(before, wrote, rest.1);
      i := i + 1;
    }
    assert sites[i..] == [];
    assert written + [] == written;
    r := Pass;
  }

  /** A matched call without arguments makes the run throw, there or at an earlier walk. */
  lemma ScriptFailsWithoutArgument(stmts: seq<Node>, matches: Node -> bool, file: string, ann: Annotations)
    requires AnyIn(stmts, NoLeftSide(matches))
    ensures ScriptRun(SitesOf(stmts, 0, Matched(matches)), file, ann, map[]).0.Fail?
  {
    var sites := SitesOf(stmts, 0, Matched(matches));
    assert forall m :: NoLeftSide(matches)(m) ==> Matched(matches)(m);
    SitesAreMatches(stmts, Matched(matches), NoLeftSide(matches));
    var k :| 0 <= k < |sites| && NoLeftSide(matches)(sites[k].node);
    RunFailsAt(sites, k, file, ann, map[]);
  }

  lemma {:induction false} RunFailsAt(sites: seq<Site>, k: nat, file: string, ann: Annotations, touched: map<Position, NodeFlags>)
    requires forall i :: 0 <= i < |sites| ==> sites[i].node.CallExpression?
    requires k < |sites| && |sites[k].node.arguments| == 0
    ensures ScriptRun(sites, file, ann, touched).0.Fail?
    decreases k
  {
    if k > 0 && |sites[0].node.arguments| != 0 {
      var t := touched[Replaced(sites[0]) := Built];
      RunFailsAt(sites[1..], k - 1, file, ann, t);
    }
  }

  /** With every node located and every matched call given an argument, the run does not throw. */
  lemma ScriptPassesWhenLocated(stmts: seq<Node>, matches: Node -> bool, file: string, ann: Annotations)
    requires forall q :: ann.line(q).Some?
    requires !AnyIn(stmts, NoLeftSide(matches))
    ensures ScriptRun(SitesOf(stmts, 0, Matched(matches)), file, ann, map[]).0 == Pass
  {
    var sites := SitesOf(stmts, 0, Matched(matches));
    assert forall m :: NoLeftSide(matches)(m) ==> Matched(matches)(m);
    SitesAreMatches(stmts, Matched(matches), NoLeftSide(matches));
    forall k | 0 <= k < |sites|
      ensures sites[k].node.CallExpression? && |sites[k].node.arguments| > 0
    {
      assert Matched(matches)(sites[k].node);
      assert !NoLeftSide(matches)(sites[k].node);
    }
    RunPasses(sites, file, ann, map[]);
  }

  lemma {:induction false} RunPasses(sites: seq<Site>, file: string, ann: Annotations, touched: map<Position, NodeFlags>)
    requires forall q :: ann.line(q).Some?
    requires forall i :: 0 <= i < |sites| ==> sites[i].node.CallExpression? && |sites[i].node.arguments| > 0
    ensures ScriptRun(sites, file, ann, touched).0 == Pass
    decreases |sites|
  {
    if sites != [] {
      var t := touched[Replaced(sites[0]) := Built];
      var frames := FramesOf(sites[0].ancestors, ann, t);
      assert forall k :: 0 <= k < |frames| ==> frames[k].line == ann.line(sites[0].ancestors[k].pos);
      assert ScriptWalk(file, frames).0 == Pass;
      RunPasses(sites[1..], file, ann, t);
    }
  }

  /** After a run that does not throw, no matched call with an argument is left, when the right side holds none. */
  lemma ScriptComplete(stmts: seq<Node>, matches: Node -> bool, opts: ScriptOptions)
    requires !AnyNode(opts.rightSide, Fires(matches, AsBinaryOptions(opts)))
    ensures !AnyIn(ConvertStatements(stmts, matches, AsBinaryOptions(opts)), Fires(matches, AsBinaryOptions(opts)))
  {
    LeftArgClean(matches, AsBinaryOptions(opts));
    ConvertStatementsClear(stmts, matches, AsBinaryOptions(opts));
  }

  /** With an argument, the older rewrite replaces a call exactly as the newer one does with no `leftSide` option. */
  lemma SameAsFirstArgument(call: Node, underNot: bool, matches: Node -> bool, opts: ScriptOptions)
    requires call.CallExpression? && matches(call) && |call.arguments| >= 1
    ensures !underNot ==>
      ConvertAt(call, underNot, matches, AsBinaryOptions(opts)) ==
        BinaryExpression(opts.expression, call.arguments[0], opts.rightSide)
    ensures ConvertAt(UnaryExpression("!", call), false, matches, AsBinaryOptions(opts)) ==
      BinaryExpression(opts.notExpression, call.arguments[0], opts.rightSide)
  {
  }

  /** `isParenthesizedWithLeadingComments` of this file: only `leadingComments` counts. */
  predicate ScriptHazard(f: NodeFlags)
  {
    f.leadingComments > 0 && f.parenthesized
  }

  predicate ScriptReturnHazard(frames: seq<Frame>, j: nat)
  {
    j + 1 < |frames| && frames[j].kind == ObjectExpressionFrame && ScriptHazard(frames[j].flags) &&
    frames[j + 1].kind == ReturnStatementFrame
  }

  /** Both branches of a conditional are checked. */
  predicate ScriptConditionalHazard(frames: seq<Frame>, j: nat)
  {
    j < |frames| && frames[j].kind == ConditionalExpressionFrame &&
    (ScriptHazard(frames[j].consequent) || ScriptHazard(frames[j].alternate))
  }

  function ScriptStop(frames: seq<Frame>, i: nat): (j: nat)
    requires i <= |frames|
    ensures i <= j <= |frames|
    ensures j < |frames| ==> ScriptReturnHazard(frames, j) || ScriptConditionalHazard(frames, j)
    ensures forall k :: i <= k < j ==> !ScriptReturnHazard(frames, k) && !ScriptConditionalHazard(frames, k)
    decreases |frames| - i
  {
    if i == |frames| then i
    else if ScriptReturnHazard(frames, i) || ScriptConditionalHazard(frames, i) then i
    else ScriptStop(frames, i + 1)
  }

  /** What the older walk from `path.parent` does, as a function of the frames: whether it throws, and what it writes. */
  function ScriptWalk(file: string, frames: seq<Frame>): (Outcome, Option<string>)
  {
    var j := ScriptStop(frames, 0);
    if j == |frames| then (Pass, None)
    else
      var atReturn := ScriptReturnHazard(frames, j);
      var line := if atReturn then frames[j + 1].line else frames[j].line;
      if line.None? then (Fail(NoLocationError), None)
      else (Pass, Some(ScriptWarning(file, line.value, if atReturn then ObjectCaveat else ConditionalScriptCaveat)))
  }

  /** `colors.yellow(s)` */
  function Yellow(s: string): string
  {
    "\U{1b}[33m" + s + "\U{1b}[39m"
  }

  const ObjectCaveat := "JSDoc comment block may have been moved inside object literal parentheses. Verify diff before proceeding.\n"
  const ConditionalScriptCaveat := "JSDoc comment block may have been removed from conditional statement. Verify diff before proceeding.\n"

  /** What is written to standard output: a yellow tag, the file and line, and the caveat. */
  function ScriptWarning(file: string, line: nat, caveat: string): string
  {
    Yellow("[WARNING] ") + file + ":" + NatToString(line) + ": " + caveat
  }

  /** Reading `loc.start.line` of a node without a location. */
  const NoLocationError := "Cannot read properties of undefined (reading 'start')"

  /**
   * `testForJsdocWarning(file, api, path)` of this file, with `frames` the
   * ancestors nearest first and `i` the position of `path.parent`: the text
   * it writes, if any. Reading the line of a node without a location throws.
   */
  method TestForJsdocWarningScript(file: string, frames: seq<Frame>, i: nat) returns (r: Outcome, written: Option<string>)
    requires i <= |frames|
    ensures ScriptStop(frames, i) == |frames| ==> r == Pass && written == None
    ensures var j := ScriptStop(frames, i); j < |frames| && ScriptReturnHazard(frames, j) ==>
      (frames[j + 1].line.None? ==> r == Fail(NoLocationError) && written == None) &&
      (frames[j + 1].line.Some? ==> r == Pass && written == Some(ScriptWarning(file, frames[j + 1].line.value, ObjectCaveat)))
    ensures var j := ScriptStop(frames, i); j < |frames| && !ScriptReturnHazard(frames, j) ==>
      (frames[j].line.None? ==> r == Fail(NoLocationError) && written == None) &&
      (frames[j].line.Some? ==> r == Pass && written == Some(ScriptWarning(file, frames[j].line.value, ConditionalScriptCaveat)))
    decreases |frames| - i
  {
    if i == |frames| {
      return Pass, None;
    }
    var parentNode := frames[i];
    if parentNode.kind == ObjectExpressionFrame && ScriptHazard(parentNode.flags) {
      if i + 1 < |frames| && frames[i + 1].kind == ReturnStatementFrame {
        var pParentNode := frames[i + 1];
        if pParentNode.line.None? {
          return Fail(NoLocationError), None;
        }
        return Pass, Some(ScriptWarning(file, pParentNode.line.value, ObjectCaveat));
      }
    }
    if parentNode.kind == ConditionalExpressionFrame &&
       (ScriptHazard(parentNode.consequent) || ScriptHazard(parentNode.alternate)) {
      if parentNode.line.None? {
        return Fail(NoLocationError), None;
      }
      return Pass, Some(ScriptWarning(file, parentNode.line.value, ConditionalScriptCaveat));
    }
    r, written := TestForJsdocWarningScript(file, frames, i + 1);
  }

  /**
   * Where the two walks differ: a commented, parenthesized alternate stops
   * the older walk but not the newer one, and comments that are only in the
   * `comments` array are seen by the newer walk alone.
   */
  lemma WalksDiffer(flagged: NodeFlags, plain: NodeFlags, line: nat)
    requires flagged.leadingComments > 0 && flagged.parenthesized
    requires plain.leadingComments == 0 && plain.comments == []
    ensures var frames := [Frame(ConditionalExpressionFrame, plain, plain, flagged, Some(line))];
      ScriptStop(frames, 0) == 0 && FirstStop(frames, 0) == 1
    ensures var lead := NodeFlags(0, [Comment(Block, Text("*"), true)], true);
      var frames := [Frame(ObjectExpressionFrame, lead, plain, plain, None), Frame(ReturnStatementFrame, plain, plain, plain, Some(line))];
      FirstStop(frames, 0) == 0 && ScriptStop(frames, 0) == 2
  {
    var frames := [Frame(ConditionalExpressionFrame, plain, plain, flagged, Some(line))];
    assert !AnyLeading(plain.comments);
    assert !ConditionalHazard(frames, 0);
    var lead := NodeFlags(0, [Comment(Block, Text("*"), true)], true);
    assert AnyLeading(lead.comments);
  }
}
