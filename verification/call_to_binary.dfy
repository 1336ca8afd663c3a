/**
 * `src/calltobinary.js`: matched calls `f(x)` become binary expressions
 * `left op right` (`!f(x)` as a whole becomes `left notOp right`), and the
 * ancestors of a replaced node are checked for JSDoc comments recast would
 * misplace. `src/transforms/goog/string/contains.js` supplies its own left
 * side; the `goog.isX` transforms are tables of options.
 */
module CallToBinary {
  import opened Wrappers
  import opened Strings
  import opened Seqs
  import opened Ast
  import opened AstUtils
  import opened Logger

  /** `options.leftSide`: a function of the call, a fixed node, or absent (the first argument is used). */
  datatype LeftSide = LeftFn(f: Node -> Option<Node>) | LeftConst(node: Node) | LeftArg

  /** The binary-expression options: the two operators, the left side and the right side. */
  datatype BinaryOptions = BinaryOptions(expression: string, notExpression: string, leftSide: LeftSide, rightSide: Node)

  /** `getLeftSide(path, options)`: `None` stands for every falsy result. */
  function GetLeftSide(call: Node, opts: BinaryOptions): (r: Option<Node>)
    requires call.CallExpression?
    ensures opts.leftSide.LeftFn? ==> r == opts.leftSide.f(call)
    ensures opts.leftSide.LeftConst? ==> r == Some(opts.leftSide.node)
    ensures opts.leftSide.LeftArg? ==> (r.Some? <==> |call.arguments| >= 1)
    ensures opts.leftSide.LeftArg? && r.Some? ==> r.value == call.arguments[0]
  {
    match opts.leftSide
    case LeftFn(f) => f(call)
    case LeftConst(c) => Some(c)
    case LeftArg => if |call.arguments| >= 1 then Some(call.arguments[0]) else None
  }

  /** A matched call that has a left side: the calls the `forEach` replaces. */
  predicate Replaceable(n: Node, matches: Node -> bool, opts: BinaryOptions)
  {
    n.CallExpression? && matches(n) && GetLeftSide(n, opts).Some?
  }

  predicate IsNot(n: Node)
  {
    n.UnaryExpression? && n.operator == "!"
  }

  /**
   * The replacement at one node whose children are already converted:
   * `!f(x)` as a whole, or `f(x)` when its parent is not a `!`.
   */
  function ConvertAt(m: Node, underNot: bool, matches: Node -> bool, opts: BinaryOptions): Node
  {
    if IsNot(m) && Replaceable(m.argument, matches, opts) then
      BinaryExpression(opts.notExpression, GetLeftSide(m.argument, opts).value, opts.rightSide)
    else if !underNot && Replaceable(m, matches, opts) then
      BinaryExpression(opts.expression, GetLeftSide(m, opts).value, opts.rightSide)
    else m
  }

  /** The three cases of a replacement, and that nothing else changes. */
  lemma ConvertAtCases(m: Node, underNot: bool, matches: Node -> bool, opts: BinaryOptions)
    ensures IsNot(m) && Replaceable(m.argument, matches, opts) ==>
      ConvertAt(m, underNot, matches, opts) ==
        BinaryExpression(opts.notExpression, GetLeftSide(m.argument, opts).value, opts.rightSide)
    ensures !underNot && Replaceable(m, matches, opts) ==>
      ConvertAt(m, underNot, matches, opts) == BinaryExpression(opts.expression, GetLeftSide(m, opts).value, opts.rightSide)
    ensures underNot && m.CallExpression? ==> ConvertAt(m, underNot, matches, opts) == m
    ensures m.CallExpression? && GetLeftSide(m, opts).None? ==> ConvertAt(m, underNot, matches, opts) == m
    ensures !(IsNot(m) && Replaceable(m.argument, matches, opts)) && !Replaceable(m, matches, opts) ==>
      ConvertAt(m, underNot, matches, opts) == m
  {
  }

  /**
   * Every replaceable call in `n` replaced, children first. The `forEach`
   * goes through the matches in document order, outer calls first; the two
   * orders give the same tree unless one match lies inside another's
   * replaced subtree, where the inner path the source replaces afterwards
   * is no longer in the tree.
   */
  function Convert(n: Node, underNot: bool, matches: Node -> bool, opts: BinaryOptions): Node
    decreases n, 1
  {
    var cs := ConvertChildren(Children(n), IsNot(n), matches, opts, n);
    ConvertAt(WithChildren(n, cs), underNot, matches, opts)
  }

  function ConvertChildren(cs: seq<Node>, underNot: bool, matches: Node -> bool, opts: BinaryOptions, parent: Node)
    : (r: seq<Node>)
    requires forall i :: 0 <= i < |cs| ==> cs[i] < parent
    ensures |r| == |cs|
    decreases parent, 0, |cs|
  {
    if cs == [] then [] else [Convert(cs[0], underNot, matches, opts)] + ConvertChildren(cs[1..], underNot, matches, opts, parent)
  }

  /** The statements of the file, converted. */
  function ConvertStatements(stmts: seq<Node>, matches: Node -> bool, opts: BinaryOptions): (r: seq<Node>)
    ensures |r| == |stmts|
  {
    if stmts == [] then [] else [Convert(stmts[0], false, matches, opts)] + ConvertStatements(stmts[1..], matches, opts)
  }

  /** Where a replacement happens. */
  function Fires(matches: Node -> bool, opts: BinaryOptions): Node -> bool
  {
    (n: Node) => Replaceable(n, matches, opts)
  }

  /** A tree without a replaceable call is left as it is. */
  lemma {:induction false} NothingReplaceableUnchanged(n: Node, underNot: bool, matches: Node -> bool, opts: BinaryOptions)
    requires !AnyNode(n, Fires(matches, opts))
    ensures Convert(n, underNot, matches, opts) == n
    decreases n, 1
  {
    var cs := Children(n);
    forall i | 0 <= i < |cs|
      ensures !AnyNode(cs[i], Fires(matches, opts))
    {
    }
    ChildrenUnchanged(cs, IsNot(n), matches, opts, n);
    WithOwnChildren(n);
    if IsNot(n) {
      assert n.argument == cs[0];
    }
  }

  lemma {:induction false} ChildrenUnchanged(cs: seq<Node>, underNot: bool, matches: Node -> bool, opts: BinaryOptions, parent: Node)
    requires forall i :: 0 <= i < |cs| ==> cs[i] < parent
    requires forall i :: 0 <= i < |cs| ==> !AnyNode(cs[i], Fires(matches, opts))
    ensures ConvertChildren(cs, underNot, matches, opts, parent) == cs
    decreases parent, 0, |cs|
  {
    if cs != [] {
      NothingReplaceableUnchanged(cs[0], underNot, matches, opts);
      ChildrenUnchanged(cs[1..], underNot, matches, opts, parent);
      HeadTail(cs);
    }
  }

  /**
   * What a replacement brings in holds no replaceable call: the right side,
   * and the left side of any call with none below it.
   */
  ghost predicate SidesClean(matches: Node -> bool, opts: BinaryOptions)
  {
    !AnyNode(opts.rightSide, Fires(matches, opts)) &&
    forall c: Node :: c.CallExpression? && NoneBelow(c, Fires(matches, opts)) && GetLeftSide(c, opts).Some? ==>
      !AnyNode(GetLeftSide(c, opts).value, Fires(matches, opts))
  }

  lemma BinaryClean(op: string, left: Node, right: Node, P: Node -> bool)
    requires !AnyNode(left, P) && !AnyNode(right, P)
    ensures NoneBelow(BinaryExpression(op, left, right), P)
  {
    assert Children(BinaryExpression(op, left, right)) == [left, right];
  }

  /**
   * After the conversion no replaceable call is left below the root, and
   * the root is one only under a `!` (which its parent then replaces).
   */
  lemma {:induction false} ConvertClears(n: Node, underNot: bool, matches: Node -> bool, opts: BinaryOptions)
    requires SidesClean(matches, opts)
    ensures NoneBelow(Convert(n, underNot, matches, opts), Fires(matches, opts))
    ensures Replaceable(Convert(n, underNot, matches, opts), matches, opts) ==> underNot
    decreases n, 1
  {
    var cs := ConvertChildren(Children(n), IsNot(n), matches, opts, n);
    ChildrenClear(Children(n), IsNot(n), matches, opts, n);
    var w := WithChildren(n, cs);
    ChildrenOfWithChildren(n, cs);
    RebuiltNot(n, cs);
    forall i | 0 <= i < |Children(w)|
      ensures NoneBelow(Children(w)[i], Fires(matches, opts))
      ensures Replaceable(Children(w)[i], matches, opts) ==> IsNot(w)
    {
      assert Children(w)[i] == cs[i];
      assert NoneBelow(cs[i], Fires(matches, opts));
      assert Replaceable(cs[i], matches, opts) ==> IsNot(n);
    }
    ConvertAtClears(w, underNot, matches, opts);
  }

  /** Rebuilding keeps a `!` a `!`, and anything else not one. */
  lemma RebuiltNot(n: Node, cs: seq<Node>)
    requires |cs| == |Children(n)|
    ensures IsNot(WithChildren(n, cs)) <==> IsNot(n)
  {
  }

  /** One replacement step keeps the conversion's promise, given the children's. */
  lemma ConvertAtClears(w: Node, underNot: bool, matches: Node -> bool, opts: BinaryOptions)
    requires SidesClean(matches, opts)
    requires forall i :: 0 <= i < |Children(w)| ==>
      NoneBelow(Children(w)[i], Fires(matches, opts)) && (Replaceable(Children(w)[i], matches, opts) ==> IsNot(w))
    ensures NoneBelow(ConvertAt(w, underNot, matches, opts), Fires(matches, opts))
    ensures Replaceable(ConvertAt(w, underNot, matches, opts), matches, opts) ==> underNot
  {
    var F := Fires(matches, opts);
    var cs := Children(w);
    ConvertAtCases(w, underNot, matches, opts);
    if IsNot(w) {
      assert cs == [w.argument];
      if Replaceable(w.argument, matches, opts) {
        assert NoneBelow(cs[0], F);
        assert !AnyNode(GetLeftSide(w.argument, opts).value, F);
        BinaryClean(opts.notExpression, GetLeftSide(w.argument, opts).value, opts.rightSide, F);
      } else {
        assert F(cs[0]) == Replaceable(cs[0], matches, opts);
        NoneAt(cs[0], F);
      }
    } else {
      forall i | 0 <= i < |cs|
        ensures !AnyNode(cs[i], F)
      {
        assert F(cs[i]) == Replaceable(cs[i], matches, opts);
        NoneAt(cs[i], F);
      }
      if !underNot && Replaceable(w, matches, opts) {
        BinaryClean(opts.expression, GetLeftSide(w, opts).value, opts.rightSide, F);
      }
    }
  }

  lemma {:induction false} ChildrenClear(cs: seq<Node>, underNot: bool, matches: Node -> bool, opts: BinaryOptions, parent: Node)
    requires forall i :: 0 <= i < |cs| ==> cs[i] < parent
    requires SidesClean(matches, opts)
    ensures forall i :: 0 <= i < |cs| ==> NoneBelow(ConvertChildren(cs, underNot, matches, opts, parent)[i], Fires(matches, opts))
    ensures forall i :: 0 <= i < |cs| ==>
      Replaceable(ConvertChildren(cs, underNot, matches, opts, parent)[i], matches, opts) ==> underNot
    decreases parent, 0, |cs|
  {
    ConvertChildrenAt(cs, underNot, matches, opts, parent);
    forall i | 0 <= i < |cs|
      ensures NoneBelow(Convert(cs[i], underNot, matches, opts), Fires(matches, opts))
      ensures Replaceable(Convert(cs[i], underNot, matches, opts), matches, opts) ==> underNot
    {
      ConvertClears(cs[i], underNot, matches, opts);
    }
  }

  /** The children are converted one by one. */
  lemma {:induction false} ConvertChildrenAt(cs: seq<Node>, underNot: bool, matches: Node -> bool, opts: BinaryOptions, parent: Node)
    requires forall i :: 0 <= i < |cs| ==> cs[i] < parent
    ensures forall i :: 0 <= i < |cs| ==>
      ConvertChildren(cs, underNot, matches, opts, parent)[i] == Convert(cs[i], underNot, matches, opts)
    decreases |cs|
  {
    if cs != [] {
      ConvertChildrenAt(cs[1..], underNot, matches, opts, parent);
    }
  }

  /** Completeness: when replacements bring in no replaceable call, none is left in the file. */
  lemma {:induction false} ConvertStatementsClear(stmts: seq<Node>, matches: Node -> bool, opts: BinaryOptions)
    requires SidesClean(matches, opts)
    ensures !AnyIn(ConvertStatements(stmts, matches, opts), Fires(matches, opts))
  {
    if stmts != [] {
      var r := ConvertStatements(stmts, matches, opts);
      ConvertClears(stmts[0], false, matches, opts);
      NoneAt(r[0], Fires(matches, opts));
      ConvertStatementsClear(stmts[1..], matches, opts);
      AnyInHeadTail(r, Fires(matches, opts));
    }
  }

  /** The first argument as left side never brings in a replaceable call: it was converted with the call's children. */
  lemma LeftArgClean(matches: Node -> bool, opts: BinaryOptions)
    requires opts.leftSide.LeftArg? && !AnyNode(opts.rightSide, Fires(matches, opts))
    ensures SidesClean(matches, opts)
  {
    forall c: Node | c.CallExpression? && NoneBelow(c, Fires(matches, opts)) && GetLeftSide(c, opts).Some?
      ensures !AnyNode(GetLeftSide(c, opts).value, Fires(matches, opts))
    {
      assert Children(c)[1] == c.arguments[0];
    }
  }

  // ---- the JSDoc hazard walk ----

  /** What the walk reads of a node: leading comments, the `comments` array and the parenthesized flags. */
  datatype NodeFlags = NodeFlags(leadingComments: nat, comments: seq<Comment>, parenthesized: bool)

  datatype FrameKind = ObjectExpressionFrame | ReturnStatementFrame | ConditionalExpressionFrame | OtherFrame

  /**
   * One ancestor of the replaced node: its type, its flags, the flags of its
   * consequent and alternate (for a conditional) and its start line, if known.
   */
  datatype Frame = Frame(kind: FrameKind, flags: NodeFlags, consequent: NodeFlags, alternate: NodeFlags, line: Option<nat>)

  /** `hasLeadingComments`: a non-empty `leadingComments`, or a `comments` entry marked leading. */
  predicate HasLeadingComments(f: NodeFlags)
  {
    f.leadingComments > 0 || AnyLeading(f.comments)
  }

  /** `comments.some(comment => comment.leading)` */
  predicate AnyLeading(comments: seq<Comment>)
  {
    comments != [] && (comments[0].leading || AnyLeading(comments[1..]))
  }

  predicate IsParenthesizedWithLeadingComments(f: NodeFlags)
  {
    HasLeadingComments(f) && f.parenthesized
  }

  /** `getLogWarningPrefix(file, line)` */
  function GetLogWarningPrefix(file: string, line: Option<nat>): (r: string)
    ensures line.None? ==> r == file + ": "
    ensures line.Some? ==> r == file + ":" + NatToString(line.value) + ": "
  {
    file + (if line.Some? then ":" + NatToString(line.value) else "") + ": "
  }

  /** The two prefixes cannot be confused: with a line the text after the file name starts with a digit, after `:`. */
  lemma PrefixShapes(file: string, line: nat)
    ensures GetLogWarningPrefix(file, Some(line)) != GetLogWarningPrefix(file, None)
    ensures StartsWith(GetLogWarningPrefix(file, Some(line)), file + ":")
  {
    var a := GetLogWarningPrefix(file, Some(line));
    var digits := NatToString(line);
    assert a[|file| + 1] == digits[0];
    assert IsDigit(digits[0]);
    assert a[..|file| + 1] == file + ":";
  }

  const ReturnCaveat := "JSDoc @type comment removed to avoid a recast formatting issue. Check the diff/build and " +
    "determine if the comment should be restored."

  const ConditionalCaveat := "JSDoc comment block may have been removed from LHS of conditional statement. Check the " +
    "diff/build and determine if the comment should be restored."

  /** `logReturnWarning(file, line)`'s message. */
  function ReturnWarning(file: string, line: Option<nat>): string
  {
    GetLogWarningPrefix(file, line) + ReturnCaveat
  }

  /** `logConditionalWarning(file, line)`'s message. */
  function ConditionalWarning(file: string, line: Option<nat>): string
  {
    GetLogWarningPrefix(file, line) + ConditionalCaveat
  }

  /** A parenthesized, commented object literal right under a `return`. */
  predicate ReturnHazard(frames: seq<Frame>, j: nat)
  {
    j + 1 < |frames| && frames[j].kind == ObjectExpressionFrame &&
    IsParenthesizedWithLeadingComments(frames[j].flags) && frames[j + 1].kind == ReturnStatementFrame
  }

  /** A conditional whose consequent is parenthesized with leading comments; the alternate is not looked at. */
  predicate ConditionalHazard(frames: seq<Frame>, j: nat)
  {
    j < |frames| && frames[j].kind == ConditionalExpressionFrame &&
    IsParenthesizedWithLeadingComments(frames[j].consequent)
  }

  /** The first ancestor, from `i` outwards, where the walk stops; `|frames|` when it reaches the root. */
  function FirstStop(frames: seq<Frame>, i: nat): (j: nat)
    requires i <= |frames|
    ensures i <= j <= |frames|
    ensures j < |frames| ==> ReturnHazard(frames, j) || ConditionalHazard(frames, j)
    ensures forall k :: i <= k < j ==> !ReturnHazard(frames, k) && !ConditionalHazard(frames, k)
    decreases |frames| - i
  {
    if i == |frames| then i
    else if ReturnHazard(frames, i) || ConditionalHazard(frames, i) then i
    else FirstStop(frames, i + 1)
  }

  /** `frames` with the comments of the object literal at `j` deleted. */
  function DeleteComments(frames: seq<Frame>, j: nat): seq<Frame>
    requires j < |frames|
  {
    frames[j := frames[j].(flags := frames[j].flags.(comments := []))]
  }

  /**
   * `testForJsdocWarning(file, path)`, with `frames` the ancestors of the
   * replaced node, nearest first, and `i` the position of `path.parent`:
   * the walk goes outwards until a hazard; under a `return` it deletes the
   * object's comments and warns, at a conditional it only warns.
   */
  method TestForJsdocWarning(file: string, frames: seq<Frame>, i: nat, log: Log) returns (updated: seq<Frame>)
    requires i <= |frames|
    modifies log
    ensures FirstStop(frames, i) == |frames| ==> updated == frames && log.warnings == old(log.warnings)
    ensures var j := FirstStop(frames, i); j < |frames| && ReturnHazard(frames, j) ==>
      updated == DeleteComments(frames, j) && log.warnings == old(log.warnings) + [ReturnWarning(file, frames[j + 1].line)]
    ensures var j := FirstStop(frames, i); j < |frames| && !ReturnHazard(frames, j) ==>
      updated == frames && log.warnings == old(log.warnings) + [ConditionalWarning(file, frames[j].line)]
    ensures log.infos == old(log.infos)
    decreases |frames| - i
  {
    if i == |frames| {
      return frames;
    }
    var parentNode := frames[i];
    if parentNode.kind == ObjectExpressionFrame && IsParenthesizedWithLeadingComments(parentNode.flags) {
      if i + 1 < |frames| && frames[i + 1].kind == ReturnStatementFrame {
        updated := DeleteComments(frames, i);
        log.Warn(ReturnWarning(file, frames[i + 1].line));
        return;
      }
    }
    if parentNode.kind == ConditionalExpressionFrame && IsParenthesizedWithLeadingComments(parentNode.consequent) {
      log.Warn(ConditionalWarning(file, parentNode.line));
      return frames;
    }
    updated := TestForJsdocWarning(file, frames, i + 1, log);
  }

  /** The walk deletes comments only on a commented, parenthesized object literal directly under a `return`, and nowhere else. */
  lemma DeletesOnlyUnderReturn(frames: seq<Frame>)
    ensures var j := FirstStop(frames, 0);
      j < |frames| && ReturnHazard(frames, j) ==>
        forall k :: 0 <= k < |frames| && k != j ==> DeleteComments(frames, j)[k] == frames[k]
    ensures var j := FirstStop(frames, 0);
      j < |frames| && ReturnHazard(frames, j) ==>
        (HasLeadingComments(DeleteComments(frames, j)[j].flags) <==> frames[j].flags.leadingComments > 0)
  {
  }

  /** The alternate of a conditional never matters to the walk. */
  lemma {:induction false} AlternateIgnored(frames: seq<Frame>, others: seq<Frame>, i: nat)
    requires |others| == |frames| && i <= |frames|
    requires forall k :: 0 <= k < |frames| ==> others[k] == frames[k].(alternate := others[k].alternate)
    ensures FirstStop(others, i) == FirstStop(frames, i)
    decreases |frames| - i
  {
    if i < |frames| {
      assert ReturnHazard(others, i) == ReturnHazard(frames, i);
      assert ConditionalHazard(others, i) == ConditionalHazard(frames, i);
      AlternateIgnored(frames, others, i + 1);
    }
  }

  // ---- the transform over a file ----

  /**
   * What the parser records of the node at each position and the tree
   * does not carry: its comments and parentheses, and its start line.
   */
  datatype Annotations = Annotations(flags: Position -> NodeFlags, line: Position -> Option<nat>)

  /** What the walk reads at a position, after the run's own changes: the node replaced there, or the comments deleted. */
  function FlagsAt(ann: Annotations, touched: map<Position, NodeFlags>, q: Position): NodeFlags
  {
    if q in touched then touched[q] else ann.flags(q)
  }

  /** The three node types the walk looks at. */
  function KindOf(n: Node): FrameKind
  {
    match n
    case ObjectExpression(_) => ObjectExpressionFrame
    case ReturnStatement(_) => ReturnStatementFrame
    case Other(k, cs) => if k == "ConditionalExpression" && |cs| == 3 then ConditionalExpressionFrame else OtherFrame
    case _ => OtherFrame
  }

  /** An ancestor as the walk sees it; a conditional's consequent and alternate are its children 1 and 2. */
  function FrameOf(a: Ancestor, ann: Annotations, touched: map<Position, NodeFlags>): Frame
  {
    Frame(KindOf(a.node), FlagsAt(ann, touched, a.pos), FlagsAt(ann, touched, a.pos + [1]),
          FlagsAt(ann, touched, a.pos + [2]), ann.line(a.pos))
  }

  function FramesOf(ancestors: seq<Ancestor>, ann: Annotations, touched: map<Position, NodeFlags>): (r: seq<Frame>)
    ensures |r| == |ancestors|
  {
    seq(|ancestors|, k requires 0 <= k < |ancestors| => FrameOf(ancestors[k], ann, touched))
  }

  /** A node made by the builder: no comments, not parenthesized. */
  const Built := NodeFlags(0, [], false)

  /** Where the replacement goes: the `!` above the call, or the call itself. */
  function Replaced(s: Site): Position
  {
    if s.ancestors != [] && IsNot(s.ancestors[0].node) then s.ancestors[0].pos else s.pos
  }

  /**
   * One replacement and the walk after it: the warning logged, and what the
   * walk then reads differently (the replaced node, and the comments deleted
   * from an object literal under a `return`).
   */
  function Step(s: Site, file: string, ann: Annotations, touched: map<Position, NodeFlags>)
    : (r: (seq<string>, map<Position, NodeFlags>))
    ensures |r.0| <= 1
  {
    var t := touched[Replaced(s) := Built];
    var frames := FramesOf(s.ancestors, ann, t);
    var j := FirstStop(frames, 0);
    if j == |frames| then ([], t)
    else if ReturnHazard(frames, j) then
      ([ReturnWarning(file, frames[j + 1].line)],
       if frames[j].flags.comments == [] then t else t[s.ancestors[j].pos := frames[j].flags.(comments := [])])
    else ([ConditionalWarning(file, frames[j].line)], t)
  }

  /** The replacements in order: the warnings logged, and what the walks read differently at the end. */
  function Walks(sites: seq<Site>, file: string, ann: Annotations, touched: map<Position, NodeFlags>)
    : (r: (seq<string>, map<Position, NodeFlags>))
    decreases |sites|
  {
    if sites == [] then ([], touched)
    else
      var first := Step(sites[0], file, ann, touched);
      var rest := Walks(sites[1..], file, ann, first.1);
      (first.0 + rest.0, rest.1)
  }

  /**
   * `callToBinary(file, callOptions, binaryOptions)`, with `callOptions` the
   * predicate `matches` and `ann` what the parser records of each node: the
   * file's statements become their converted form, and each replacement, in
   * document order, is followed by its walk. Returned is what the walks
   * leave different from `ann`.
   */
  method CallToBinaryIn(p: Program, matches: Node -> bool, opts: BinaryOptions, file: string, ann: Annotations, log: Log)
    returns (touched: map<Position, NodeFlags>)
    modifies p, log
    ensures p.body == ConvertStatements(old(p.body), matches, opts)
    ensures var run := Walks(SitesOf(old(p.body), 0, Fires(matches, opts)), file, ann, map[]);
      log.warnings == old(log.warnings) + run.0 && touched == run.1
    ensures log.infos == old(log.infos)
  {
    var sites := SitesOf(p.body, 0, Fires(matches, opts));
    p.body := ConvertStatements(p.body, matches, opts);
    touched := map[];
    var i := 0;
    while i < |sites|
      invariant 0 <= i <= |sites|
      invariant var run := Walks(sites[i..], file, ann, touched);
        log.warnings + run.0 == old(log.warnings) + Walks(sites, file, ann, map[]).0 &&
        run.1 == Walks(sites, file, ann, map[]).1
      invariant log.infos == old(log.infos)
      modifies log
    {
      ghost var before := log.warnings;
      ghost var logged := Step(sites[i], file, ann, touched).0;
      WalksUnfold(sites, i, file, ann, touched);
      touched := WalkAfter(sites[i], file, ann, touched, log);
      Assoc(before, logged, Walks(sites[i + 1..], file, ann, touched).0);
      i := i + 1;
    }
  }

  lemma WalksUnfold(sites: seq<Site>, i: nat, file: string, ann: Annotations, touched: map<Position, NodeFlags>)
    requires i < |sites|
    ensures var step := Step(sites[i], file, ann, touched);
      var rest := Walks(sites[i + 1..], file, ann, step.1);
      Walks(sites[i..], file, ann, touched) == (step.0 + rest.0, rest.1)
  {
    assert sites[i..][1..] == sites[i + 1..];
  }

  /** The walk after one replacement, with what it deletes written back to the positions. */
  method WalkAfter(s: Site, file: string, ann: Annotations, touched: map<Position, NodeFlags>, log: Log)
    returns (after: map<Position, NodeFlags>)
    modifies log
    ensures log.warnings == old(log.warnings) + Step(s, file, ann, touched).0
    ensures after == Step(s, file, ann, touched).1
    ensures log.infos == old(log.infos)
  {
    var t := touched[Replaced(s) := Built];
    var frames := FramesOf(s.ancestors, ann, t);
    var updated := TestForJsdocWarning(file, frames, 0, log);
    var j := FirstStop(frames, 0);
    if j < |frames| && updated[j] != frames[j] {
      t := t[s.ancestors[j].pos := updated[j].flags];
    }
    after := t;
  }

  /** Each replacement logs at most one warning. */
  lemma {:induction false} WalksWarnAtMostOnce(sites: seq<Site>, file: string, ann: Annotations, touched: map<Position, NodeFlags>)
    ensures |Walks(sites, file, ann, touched).0| <= |sites|
    decreases |sites|
  {
    if sites != [] {
      WalksWarnAtMostOnce(sites[1..], file, ann, Step(sites[0], file, ann, touched).1);
    }
  }

  /**
   * One replacement changes what is read only at the replaced node and at
   * an object literal above it, and there it only empties `comments`.
   */
  lemma StepKeeps(s: Site, file: string, ann: Annotations, touched: map<Position, NodeFlags>, q: Position)
    requires q != Replaced(s)
    ensures var after := FlagsAt(ann, Step(s, file, ann, touched).1, q);
      after == FlagsAt(ann, touched, q).(comments := after.comments) &&
      (after.comments == [] || after == FlagsAt(ann, touched, q))
    ensures (forall a :: 0 <= a < |s.ancestors| && s.ancestors[a].pos == q ==> KindOf(s.ancestors[a].node) != ObjectExpressionFrame) ==>
      FlagsAt(ann, Step(s, file, ann, touched).1, q) == FlagsAt(ann, touched, q)
  {
    var t := touched[Replaced(s) := Built];
    var frames := FramesOf(s.ancestors, ann, t);
    var j := FirstStop(frames, 0);
    assert FlagsAt(ann, t, q) == FlagsAt(ann, touched, q);
    if j < |frames| && ReturnHazard(frames, j) && frames[j].flags.comments != [] {
      assert frames[j] == FrameOf(s.ancestors[j], ann, t);
      assert KindOf(s.ancestors[j].node) == ObjectExpressionFrame;
    }
  }

  /**
   * Over the whole run: a position where no call was replaced keeps its
   * leading comments and parentheses, and keeps its `comments` too unless an
   * object literal sits there above a replaced call.
   */
  lemma {:induction false} WalksKeep(sites: seq<Site>, file: string, ann: Annotations, touched: map<Position, NodeFlags>,
                                     q: Position)
    requires forall k :: 0 <= k < |sites| ==> Replaced(sites[k]) != q
    ensures var after := FlagsAt(ann, Walks(sites, file, ann, touched).1, q);
      after == FlagsAt(ann, touched, q).(comments := after.comments) &&
      (after.comments == [] || after == FlagsAt(ann, touched, q))
    ensures (forall k, a :: 0 <= k < |sites| && 0 <= a < |sites[k].ancestors| && sites[k].ancestors[a].pos == q ==>
               KindOf(sites[k].ancestors[a].node) != ObjectExpressionFrame) ==>
      FlagsAt(ann, Walks(sites, file, ann, touched).1, q) == FlagsAt(ann, touched, q)
    decreases |sites|
  {
    if sites != [] {
      var t := Step(sites[0], file, ann, touched).1;
      StepKeeps(sites[0], file, ann, touched, q);
      WalksKeep(sites[1..], file, ann, t, q);
      assert forall k :: 1 <= k < |sites| ==> sites[1..][k - 1] == sites[k];
    }
  }

  // ---- goog.string.contains ----

  /** `isStringContains`: a call whose callee is `goog.string.contains`. */
  predicate IsStringContains(n: Node)
  {
    n.CallExpression? && Matches(n.callee, MemberIs(MemberIs(NameIs("goog"), "string"), "contains"))
  }

  /** The left side of `contains.js`: `a0.indexOf(a1)` for exactly two arguments. */
  function ContainsLeftSide(call: Node): Option<Node>
  {
    if call.CallExpression? && |call.arguments| == 2 then
      Some(CallExpression(MemberExpression(call.arguments[0], Identifier("indexOf")), [call.arguments[1]]))
    else None
  }

  const ContainsOptions := BinaryOptions("!=", "==", LeftFn(ContainsLeftSide), Literal(Num(-1)))

  /**
   * `goog.string.contains(s, v)` becomes `s.indexOf(v) != -1`, the negated
   * call `s.indexOf(v) == -1`, and calls with another number of arguments
   * stay as they are.
   */
  lemma ContainsForms(call: Node, underNot: bool)
    requires IsStringContains(call)
    ensures |call.arguments| == 2 && !underNot ==>
      ConvertAt(call, underNot, IsStringContains, ContainsOptions) ==
        BinaryExpression("!=", CallExpression(MemberExpression(call.arguments[0], Identifier("indexOf")), [call.arguments[1]]),
                         Literal(Num(-1)))
    ensures |call.arguments| == 2 ==>
      ConvertAt(UnaryExpression("!", call), false, IsStringContains, ContainsOptions) ==
        BinaryExpression("==", CallExpression(MemberExpression(call.arguments[0], Identifier("indexOf")), [call.arguments[1]]),
                         Literal(Num(-1)))
    ensures |call.arguments| != 2 ==> ConvertAt(call, underNot, IsStringContains, ContainsOptions) == call
    ensures |call.arguments| != 2 ==>
      ConvertAt(UnaryExpression("!", call), false, IsStringContains, ContainsOptions) == UnaryExpression("!", call)
  {
  }

  // ---- the goog.isX option tables ----

  /** `{callee: {object: {name: 'goog'}, property: {name}}}` */
  function GoogCallee(name: string): Node -> bool
  {
    (n: Node) => n.CallExpression? && Matches(n.callee, MemberIs(NameIs("goog"), name))
  }

  /** `prependTypeof`: `typeof` of the first argument (`undefined` when there is none). */
  function PrependTypeof(call: Node): Option<Node>
  {
    Some(UnaryExpression("typeof", if call.CallExpression? && |call.arguments| >= 1 then call.arguments[0] else Absent))
  }

  const IsBooleanOptions := BinaryOptions("===", "!==", LeftFn(PrependTypeof), Literal(Str("boolean")))
  const IsDefOptions := BinaryOptions("!==", "===", LeftArg, Identifier("undefined"))
  const IsDefAndNotNullOptions := BinaryOptions("!=", "==", LeftArg, Identifier("null"))
  const IsFunctionOptions := BinaryOptions("===", "!==", LeftFn(PrependTypeof), Literal(Str("function")))
  const IsNullOptions := BinaryOptions("===", "!==", LeftArg, Identifier("null"))
  const IsNumberOptions := BinaryOptions("!=", "==", LeftArg, Literal(Str("number")))
  const IsStringOptions := BinaryOptions("!=", "==", LeftArg, Literal(Str("string")))

  /** `goog.isDef(x)` becomes `x !== undefined` and `!goog.isDef(x)` becomes `x === undefined`; with no argument nothing changes. */
  lemma IsDefForms(call: Node)
    requires GoogCallee("isDef")(call)
    ensures |call.arguments| >= 1 ==>
      ConvertAt(call, false, GoogCallee("isDef"), IsDefOptions) ==
        BinaryExpression("!==", call.arguments[0], Identifier("undefined"))
    ensures |call.arguments| >= 1 ==>
      ConvertAt(UnaryExpression("!", call), false, GoogCallee("isDef"), IsDefOptions) ==
        BinaryExpression("===", call.arguments[0], Identifier("undefined"))
    ensures |call.arguments| == 0 ==> ConvertAt(call, false, GoogCallee("isDef"), IsDefOptions) == call
  {
  }

  /** `goog.isBoolean(x)` becomes `typeof x === 'boolean'`. */
  lemma IsBooleanForm(call: Node)
    requires GoogCallee("isBoolean")(call) && |call.arguments| >= 1
    ensures ConvertAt(call, false, GoogCallee("isBoolean"), IsBooleanOptions) ==
      BinaryExpression("===", UnaryExpression("typeof", call.arguments[0]), Literal(Str("boolean")))
  {
  }

  /** `contains.js` leaves no two-argument `goog.string.contains` call in the file. */
  lemma ContainsComplete(stmts: seq<Node>)
    ensures !AnyIn(ConvertStatements(stmts, IsStringContains, ContainsOptions), Fires(IsStringContains, ContainsOptions))
  {
    var F := Fires(IsStringContains, ContainsOptions);
    assert !AnyNode(ContainsOptions.rightSide, F);
    forall c: Node | c.CallExpression? && NoneBelow(c, F) && GetLeftSide(c, ContainsOptions).Some?
      ensures !AnyNode(GetLeftSide(c, ContainsOptions).value, F)
    {
      var name := Identifier("indexOf");
      var m := MemberExpression(c.arguments[0], name);
      var l := CallExpression(m, [c.arguments[1]]);
      assert Children(c)[1] == c.arguments[0] && Children(c)[2] == c.arguments[1];
      assert !AnyNode(name, F);
      assert Children(m) == [c.arguments[0], name];
      NoneAt(m, F);
      CallChildren(m, [c.arguments[1]]);
      assert !IsStringContains(l);
      NoneAt(l, F);
    }
    ConvertStatementsClear(stmts, IsStringContains, ContainsOptions);
  }

  /** The tables whose left side is the first argument leave no replaceable call in the file. */
  lemma FirstArgumentTablesComplete(stmts: seq<Node>, name: string)
    ensures !AnyIn(ConvertStatements(stmts, GoogCallee(name), IsDefOptions), Fires(GoogCallee(name), IsDefOptions))
    ensures !AnyIn(ConvertStatements(stmts, GoogCallee(name), IsDefAndNotNullOptions),
                   Fires(GoogCallee(name), IsDefAndNotNullOptions))
    ensures !AnyIn(ConvertStatements(stmts, GoogCallee(name), IsNullOptions), Fires(GoogCallee(name), IsNullOptions))
    ensures !AnyIn(ConvertStatements(stmts, GoogCallee(name), IsNumberOptions), Fires(GoogCallee(name), IsNumberOptions))
    ensures !AnyIn(ConvertStatements(stmts, GoogCallee(name), IsStringOptions), Fires(GoogCallee(name), IsStringOptions))
  {
    var matches := GoogCallee(name);
    assert !AnyNode(IsDefOptions.rightSide, Fires(matches, IsDefOptions));
    LeftArgClean(matches, IsDefOptions);
    ConvertStatementsClear(stmts, matches, IsDefOptions);
    assert !AnyNode(IsDefAndNotNullOptions.rightSide, Fires(matches, IsDefAndNotNullOptions));
    LeftArgClean(matches, IsDefAndNotNullOptions);
    ConvertStatementsClear(stmts, matches, IsDefAndNotNullOptions);
    assert !AnyNode(IsNullOptions.rightSide, Fires(matches, IsNullOptions));
    LeftArgClean(matches, IsNullOptions);
    ConvertStatementsClear(stmts, matches, IsNullOptions);
    assert !AnyNode(IsNumberOptions.rightSide, Fires(matches, IsNumberOptions));
    LeftArgClean(matches, IsNumberOptions);
    ConvertStatementsClear(stmts, matches, IsNumberOptions);
    assert !AnyNode(IsStringOptions.rightSide, Fires(matches, IsStringOptions));
    LeftArgClean(matches, IsStringOptions);
    ConvertStatementsClear(stmts, matches, IsStringOptions);
  }

  /** `typeof x === 'boolean'` and `typeof x === 'function'` leave no replaceable call in the file. */
  lemma TypeofTablesComplete(stmts: seq<Node>, name: string)
    ensures !AnyIn(ConvertStatements(stmts, GoogCallee(name), IsBooleanOptions), Fires(GoogCallee(name), IsBooleanOptions))
    ensures !AnyIn(ConvertStatements(stmts, GoogCallee(name), IsFunctionOptions), Fires(GoogCallee(name), IsFunctionOptions))
  {
    TypeofClean(GoogCallee(name), IsBooleanOptions);
    ConvertStatementsClear(stmts, GoogCallee(name), IsBooleanOptions);
    TypeofClean(GoogCallee(name), IsFunctionOptions);
    ConvertStatementsClear(stmts, GoogCallee(name), IsFunctionOptions);
  }

  /** `typeof` of the first argument brings in no call. */
  lemma TypeofClean(matches: Node -> bool, opts: BinaryOptions)
    requires opts.leftSide.LeftFn? && opts.leftSide.f == PrependTypeof && opts.rightSide.Literal?
    ensures SidesClean(matches, opts)
  {
    assert !AnyNode(opts.rightSide, Fires(matches, opts));
    forall c: Node | c.CallExpression? && NoneBelow(c, Fires(matches, opts)) && GetLeftSide(c, opts).Some?
      ensures !AnyNode(GetLeftSide(c, opts).value, Fires(matches, opts))
    {
      TypeofArgClean(c, matches, opts);
    }
  }

  lemma TypeofArgClean(c: Node, matches: Node -> bool, opts: BinaryOptions)
    requires c.CallExpression? && NoneBelow(c, Fires(matches, opts))
    ensures !AnyNode(PrependTypeof(c).value, Fires(matches, opts))
  {
    var F := Fires(matches, opts);
    var arg := PrependTypeof(c).value.argument;
    if |c.arguments| >= 1 {
      assert arg == Children(c)[1];
    } else {
      assert arg == Absent;
      assert Children(arg) == [];
    }
    TypeofOf(arg, F);
  }

  lemma TypeofOf(arg: Node, P: Node -> bool)
    requires !AnyNode(arg, P) && !P(UnaryExpression("typeof", arg))
    ensures !AnyNode(UnaryExpression("typeof", arg), P)
  {
    assert Children(UnaryExpression("typeof", arg)) == [arg];
  }
}
