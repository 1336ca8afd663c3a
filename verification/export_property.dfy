/**
 * The two `goog.exportProperty` transforms: `src/transforms/goog/exportproperty.js`
 * (flavour `Current`) and the older `transforms/goog-exportproperty.js`
 * (flavour `Legacy`). A top-level `goog.exportProperty(X.prototype, 'f', X.prototype.f)`
 * that follows the documented assignment is folded into an `@export` tag on
 * that assignment's comment block; every other exportProperty call becomes
 * `X.prototype['f'] = X.prototype.f`.
 */
module ExportProperty {
  import opened Wrappers
  import opened Strings
  import opened Seqs
  import opened Ast
  import opened AstUtils

  datatype Flavor = Current | Legacy

  /**
   * How the previous statement's comment count is read: as written
   * (`get(prev.comments.length)`, which throws when recast attached no
   * comment to the statement) or as evidently intended (missing comments
   * count as none).
   */
  datatype Guard = AsWritten | Corrected

  const ReadValueError := "Cannot read properties of undefined (reading 'value')"
  const ReadPropertyError := "Cannot read properties of undefined (reading 'property')"
  const ReadNameError := "Cannot read properties of undefined (reading 'name')"
  const ReadLengthError := "Cannot read properties of undefined (reading 'length')"
  const ReadReplaceError := "Cannot read properties of undefined (reading 'replace')"
  /** `jscs.memberExpression` / `jscs.assignmentExpression` handed an undefined argument. */
  const MissingArgumentError := "exportProperty fallback: builder argument is undefined"

  /** `isGEPCall`: a call whose callee is `goog.exportProperty`. */
  predicate IsGEPCall(n: Node)
  {
    n.CallExpression? && Matches(n.callee, MemberIs(NameIs("goog"), "exportProperty"))
  }

  /** `get(node, 'arguments.0.property.name') === 'prototype'` */
  predicate TargetsPrototype(n: Node)
    requires n.CallExpression?
  {
    |n.arguments| >= 1 && n.arguments[0].MemberExpression? && n.arguments[0].prop == Identifier("prototype")
  }

  /** `arg.value`: a literal's value, `undefined` for any other node. */
  function ValueOf(arg: Node): Option<Value>
  {
    if arg.Literal? then Some(arg.v) else None
  }

  /** JavaScript truthiness of a literal value (`undefined` is falsy). */
  predicate Truthy(v: Option<Value>)
  {
    v.Some? &&
    match v.value
    case Str(s) => s != []
    case Num(k) => k != 0
    case Bool(b) => b
    case NullValue => false
  }

  /** The text a template literal makes of a literal value. */
  function LiteralText(v: Value): string
  {
    match v
    case Str(s) => s
    case Num(k) => if k >= 0 then NatToString(k) else "-" + NatToString(-k)
    case Bool(b) => if b then "true" else "false"
    case NullValue => "null"
  }

  /** `m.property.name` of a member expression: an identifier property's name, `undefined` otherwise. */
  function PropertyName(m: Node): Option<string>
    requires m.MemberExpression?
  {
    if m.prop.Identifier? then Some(m.prop.name) else None
  }

  /**
   * Evaluating `isExportableCall` throws: the second argument is missing, or
   * the third is read and is missing or no member expression. The newer
   * version reads both unconditionally; the older one reads the third only
   * when the export name is truthy.
   */
  predicate FilterThrows(n: Node, flavor: Flavor)
  {
    IsGEPCall(n) && TargetsPrototype(n) &&
    match flavor
    case Current => |n.arguments| < 3 || !n.arguments[2].MemberExpression?
    case Legacy =>
      |n.arguments| < 2 ||
      (Truthy(ValueOf(n.arguments[1])) && (|n.arguments| < 3 || !n.arguments[2].MemberExpression?))
  }

  function Throws(flavor: Flavor): Node -> bool
  {
    (n: Node) => FilterThrows(n, flavor)
  }

  /** The error of a call on which the filter throws. */
  function FilterError(n: Node): string
    requires n.CallExpression?
  {
    if |n.arguments| < 2 then ReadValueError
    else if |n.arguments| < 3 then ReadPropertyError
    else ReadNameError
  }

  /**
   * `isExportableCall`, where it does not throw: an exportProperty call on
   * `X.prototype` whose export name matches the exported function's
   * property name (newer version: loosely, or with `_` appended to the
   * export name; older version: strictly). An identifier name is never a
   * numeric string, so only a string export name compares equal to it.
   */
  predicate IsExportableCall(n: Node, flavor: Flavor)
  {
    IsGEPCall(n) && TargetsPrototype(n) && |n.arguments| >= 3 && n.arguments[2].MemberExpression? &&
    var exportName := ValueOf(n.arguments[1]);
    var fnName := PropertyName(n.arguments[2]);
    Truthy(exportName) && fnName.Some? && fnName.value != [] &&
    match flavor
    case Current =>
      (exportName.value.Str? && exportName.value.s == fnName.value) || LiteralText(exportName.value) + "_" == fnName.value
    case Legacy => exportName.value.Str? && exportName.value.s == fnName.value
  }

  /** The filter either throws or answers. */
  lemma FilterOutcomesDisjoint(n: Node, flavor: Flavor)
    ensures !(FilterThrows(n, flavor) && IsExportableCall(n, flavor))
  {
  }

  /**
   * On the usual shape `goog.exportProperty(X.prototype, 'name', X.prototype.fn)`
   * the newer filter accepts `fn == name` and `fn == name + "_"`, the older
   * one only `fn == name`.
   */
  lemma ExportableNames(callee: Node, x: Node, name: string, fn: string)
    requires Matches(callee, MemberIs(NameIs("goog"), "exportProperty"))
    ensures var proto := MemberExpression(x, Identifier("prototype"));
      var call := CallExpression(callee, [proto, Literal(Str(name)), MemberExpression(proto, Identifier(fn))]);
      (IsExportableCall(call, Current) <==> name != [] && (fn == name || fn == name + "_")) &&
      (IsExportableCall(call, Legacy) <==> name != [] && fn == name)
  {
  }

  /** Whatever the older filter accepts or throws on, the newer one does too. */
  lemma LegacyWithinCurrent(n: Node)
    ensures IsExportableCall(n, Legacy) ==> IsExportableCall(n, Current)
    ensures FilterThrows(n, Legacy) ==> FilterThrows(n, Current)
  {
  }

  /** A top-level statement holding an exportable call (the call's parent's parent is the program). */
  predicate ExportableStatement(s: Node, flavor: Flavor)
  {
    s.ExpressionStatement? && IsExportableCall(s.expression, flavor)
  }

  const ExportTag := "\n * @export\n "
  const ProtectedTag := "\n * @protected"
  const PrivateTag := "\n * @private"

  /** `s.replace(/\s+$/, replacement)`: the trailing whitespace, if any, becomes `replacement`. */
  function ReplaceTrailingWhitespace(s: string, replacement: string): string
  {
    var t := TrimEnd(s);
    if |t| == |s| then s else t + replacement
  }

  /** The new text of the comment block: `@export` added, and in the newer version the first visibility tags dropped. */
  function ExportComment(s: string, flavor: Flavor): string
  {
    var tagged := ReplaceTrailingWhitespace(s, ExportTag);
    match flavor
    case Current => ReplaceFirst(ReplaceFirst(tagged, ProtectedTag, ""), PrivateTag, "")
    case Legacy => tagged
  }

  /**
   * A comment ending in whitespace gets the `@export` line in place of that
   * whitespace; the visibility tags are removed from the text before it and
   * never cut into the new line. A comment without trailing whitespace gets
   * no tag.
   */
  lemma ExportCommentShape(s: string)
    ensures s != [] && IsWhitespace(s[|s| - 1]) ==>
      ExportComment(s, Legacy) == TrimEnd(s) + ExportTag &&
      ExportComment(s, Current) == ReplaceFirst(ReplaceFirst(TrimEnd(s), ProtectedTag, ""), PrivateTag, "") + ExportTag
    ensures (s == [] || !IsWhitespace(s[|s| - 1])) ==>
      ExportComment(s, Legacy) == s &&
      ExportComment(s, Current) == ReplaceFirst(ReplaceFirst(s, ProtectedTag, ""), PrivateTag, "")
  {
    if s != [] && IsWhitespace(s[|s| - 1]) {
      var t := TrimEnd(s);
      assert |t| < |s|;
      SpliceBeforeTag(t, ProtectedTag);
      SpliceBeforeTag(ReplaceFirst(t, ProtectedTag, ""), PrivateTag);
    } else if s != [] {
      assert TrimEnd(s) == s;
    }
  }

  /** Removing a visibility tag from `t + ExportTag` removes it from `t`: no occurrence reaches into the tag. */
  lemma SpliceBeforeTag(t: string, pat: string)
    requires pat == ProtectedTag || pat == PrivateTag
    ensures ReplaceFirst(t + ExportTag, pat, "") == ReplaceFirst(t, pat, "") + ExportTag
  {
    OccurrencesAgree(t, pat);
    ReplaceFirstAppend(t, ExportTag, pat, "");
  }

  lemma OccurrencesAgree(t: string, pat: string)
    requires pat == ProtectedTag || pat == PrivateTag
    ensures forall j: nat :: OccursAt(t + ExportTag, pat, j) <==> OccursAt(t, pat, j)
  {
    var s := t + ExportTag;
    forall j: nat
      ensures OccursAt(s, pat, j) <==> OccursAt(t, pat, j)
    {
      if j + |pat| <= |t| {
        assert s[j..j + |pat|] == t[j..j + |pat|];
      } else {
        NoOccurrenceInTag(t, pat, j);
      }
    }
  }

  lemma NoOccurrenceInTag(t: string, pat: string, j: nat)
    requires pat == ProtectedTag || pat == PrivateTag
    requires j + |pat| > |t|
    ensures !OccursAt(t + ExportTag, pat, j)
  {
    var s := t + ExportTag;
    if j + |pat| <= |s| {
      var window := s[j..j + |pat|];
      NewlineOnlyFirst(pat);
      if j < |t| {
        // the tag's leading newline falls inside the window, past its start
        assert window[|t| - j] == '\n';
      } else if j == |t| {
        assert window[5] == ExportTag[5];
      } else {
        assert window[0] == ExportTag[j - |t|];
      }
    }
  }

  /** The visibility tags hold a newline only as their first character. */
  lemma NewlineOnlyFirst(pat: string)
    requires pat == ProtectedTag || pat == PrivateTag
    ensures forall k :: 0 < k < |pat| ==> pat[k] != '\n'
  {
    var rest := pat[1..];
    assert rest == " * @protected" || rest == " * @private";
    assert '\n' !in rest;
    forall k | 0 < k < |pat|
      ensures pat[k] != '\n'
    {
      assert pat[k] == rest[k - 1];
    }
  }

  /** `name.replace(/_$/, '')` */
  function StripTrailingUnderscore(name: string): (r: string)
  {
    if name != [] && name[|name| - 1] == '_' then name[..|name| - 1] else name
  }

  /** Only one underscore goes, and only at the end. */
  lemma StripOnce(name: string)
    ensures StripTrailingUnderscore(name + "_") == name
    ensures (name == [] || name[|name| - 1] != '_') ==> StripTrailingUnderscore(name) == name
  {
  }

  /** As written: `get(prev.comments.length)`, which throws when the statement has no `comments` array. */
  function CommentLengthAsWritten(prev: Node): (r: Option<nat>)
    ensures r.None? <==> CommentsOf(prev) == []
    ensures r.Some? ==> r.value > 0
  {
    if CommentsOf(prev) == [] then None else Some(|CommentsOf(prev)|)
  }

  /** As intended: a statement without comments counts as having none. */
  function CommentLength(prev: Node): (r: nat)
    ensures r > 0 <==> CommentsOf(prev) != []
  {
    |CommentsOf(prev)|
  }

  /** The previous statement can take the `@export` tag: an expression statement whose last comment is a block. */
  predicate PrevReady(s: Node)
  {
    s.ExpressionStatement? && s.comments != [] && s.comments[|s.comments| - 1].kind == Block
  }

  /** What processing one exportable statement does to the statement before it. */
  datatype StepResult = Step(prev: Node, remove: bool) | Threw(error: string)

  /** The expressions that carry a `left` operand in this tree: assignments and binary expressions. */
  predicate HasLeft(e: Node)
  {
    e.AssignmentExpression? || e.BinaryExpression?
  }

  /** The same expression with its `left` operand set to `l`. */
  function WithLeft(e: Node, l: Node): (r: Node)
    requires HasLeft(e)
    ensures HasLeft(r) && r.left == l && r.right == e.right
    ensures r.AssignmentExpression? <==> e.AssignmentExpression?
    ensures r.BinaryExpression? ==> r.operator == e.operator
  {
    if e.AssignmentExpression? then AssignmentExpression(l, e.right) else BinaryExpression(e.operator, l, e.right)
  }

  /**
   * The body of the `forEach` over exportable calls, for the statement
   * before the call's statement: with comments, the newer version first
   * strips a trailing `_` from the property of the expression's `left`
   * operand (throwing if there is no `left`, if it is no member expression,
   * or if its property has no name); then, if the last comment is a block,
   * it is replaced by the tagged block and the call's statement is to be
   * removed.
   */
  function PrevStep(prev: Node, flavor: Flavor, guard: Guard): (r: StepResult)
    requires prev.ExpressionStatement?
    ensures r.Step? ==> r.prev.ExpressionStatement? && (ExportableStatement(r.prev, flavor) <==> ExportableStatement(prev, flavor))
    ensures r.Step? ==> (r.remove <==> PrevReady(prev)) && (r.remove ==> PrevReady(r.prev)) && (!r.remove ==> !PrevReady(r.prev))
    ensures r.Step? && r.remove ==> |r.prev.comments| == |prev.comments|
    ensures r == Threw(ReadLengthError) <==> guard == AsWritten && prev.comments == []
    ensures r == Threw(ReadPropertyError) <==> flavor == Current && prev.comments != [] && !HasLeft(prev.expression)
    ensures r == Threw(ReadNameError) <==>
      flavor == Current && prev.comments != [] && HasLeft(prev.expression) && !prev.expression.left.MemberExpression?
  {
    if guard == AsWritten && CommentLengthAsWritten(prev).None? then Threw(ReadLengthError)
    else if CommentLength(prev) == 0 then Step(prev, false)
    else
      match flavor
      case Legacy => AttachExport(prev, flavor)
      case Current =>
        var e := prev.expression;
        if !HasLeft(e) then Threw(ReadPropertyError)
        else if !e.left.MemberExpression? then Threw(ReadNameError)
        else if !e.left.prop.Identifier? then Threw(ReadReplaceError)
        else
          var renamed := WithLeft(e, MemberExpression(e.left.obj, Identifier(StripTrailingUnderscore(e.left.prop.name))));
          var s := ExpressionStatement(renamed, prev.comments);
          OperatorNotExportable(prev, flavor);
          OperatorNotExportable(s, flavor);
          AttachExport(s, flavor)
  }

  /** An assignment or binary expression statement is never an exportable call. */
  lemma OperatorNotExportable(s: Node, flavor: Flavor)
    requires s.ExpressionStatement? && HasLeft(s.expression)
    ensures !ExportableStatement(s, flavor)
  {
  }

  /** Pop the last comment and, if it is a block, push the tagged block in its place. */
  function AttachExport(prev: Node, flavor: Flavor): (r: StepResult)
    requires prev.ExpressionStatement? && prev.comments != []
    ensures r.Step? ==> r.prev.ExpressionStatement? && r.prev.expression == prev.expression && (r.remove <==> PrevReady(prev))
    ensures r.Step? && !r.remove ==> r.prev == prev
    ensures r.Step? && r.remove ==> PrevReady(r.prev) && |r.prev.comments| == |prev.comments|
    ensures r.Threw? ==> r.error == ReadReplaceError
  {
    var cs := prev.comments;
    var last := cs[|cs| - 1];
    if last.kind != Block then Step(prev, false)
    else if last.value.Undefined? then Threw(ReadReplaceError)
    else Step(ExpressionStatement(prev.expression, cs[..|cs| - 1] + [CommentBlock(ExportComment(last.value.s, flavor))]), true)
  }

  /**
   * The `@export` pass over the top-level statements from index `i`, on the
   * statement list as it is at that point: the final statements, and whether
   * the pass threw.
   */
  function ExportPass(b: seq<Node>, i: nat, flavor: Flavor, guard: Guard): (r: (seq<Node>, Outcome))
    requires i <= |b|
    decreases |b| - i
  {
    if i == |b| then (b, Pass)
    else if i == 0 || !ExportableStatement(b[i], flavor) || !b[i - 1].ExpressionStatement? then
      ExportPass(b, i + 1, flavor, guard)
    else
      match PrevStep(b[i - 1], flavor, guard)
      case Threw(e) => (b, Fail(e))
      case Step(prev, remove) =>
        var b' := b[i - 1 := prev];
        if remove then ExportPass(RemoveAt(b', i), i, flavor, guard)
        else ExportPass(b', i + 1, flavor, guard)
  }

  function Exportables(flavor: Flavor): Node -> bool
  {
    (s: Node) => ExportableStatement(s, flavor)
  }

  function Ready(): Node -> bool
  {
    (s: Node) => PrevReady(s)
  }

  /** An exportable statement right after a statement that can take the tag. */
  predicate Convertible(b: seq<Node>, k: nat, flavor: Flavor)
  {
    0 < k < |b| && ExportableStatement(b[k], flavor) && PrevReady(b[k - 1])
  }

  /**
   * After a pass that did not throw, no exportable statement is left behind
   * a statement that can take the tag: every such pair was folded.
   */
  lemma ExportPassComplete(b: seq<Node>, flavor: Flavor)
    requires ExportPass(b, 0, flavor, Corrected).1 == Pass
    ensures forall k: nat :: !Convertible(ExportPass(b, 0, flavor, Corrected).0, k, flavor)
  {
    var r := ExportPass(b, 0, flavor, Corrected).0;
    ExportPassFrom(b, 0, flavor);
    forall k: nat
      ensures !Convertible(r, k, flavor)
    {
      if 0 < k < |r| {
        assert !(Exportables(flavor)(r[k]) && Ready()(r[k - 1]));
      }
    }
  }

  lemma {:induction false} ExportPassFrom(b: seq<Node>, i: nat, flavor: Flavor)
    requires i <= |b|
    requires NoPairBefore(b, i, Exportables(flavor), Ready())
    requires ExportPass(b, i, flavor, Corrected).1 == Pass
    ensures var r := ExportPass(b, i, flavor, Corrected).0; NoPairBefore(r, |r|, Exportables(flavor), Ready())
    decreases |b| - i
  {
    if i == |b| {
    } else if i == 0 || !ExportableStatement(b[i], flavor) || !b[i - 1].ExpressionStatement? {
      ExportPassSkip(b, i, flavor);
      ExportPassFrom(b, i + 1, flavor);
    } else {
      var b', j := ExportPassStep(b, i, flavor);
      ExportPassFrom(b', j, flavor);
    }
  }

  /** A statement the pass skips keeps the property one position further. */
  lemma ExportPassSkip(b: seq<Node>, i: nat, flavor: Flavor)
    requires i < |b| && NoPairBefore(b, i, Exportables(flavor), Ready())
    requires i == 0 || !ExportableStatement(b[i], flavor) || !b[i - 1].ExpressionStatement?
    ensures NoPairBefore(b, i + 1, Exportables(flavor), Ready())
    ensures ExportPass(b, i, flavor, Corrected) == ExportPass(b, i + 1, flavor, Corrected)
  {
    var E, R := Exportables(flavor), Ready();
    assert !(i > 0 && E(b[i]) && R(b[i - 1]));
    NoPairExtend(b, i, E, R);
  }

  /** One step of the corrected pass at an exportable statement keeps the property on what it continues with. */
  lemma ExportPassStep(b: seq<Node>, i: nat, flavor: Flavor) returns (b': seq<Node>, j: nat)
    requires 0 < i < |b| && NoPairBefore(b, i, Exportables(flavor), Ready())
    requires ExportableStatement(b[i], flavor) && b[i - 1].ExpressionStatement?
    requires ExportPass(b, i, flavor, Corrected).1 == Pass
    ensures j <= |b'| && |b'| - j < |b| - i
    ensures NoPairBefore(b', j, Exportables(flavor), Ready())
    ensures ExportPass(b, i, flavor, Corrected) == ExportPass(b', j, flavor, Corrected)
  {
    var E, R := Exportables(flavor), Ready();
    var step := PrevStep(b[i - 1], flavor, Corrected);
    assert step.Step?;
    var updated := b[i - 1 := step.prev];
    assert E(step.prev) <==> E(b[i - 1]);
    NoPairUpdate(b, i, step.prev, E, R);
    if step.remove {
      NoPairRemove(updated, i, E, R);
      b', j := RemoveAt(updated, i), i;
    } else {
      assert updated[i] == b[i] && !R(updated[i - 1]);
      NoPairExtend(updated, i, E, R);
      b', j := updated, i + 1;
    }
  }

  /** Without exportable statements the pass changes nothing. */
  lemma {:induction false} ExportPassIdle(b: seq<Node>, i: nat, flavor: Flavor, guard: Guard)
    requires i <= |b|
    requires forall k :: 0 <= k < |b| ==> !ExportableStatement(b[k], flavor)
    ensures ExportPass(b, i, flavor, guard) == (b, Pass)
    decreases |b| - i
  {
    if i < |b| {
      ExportPassIdle(b, i + 1, flavor, guard);
    }
  }

  /** A taggable statement followed by its export: the two fold into the tagged statement. */
  lemma FoldPair(prev: Node, gep: Node, flavor: Flavor, guard: Guard, tagged: Node)
    requires prev.ExpressionStatement? && ExportableStatement(gep, flavor)
    requires PrevStep(prev, flavor, guard) == Step(tagged, true)
    ensures ExportPass([prev, gep], 0, flavor, guard) == ([tagged], Pass)
  {
    var b := [prev, gep];
    assert RemoveAt(b[0 := tagged], 1) == [tagged];
    assert ExportPass([tagged], 1, flavor, guard) == ([tagged], Pass);
    assert ExportPass(b, 1, flavor, guard) == ExportPass([tagged], 1, flavor, guard);
  }

  /**
   * The case the newer transform is written for: a documented assignment to
   * `X.prototype.name_` followed by its export. The assignment loses the
   * underscore, its comment block gets the tag, and the export statement goes.
   */
  lemma DocumentedExport(target: Node, name: string, value: Node, cs: seq<Comment>, doc: string, lead: bool, gep: Node)
    requires ExportableStatement(gep, Current)
    ensures var prev := ExpressionStatement(AssignmentExpression(MemberExpression(target, Identifier(name + "_")), value),
                                            cs + [Comment(Block, Text(doc), lead)]);
      ExportPass([prev, gep], 0, Current, Corrected) ==
        ([ExpressionStatement(AssignmentExpression(MemberExpression(target, Identifier(name)), value),
                              cs + [CommentBlock(ExportComment(doc, Current))])], Pass)
  {
    var comments := cs + [Comment(Block, Text(doc), lead)];
    var prev := ExpressionStatement(AssignmentExpression(MemberExpression(target, Identifier(name + "_")), value), comments);
    StripOnce(name);
    assert comments[..|comments| - 1] == cs;
    var renamed := ExpressionStatement(AssignmentExpression(MemberExpression(target, Identifier(name)), value), comments);
    var tagged := ExpressionStatement(renamed.expression, cs + [CommentBlock(ExportComment(doc, Current))]);
    assert AttachExport(renamed, Current) == Step(tagged, true);
    assert PrevStep(prev, Current, Corrected) == Step(tagged, true);
    FoldPair(prev, gep, Current, Corrected, tagged);
  }

  /**
   * The rename reads only `left`, so a documented binary expression such as
   * `a.b_ + c;` before an export is renamed and tagged like an assignment,
   * and the export statement goes.
   */
  lemma DocumentedBinaryExport(op: string, target: Node, name: string, right: Node, cs: seq<Comment>, doc: string, lead: bool, gep: Node)
    requires ExportableStatement(gep, Current)
    ensures var prev := ExpressionStatement(BinaryExpression(op, MemberExpression(target, Identifier(name + "_")), right),
                                            cs + [Comment(Block, Text(doc), lead)]);
      ExportPass([prev, gep], 0, Current, Corrected) ==
        ([ExpressionStatement(BinaryExpression(op, MemberExpression(target, Identifier(name)), right),
                              cs + [CommentBlock(ExportComment(doc, Current))])], Pass)
  {
    var comments := cs + [Comment(Block, Text(doc), lead)];
    var prev := ExpressionStatement(BinaryExpression(op, MemberExpression(target, Identifier(name + "_")), right), comments);
    StripOnce(name);
    assert comments[..|comments| - 1] == cs;
    var renamed := ExpressionStatement(BinaryExpression(op, MemberExpression(target, Identifier(name)), right), comments);
    var tagged := ExpressionStatement(renamed.expression, cs + [CommentBlock(ExportComment(doc, Current))]);
    assert AttachExport(renamed, Current) == Step(tagged, true);
    assert PrevStep(prev, Current, Corrected) == Step(tagged, true);
    FoldPair(prev, gep, Current, Corrected, tagged);
  }

  /** The older transform keeps the property name and only tags the comment. */
  lemma DocumentedExportLegacy(prev: Node, doc: string, gep: Node)
    requires prev.ExpressionStatement? && prev.comments != []
    requires prev.comments[|prev.comments| - 1] == Comment(Block, Text(doc), true)
    requires ExportableStatement(gep, Legacy)
    ensures var cs := prev.comments;
      ExportPass([prev, gep], 0, Legacy, Corrected) ==
        ([ExpressionStatement(prev.expression, cs[..|cs| - 1] + [CommentBlock(ExportComment(doc, Legacy))])], Pass)
  {
    var cs := prev.comments;
    var tagged := ExpressionStatement(prev.expression, cs[..|cs| - 1] + [CommentBlock(ExportComment(doc, Legacy))]);
    assert PrevStep(prev, Legacy, Corrected) == Step(tagged, true);
    FoldPair(prev, gep, Legacy, Corrected, tagged);
  }

  /** The export statement the finding below is shown on: `goog.exportProperty(X.prototype, 'f', X.prototype.f);` */
  function SampleExport(): Node
  {
    var proto := MemberExpression(Identifier("X"), Identifier("prototype"));
    ExpressionStatement(CallExpression(MemberExpression(Identifier("goog"), Identifier("exportProperty")),
                                       [proto, Literal(Str("f")), MemberExpression(proto, Identifier("f"))]), [])
  }

  /** As written, an exportable statement after an uncommented expression statement makes the transform throw. */
  lemma UncommentedPreviousThrows(flavor: Flavor)
    ensures var b := [ExpressionStatement(Identifier("x"), []), SampleExport()];
      ExportPass(b, 0, flavor, AsWritten) == (b, Fail(ReadLengthError)) &&
      ExportPass(b, 0, flavor, Corrected) == (b, Pass)
  {
    var gep := SampleExport();
    assert ExportableStatement(gep, flavor);
    var prev := ExpressionStatement(Identifier("x"), []);
    var b := [prev, gep];
    assert PrevStep(prev, flavor, AsWritten) == Threw(ReadLengthError);
    assert ExportPass(b, 0, flavor, AsWritten) == ExportPass(b, 1, flavor, AsWritten);
    assert PrevStep(prev, flavor, Corrected) == Step(prev, false);
    assert b[0 := prev] == b;
    assert ExportPass(b, 2, flavor, Corrected) == (b, Pass);
    assert ExportPass(b, 0, flavor, Corrected) == ExportPass(b, 1, flavor, Corrected);
  }

  /** As intended, an uncommented previous statement is left alone and the pass moves on. */
  lemma UncommentedPreviousSkipped(b: seq<Node>, i: nat, flavor: Flavor)
    requires 0 < i < |b| && b[i - 1].ExpressionStatement? && b[i - 1].comments == []
    ensures ExportPass(b, i, flavor, Corrected) == ExportPass(b, i + 1, flavor, Corrected)
  {
    if ExportableStatement(b[i], flavor) {
      assert PrevStep(b[i - 1], flavor, Corrected) == Step(b[i - 1], false);
      assert b[i - 1 := b[i - 1]] == b;
    }
  }

  /** A remaining exportProperty call without the three arguments the fallback builds from. */
  predicate ShortCall(n: Node)
  {
    IsGEPCall(n) && |n.arguments| < 3
  }

  /** `goog.exportProperty(o, n, v)` becomes `o[n] = v`. */
  function Fallback(n: Node): Node
  {
    if IsGEPCall(n) && |n.arguments| >= 3 then
      AssignmentExpression(MemberExpression(n.arguments[0], n.arguments[1]), n.arguments[2])
    else n
  }

  function IsGEP(): Node -> bool
  {
    (n: Node) => IsGEPCall(n)
  }

  /** A statement calling exportProperty on arguments free of further such calls becomes the assignment. */
  lemma FallbackStatement(callee: Node, o: Node, name: Node, v: Node, cs: seq<Comment>)
    requires Matches(callee, MemberIs(NameIs("goog"), "exportProperty"))
    requires !AnyNode(callee, IsGEP()) && !AnyNode(o, IsGEP()) && !AnyNode(name, IsGEP()) && !AnyNode(v, IsGEP())
    ensures Rewrite(ExpressionStatement(CallExpression(callee, [o, name, v]), cs), Fallback) ==
      ExpressionStatement(AssignmentExpression(MemberExpression(o, name), v), cs)
  {
    FallbackCall(callee, o, name, v);
    FallbackExpressionStatement(CallExpression(callee, [o, name, v]), cs);
  }

  lemma FallbackCall(callee: Node, o: Node, name: Node, v: Node)
    requires Matches(callee, MemberIs(NameIs("goog"), "exportProperty"))
    requires !AnyNode(callee, IsGEP()) && !AnyNode(o, IsGEP()) && !AnyNode(name, IsGEP()) && !AnyNode(v, IsGEP())
    ensures Rewrite(CallExpression(callee, [o, name, v]), Fallback) == AssignmentExpression(MemberExpression(o, name), v)
  {
    FallbackFixes();
    NoneInThree(o, name, v, IsGEP());
    RewriteCallTop(callee, [o, name, v], Fallback, IsGEP());
  }

  /** The fallback fixes every node that is not an exportProperty call. */
  lemma FallbackFixes()
    ensures forall m :: !IsGEP()(m) ==> Fallback(m) == m
  {
  }

  lemma FallbackExpressionStatement(e: Node, cs: seq<Comment>)
    ensures Rewrite(ExpressionStatement(e, cs), Fallback) == ExpressionStatement(Rewrite(e, Fallback), cs)
  {
    RewriteUnfold(ExpressionStatement(e, cs), Fallback);
    assert RewriteAll([e], Fallback) == [Rewrite(e, Fallback)];
  }

  /** Statements without exportProperty calls pass through the fallback untouched. */
  lemma FallbackIdle(stmts: seq<Node>)
    requires !AnyIn(stmts, IsGEP())
    ensures RewriteAll(stmts, Fallback) == stmts
  {
    RewriteAllUnchanged(stmts, Fallback, IsGEP());
  }

  function ShortCalls(): Node -> bool
  {
    (n: Node) => ShortCall(n)
  }

  /**
   * The transform on the file's statements: the filter runs over every call
   * first (a throw ends the transform and the file is not rewritten), then
   * the `@export` pass, then the fallback assignment for every remaining
   * exportProperty call. `guard` is the reading of the comment-count
   * check: `AsWritten` runs the file as written, `Corrected` the intended
   * check.
   */
  method ExportPropertyIn(p: Program, flavor: Flavor, guard: Guard) returns (r: Outcome)
    modifies p
    ensures AnyIn(old(p.body), Throws(flavor)) ==>
      CollectIn(old(p.body), Throws(flavor)) != [] &&
      r == Fail(FilterError(CollectIn(old(p.body), Throws(flavor))[0])) && p.body == old(p.body)
    ensures !AnyIn(old(p.body), Throws(flavor)) ==>
      var pass := ExportPass(old(p.body), 0, flavor, guard);
      (pass.1.Fail? ==> r == pass.1 && p.body == old(p.body)) &&
      (pass.1.Pass? && AnyIn(pass.0, ShortCalls()) ==> r == Fail(MissingArgumentError) && p.body == old(p.body)) &&
      (pass.1.Pass? && !AnyIn(pass.0, ShortCalls()) ==> r == Pass && p.body == RewriteAll(pass.0, Fallback))
  {
    var body := p.body;
    if AnyIn(body, Throws(flavor)) {
      CollectInEmpty(body, Throws(flavor));
      var first := CollectIn(body, Throws(flavor))[0];
      return Fail(FilterError(first));
    }
    var i := 0;
    while i < |body|
      invariant i <= |body|
      invariant ExportPass(body, i, flavor, guard) == ExportPass(old(p.body), 0, flavor, guard)
      decreases |body| - i
    {
      if i > 0 && ExportableStatement(body[i], flavor) && body[i - 1].ExpressionStatement? {
        var step := PrevStep(body[i - 1], flavor, guard);
        if step.Threw? {
          return Fail(step.error);
        }
        body := body[i - 1 := step.prev];
        if step.remove {
          body := RemoveAt(body, i);
        } else {
          i := i + 1;
        }
      } else {
        i := i + 1;
      }
    }
    if AnyIn(body, ShortCalls()) {
      return Fail(MissingArgumentError);
    }
    p.body := RewriteAll(body, Fallback);
    r := Pass;
  }
}
