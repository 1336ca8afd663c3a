/**
 * `src/utils/karma.js`: recognising Karma `describe` blocks. As written the
 * recogniser compares the boolean result of a regular-expression test with
 * the string 'describe', so it never holds, and neither does `isKarmaTest`.
 */
module Karma {
  import opened Wrappers
  import opened Strings
  import opened Ast

  /** A JavaScript value as `===` sees it: its type first, then its contents. */
  datatype JsValue = JsBool(b: bool) | JsString(s: string)

  /**
   * `/$[xd]?describe$/.test(text)`: the leading `$` only matches at the end
   * of the input, after which `describe` cannot follow.
   */
  predicate DescribeRegexTest(text: string)
  {
    exists p: nat | p <= |text| ::
      p == |text| &&
      (StartsWith(text[p..], "describe") || StartsWith(text[p..], "xdescribe") || StartsWith(text[p..], "ddescribe"))
  }

  /** `String(node?.callee?.name)`: a missing name is tested as the text "undefined". */
  function CalleeNameText(n: Node): string
  {
    if n.CallExpression? && n.callee.Identifier? then n.callee.name else "undefined"
  }

  /** `isKarmaDescribe(node)`, which is false for every node. */
  predicate IsKarmaDescribe(n: Node)
  {
    n.CallExpression? && |n.arguments| >= 2 && n.arguments[0].Literal? &&
    JsBool(DescribeRegexTest(CalleeNameText(n))) == JsString("describe")
  }

  /** The regular expression never matches, whatever the callee's name. */
  lemma DescribeRegexNeverMatches(text: string)
    ensures !DescribeRegexTest(text)
  {
    assert text[|text|..] == [];
  }

  /** `isKarmaDescribe` never holds. */
  lemma IsKarmaDescribeNever(n: Node)
    ensures !IsKarmaDescribe(n)
  {
  }

  /** `isKarmaTest(root)`: some describe call (as recognised above) is a statement of the program. */
  predicate IsKarmaTest(body: seq<Node>)
  {
    exists i :: 0 <= i < |body| && body[i].ExpressionStatement? && IsKarmaDescribe(body[i].expression)
  }

  /** No file is recognised as a Karma test. */
  lemma IsKarmaTestNever(body: seq<Node>)
    ensures !IsKarmaTest(body)
  {
  }

  /**
   * The evidently intended `/^[xd]?describe$/.test(name)`: the name is
   * `describe`, `xdescribe` or `ddescribe`.
   */
  function DescribeName(text: string): (r: bool)
    ensures r <==> text == "describe" || text == "xdescribe" || text == "ddescribe"
  {
    if |text| == 9 then (text[0] == 'x' || text[0] == 'd') && text[1..] == "describe"
    else text == "describe"
  }

  /** The corrected `isKarmaDescribe`: the regular-expression test alone decides the name. */
  predicate IsKarmaDescribeCorrected(n: Node)
  {
    n.CallExpression? && |n.arguments| >= 2 && n.arguments[0].Literal? && DescribeName(CalleeNameText(n))
  }

  /** The corrected `isKarmaTest`. */
  predicate IsKarmaTestCorrected(body: seq<Node>)
  {
    exists i :: 0 <= i < |body| && body[i].ExpressionStatement? && IsKarmaDescribeCorrected(body[i].expression)
  }

  /**
   * A file with a top-level `describe('name', fn)` statement: the corrected
   * recogniser takes it for a Karma test, the one as written does not.
   */
  lemma DescribeFileMissed(body: seq<Node>, i: nat)
    requires i < |body| && body[i].ExpressionStatement? && body[i].expression.CallExpression?
    requires body[i].expression.callee == Identifier("describe")
    requires |body[i].expression.arguments| >= 2 && body[i].expression.arguments[0].Literal?
    ensures IsKarmaTestCorrected(body) && !IsKarmaTest(body)
  {
    assert IsKarmaDescribeCorrected(body[i].expression);
    IsKarmaTestNever(body);
  }

  /**
   * The walk of `getRootDescribe(path)` for a given recogniser. `ancestors`
   * lists the nodes above the start node, nearest first, up to the root
   * (the walk stops at a missing or self-referencing parent). The start
   * node itself is not tested; the result is the index of the outermost
   * ancestor the recogniser accepts.
   */
  method RootDescribeWalk(ancestors: seq<Node>, isDescribe: Node -> bool) returns (r: Option<nat>)
    ensures r.Some? ==> r.value < |ancestors| && isDescribe(ancestors[r.value])
    ensures r.Some? ==> forall j :: r.value < j < |ancestors| ==> !isDescribe(ancestors[j])
    ensures r.None? <==> forall j :: 0 <= j < |ancestors| ==> !isDescribe(ancestors[j])
  {
    r := None;
    var i := 0;
    while i < |ancestors|
      invariant 0 <= i <= |ancestors|
      invariant r.Some? ==> r.value < i && isDescribe(ancestors[r.value])
      invariant r.Some? ==> forall j :: r.value < j < i ==> !isDescribe(ancestors[j])
      invariant r.None? <==> forall j :: 0 <= j < i ==> !isDescribe(ancestors[j])
    {
      if isDescribe(ancestors[i]) {
        r := Some(i);
      }
      i := i + 1;
    }
  }

  /** `getRootDescribe(path)` with `isKarmaDescribe`: as written it never finds a describe. */
  method GetRootDescribe(ancestors: seq<Node>) returns (r: Option<nat>)
    ensures r.None?
  {
    r := RootDescribeWalk(ancestors, IsKarmaDescribe);
  }
}
