/**
 * The `goog.array` transforms under `src/transforms/goog/array/`:
 * `goog.array.find`/`findIndex` become `ol.array.find`/`findIndex` (with a
 * require of `ol.array`), `goog.array.clear(a)` becomes `a.length = 0` and
 * `goog.array.forEach(a, f, ...)` becomes `a.forEach(f, ...)`.
 *
 * Each transform finds every matching call in the tree and replaces it; the
 * find-and-replace is modelled as the bottom-up `Rewrite` of the tree.
 */
module ArrayRules {
  import opened Wrappers
  import opened Strings
  import opened Ast
  import opened AstUtils
  import opened Jscs
  import opened Sorting
  import opened Goog
  import GoogRequire

  /** A call of `goog.array.<name>`: the pattern of `isArrayFind`, `isArrayFindIndex`, `isArrayClear` and `isArrayForEach`. */
  predicate IsGoogArrayCall(n: Node, name: string)
  {
    n.CallExpression? && Matches(n.callee, MemberIs(MemberIs(NameIs("goog"), "array"), name))
  }

  /** A call that is not `P`, with no `P` in its callee or arguments, holds no `P`. */
  lemma CallNone(callee: Node, args: seq<Node>, P: Node -> bool)
    requires !P(CallExpression(callee, args)) && !AnyNode(callee, P)
    requires forall i :: 0 <= i < |args| ==> !AnyNode(args[i], P)
    ensures !AnyNode(CallExpression(callee, args), P)
  {
    var c := CallExpression(callee, args);
    CallChildren(callee, args);
    forall i | 0 <= i < |Children(c)|
      ensures !AnyNode(Children(c)[i], P)
    {
      if i > 0 {
        assert Children(c)[i] == args[i - 1];
      }
    }
  }

  /** The same for a member access `o.name`. */
  lemma MemberNone(o: Node, name: string, P: Node -> bool)
    requires !P(MemberExpression(o, Identifier(name))) && !P(Identifier(name)) && !AnyNode(o, P)
    ensures !AnyNode(MemberExpression(o, Identifier(name)), P)
  {
    NoneAt(Identifier(name), P);
  }

  /** The callee and arguments of a call with no `P` below it hold no `P`. */
  lemma PartsNone(m: Node, P: Node -> bool)
    requires m.CallExpression? && NoneBelow(m, P)
    ensures !AnyNode(m.callee, P)
    ensures forall i :: 0 <= i < |m.arguments| ==> !AnyNode(m.arguments[i], P)
  {
    CallChildren(m.callee, m.arguments);
    assert Children(m)[0] == m.callee;
    forall i | 0 <= i < |m.arguments|
      ensures !AnyNode(m.arguments[i], P)
    {
      assert Children(m)[i + 1] == m.arguments[i];
    }
  }

  // ---------------------------------------------------------------- find.js

  /** A call `find.js` replaces: `goog.array.<name>` whose bound arguments number two. */
  predicate FindMatch(n: Node, name: string)
  {
    IsGoogArrayCall(n, name) && |BindArgs(n.arguments)| == 2
  }

  function Replaceable(name: string): Node -> bool
  {
    (n: Node) => FindMatch(n, name)
  }

  /** `ol.array.<name>(args)`, the call `createCall('ol.array.<name>', args)` builds. */
  function OlArrayCall(name: string, args: seq<Node>): (r: Node)
    requires '.' !in name
    ensures CreateCall("ol.array." + name, args) == Some(r)
    ensures IsCall(r, "ol.array." + name)
  {
    var parts := ["ol", "array", name];
    OlArrayPath(name);
    CreateCallIsCall(parts, args);
    assert parts[..2] == ["ol", "array"];
    assert CalleeFor(parts[..2]) == Some(MemberExpression(Identifier("ol"), Identifier("array")));
    assert CalleeFor(parts) == Some(MemberExpression(MemberExpression(Identifier("ol"), Identifier("array")), Identifier(name)));
    CallExpression(MemberExpression(MemberExpression(Identifier("ol"), Identifier("array")), Identifier(name)), args)
  }

  lemma OlArrayPath(name: string)
    requires '.' !in name
    ensures Join(["ol", "array", name], ".") == "ol.array." + name
    ensures Split("ol.array." + name, '.') == ["ol", "array", name]
  {
    var parts := ["ol", "array", name];
    assert parts[1..] == ["array", name];
    assert parts[1..][1..] == [name];
    assert Join([name], ".") == name;
    assert Join(["array", name], ".") == "array" + "." + name;
    assert "ol" + "." + ("array" + "." + name) == "ol.array." + name;
    SplitJoin(parts, '.');
  }

  /** The replacement of one call by `find.js`: bound arguments, `ol.array` callee. */
  function FindReplacement(name: string, n: Node): Node
    requires '.' !in name
  {
    if FindMatch(n, name) then OlArrayCall(name, BindArgs(n.arguments)) else n
  }

  function FindRule(name: string): Node -> Node
    requires '.' !in name
  {
    (n: Node) => FindReplacement(name, n)
  }

  /** The rule replaces matched calls by `ol.array` calls, leaves every other node, and never touches a require. */
  lemma FindRuleSpares(name: string)
    requires '.' !in name
    ensures SparesRequires(FindRule(name), Replaceable(name))
    ensures forall m :: FindMatch(m, name) ==>
      IsCall(FindRule(name)(m), "ol.array." + name) && FindRule(name)(m).arguments == BindArgs(m.arguments)
  {
    var f := FindRule(name);
    var P := Replaceable(name);
    forall m | P(m)
      ensures m.CallExpression? && f(m).CallExpression? && !IsGoogRequire(m) && !IsGoogRequire(f(m))
    {
      assert FindMatch(m, name);
      assert Matches(m.callee.obj, MemberIs(NameIs("goog"), "array"));
      assert !Matches(m.callee.obj, NameIs("goog"));
      assert f(m).callee.obj.MemberExpression?;
    }
  }

  /** A replacement holds no matched call when the replaced call's subtrees hold none. */
  lemma FindReplacementClean(name: string, m: Node)
    requires '.' !in name
    requires FindMatch(m, name) && NoneBelow(m, Replaceable(name))
    ensures !AnyNode(FindRule(name)(m), Replaceable(name))
  {
    var P := Replaceable(name);
    var args := m.arguments;
    PartsNone(m, P);
    NoneAt(Identifier("ol"), P);
    MemberNone(Identifier("ol"), "array", P);
    var ol := MemberExpression(Identifier("ol"), Identifier("array"));
    MemberNone(ol, name, P);
    var bound := BindArgs(args);
    if |args| == 3 {
      MemberNone(args[1], "bind", P);
      CallNone(MemberExpression(args[1], Identifier("bind")), [args[2]], P);
    }
    assert forall i :: 0 <= i < |bound| ==> !AnyNode(bound[i], P);
    assert !Matches(Identifier("ol"), NameIs("goog"));
    assert !Matches(ol, MemberIs(NameIs("goog"), "array"));
    CallNone(MemberExpression(ol, Identifier(name)), bound, P);
  }

  /** Completeness of one pass: no `goog.array.<name>` call with two bound arguments is left. */
  lemma FindPassComplete(body: seq<Node>, name: string)
    requires '.' !in name
    ensures !AnyIn(RewriteAll(body, FindRule(name)), Replaceable(name))
  {
    var P := Replaceable(name);
    var f := FindRule(name);
    forall m | P(m) && NoneBelow(m, P)
      ensures !AnyNode(f(m), P)
    {
      FindReplacementClean(name, m);
    }
    RewriteAllClears(body, f, P);
  }

  /** The two passes of `find.js`: `goog.array.find`, then `goog.array.findIndex` on the result. */
  function FindPasses(body: seq<Node>): seq<Node>
  {
    RewriteAll(RewriteAll(body, FindRule("find")), FindRule("findIndex"))
  }

  /** `replacedOne`: some call was replaced by either pass. */
  predicate ReplacesAny(body: seq<Node>)
  {
    AnyIn(body, Replaceable("find")) || AnyIn(RewriteAll(body, FindRule("find")), Replaceable("findIndex"))
  }

  /**
   * `find.js`: both passes, then `ol.array` is required through the older
   * require helper when anything was replaced. That helper throws when the
   * file has no require, and the file is then left as it was.
   */
  method ReplaceFind(p: Program) returns (r: Outcome)
    modifies p
    requires NamedRequires(p.body)
    ensures !ReplacesAny(old(p.body)) ==> r == Pass && p.body == old(p.body)
    ensures ReplacesAny(old(p.body)) && FirstIndex(old(p.body), IsRequireStatement).None? ==>
      r.Fail? && p.body == old(p.body)
    ensures ReplacesAny(old(p.body)) && FirstIndex(old(p.body), IsRequireStatement).Some? ==>
      var passed := FindPasses(old(p.body));
      var inserted := InsertAfter(passed, FirstIndex(old(p.body), IsRequireStatement).value, RequireStatement("ol.array"));
      r == Pass && p.body == WithRequireNames(inserted, SortStrings(RequireNames(inserted))) &&
      multiset(RequireNames(p.body)) == multiset(RequireNames(old(p.body))) + multiset{"ol.array"}
  {
    var body := p.body;
    var replacedOne := AnyIn(body, Replaceable("find"));
    var afterFind := RewriteAll(body, FindRule("find"));
    replacedOne := replacedOne || AnyIn(afterFind, Replaceable("findIndex"));
    var afterIndex := RewriteAll(afterFind, FindRule("findIndex"));
    FindPassesKeep(body);
    p.body := afterIndex;
    if replacedOne {
      r := GoogRequire.Add(p, "ol.array");
      if r.Fail? {
        p.body := body;
      }
    } else {
      r := Pass;
    }
  }

  /** The two passes keep the requires, their names and the first one's place, and change nothing when nothing matches. */
  lemma FindPassesKeep(body: seq<Node>)
    requires NamedRequires(body)
    ensures NamedRequires(FindPasses(body))
    ensures RequireNames(FindPasses(body)) == RequireNames(body)
    ensures FirstIndex(FindPasses(body), IsRequireStatement) == FirstIndex(body, IsRequireStatement)
    ensures !ReplacesAny(body) ==> FindPasses(body) == body
  {
    var afterFind := RewriteAll(body, FindRule("find"));
    FindRuleSpares("find");
    FindRuleSpares("findIndex");
    RewriteAllKeepsRequires(body, FindRule("find"), Replaceable("find"));
    RewriteAllKeepsRequires(afterFind, FindRule("findIndex"), Replaceable("findIndex"));
    FirstIndexAgree(FindPasses(body), body, IsRequireStatement);
    if !ReplacesAny(body) {
      RewriteAllUnchanged(body, FindRule("find"), Replaceable("find"));
      RewriteAllUnchanged(afterFind, FindRule("findIndex"), Replaceable("findIndex"));
    }
  }

  // --------------------------------------------------------------- clear.js

  /** A call `clear.js` replaces: `goog.array.clear` with exactly one argument. */
  predicate ClearMatch(n: Node)
  {
    IsGoogArrayCall(n, "clear") && |n.arguments| == 1
  }

  function ClearReplacement(n: Node): Node
  {
    if ClearMatch(n) then
      AssignmentExpression(MemberExpression(n.arguments[0], Identifier("length")), Literal(Num(0)))
    else n
  }

  function ClearRule(): Node -> Node
  {
    (n: Node) => ClearReplacement(n)
  }

  function Clearable(): Node -> bool
  {
    (n: Node) => ClearMatch(n)
  }

  /** A matched call becomes the assignment of zero to its argument's `length`; no other node changes. */
  lemma ClearRuleSpec(n: Node)
    ensures ClearMatch(n) ==>
      ClearRule()(n).AssignmentExpression? &&
      ClearRule()(n).left == MemberExpression(n.arguments[0], Identifier("length")) &&
      ClearRule()(n).right == Literal(Num(0))
    ensures !ClearMatch(n) ==> ClearRule()(n) == n
  {
  }

  /** Completeness: no one-argument `goog.array.clear` call is left anywhere. */
  lemma ClearComplete(body: seq<Node>)
    ensures !AnyIn(RewriteAll(body, ClearRule()), Clearable())
  {
    var P := Clearable();
    forall m | P(m) && NoneBelow(m, P)
      ensures !AnyNode(ClearRule()(m), P)
    {
      CallChildren(m.callee, m.arguments);
      assert Children(m)[1] == m.arguments[0];
      var len := MemberExpression(m.arguments[0], Identifier("length"));
      NoneAt(Identifier("length"), P);
      NoneAt(len, P);
      NoneAt(Literal(Num(0)), P);
      NoneAt(ClearRule()(m), P);
    }
    RewriteAllClears(body, ClearRule(), P);
  }

  /** `clear.js`: every matched call in the file is replaced. */
  method ReplaceClear(p: Program)
    modifies p
    ensures p.body == RewriteAll(old(p.body), ClearRule())
    ensures !AnyIn(p.body, Clearable())
  {
    ClearComplete(p.body);
    p.body := RewriteAll(p.body, ClearRule());
  }

  // ------------------------------------------------------------- foreach.js

  /** A call `foreach.js` replaces: `goog.array.forEach` with two or more arguments. */
  predicate ForEachMatch(n: Node)
  {
    IsGoogArrayCall(n, "forEach") && |n.arguments| >= 2
  }

  function ForEachReplacement(n: Node): Node
  {
    if ForEachMatch(n) then
      CallExpression(MemberExpression(n.arguments[0], Identifier("forEach")), n.arguments[1..])
    else n
  }

  function ForEachRule(): Node -> Node
  {
    (n: Node) => ForEachReplacement(n)
  }

  function ForEachable(): Node -> bool
  {
    (n: Node) => ForEachMatch(n)
  }

  /**
   * A `goog.array.forEach` call whose array argument is `goog.array` itself:
   * its replacement is again a `goog.array.forEach` call, which the
   * transform does not revisit.
   */
  predicate OnGoogArray(n: Node)
  {
    IsGoogArrayCall(n, "forEach") && |n.arguments| >= 1 && Matches(n.arguments[0], MemberIs(NameIs("goog"), "array"))
  }

  function OnGoogArrayP(): Node -> bool
  {
    (n: Node) => OnGoogArray(n)
  }

  /** A matched call becomes the `forEach` method call on its first argument, with the remaining arguments. */
  lemma ForEachRuleSpec(n: Node)
    ensures ForEachMatch(n) ==>
      ForEachRule()(n).CallExpression? &&
      ForEachRule()(n).callee == MemberExpression(n.arguments[0], Identifier("forEach")) &&
      [n.arguments[0]] + ForEachRule()(n).arguments == n.arguments
    ensures !ForEachMatch(n) ==> ForEachRule()(n) == n
    ensures CallRewrite(ForEachRule(), ForEachable())
  {
  }

  /** Rebuilding a node from its rewritten children does not make it a call on `goog.array`. */
  lemma ForEachRebuilt(n: Node)
    requires !OnGoogArray(n)
    ensures |RewriteAll(Children(n), ForEachRule())| == |Children(n)|
    ensures !OnGoogArray(WithChildren(n, RewriteAll(Children(n), ForEachRule())))
  {
    var f := ForEachRule();
    var rs := RewriteAll(Children(n), f);
    RebuiltKind(n, rs);
    if n.CallExpression? {
      CallChildren(n.callee, n.arguments);
      assert rs[0] == Rewrite(n.callee, f);
      assert rs[1..] == RewriteAll(n.arguments, f);
      ForEachCallRebuilt(n);
    }
  }

  lemma ForEachCallRebuilt(n: Node)
    requires n.CallExpression? && !OnGoogArray(n)
    ensures !OnGoogArray(CallExpression(Rewrite(n.callee, ForEachRule()), RewriteAll(n.arguments, ForEachRule())))
  {
    var f := ForEachRule();
    ForEachRuleSpec(n);
    RewriteMatches(n.callee, MemberIs(MemberIs(NameIs("goog"), "array"), "forEach"), f, ForEachable());
    if |n.arguments| >= 1 {
      RewriteMatches(n.arguments[0], MemberIs(NameIs("goog"), "array"), f, ForEachable());
    }
  }

  /** The replacement of a call whose array is not `goog.array` holds no matched call and no call on `goog.array`. */
  lemma ForEachReplacementClean(w: Node)
    requires ForEachMatch(w) && !OnGoogArray(w)
    requires NoneBelow(w, ForEachable()) && NoneBelow(w, OnGoogArrayP())
    ensures !AnyNode(ForEachRule()(w), ForEachable())
    ensures !AnyNode(ForEachRule()(w), OnGoogArrayP())
  {
    var P := ForEachable();
    var Q := OnGoogArrayP();
    var a0 := w.arguments[0];
    PartsNone(w, P);
    PartsNone(w, Q);
    MemberNone(a0, "forEach", P);
    MemberNone(a0, "forEach", Q);
    var rest := w.arguments[1..];
    assert forall i :: 0 <= i < |rest| ==> rest[i] == w.arguments[i + 1];
    CallNone(MemberExpression(a0, Identifier("forEach")), rest, P);
    CallNone(MemberExpression(a0, Identifier("forEach")), rest, Q);
  }

  /**
   * Completeness: unless some call passes `goog.array` itself as the array,
   * no `goog.array.forEach` call with two or more arguments is left.
   */
  lemma {:induction false} ForEachComplete(n: Node)
    requires !AnyNode(n, OnGoogArrayP())
    ensures !AnyNode(Rewrite(n, ForEachRule()), ForEachable())
    ensures !AnyNode(Rewrite(n, ForEachRule()), OnGoogArrayP())
    decreases n
  {
    var f := ForEachRule();
    var P := ForEachable();
    var Q := OnGoogArrayP();
    RewriteUnfold(n, f);
    var rs := RewriteAll(Children(n), f);
    forall i | 0 <= i < |rs|
      ensures !AnyNode(rs[i], P) && !AnyNode(rs[i], Q)
    {
      assert !AnyNode(Children(n)[i], Q);
      ForEachComplete(Children(n)[i]);
    }
    var w := WithChildren(n, rs);
    ChildrenOfWithChildren(n, rs);
    assert NoneBelow(w, P) && NoneBelow(w, Q);
    ForEachRebuilt(n);
    if P(w) {
      ForEachReplacementClean(w);
    } else {
      NoneAt(w, P);
      NoneAt(w, Q);
    }
  }

  lemma ForEachAllComplete(body: seq<Node>)
    requires !AnyIn(body, OnGoogArrayP())
    ensures !AnyIn(RewriteAll(body, ForEachRule()), ForEachable())
  {
    forall i | 0 <= i < |body|
      ensures !AnyNode(RewriteAll(body, ForEachRule())[i], ForEachable())
    {
      ForEachComplete(body[i]);
    }
  }

  /** `foreach.js`: every matched call in the file is replaced. */
  method ReplaceForEach(p: Program)
    modifies p
    ensures p.body == RewriteAll(old(p.body), ForEachRule())
    ensures !AnyIn(old(p.body), OnGoogArrayP()) ==> !AnyIn(p.body, ForEachable())
  {
    if !AnyIn(p.body, OnGoogArrayP()) {
      ForEachAllComplete(p.body);
    }
    p.body := RewriteAll(p.body, ForEachRule());
  }
}
