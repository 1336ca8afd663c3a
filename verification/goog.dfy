/**
 * `src/utils/goog.js`: recognising `goog.require`/`goog.provide` calls,
 * adding a require and sorting the requires of a Closure file. Requires
 * and provides are the call statements of the program body.
 */
module Goog {
  import opened Wrappers
  import opened Strings
  import opened Ast
  import opened AstUtils
  import opened Sorting
  import opened Seqs

  /** `isGoogRequire(node)`: a call matching `{callee: {object: {name: 'goog'}, property: {name: 'require'}}}`. */
  predicate IsGoogRequire(n: Node)
  {
    n.CallExpression? && Matches(n.callee, MemberIs(NameIs("goog"), "require"))
  }

  /** `isGoogProvide(node)`: the same with `provide`. */
  predicate IsGoogProvide(n: Node)
  {
    n.CallExpression? && Matches(n.callee, MemberIs(NameIs("goog"), "provide"))
  }

  /** Exactly the calls whose callee is the identifier chain `goog.require` / `goog.provide`. */
  lemma RecognisesExactly(n: Node)
    ensures IsGoogRequire(n) <==> n.CallExpression? && Segments(n.callee) == Some(["goog", "require"])
    ensures IsGoogProvide(n) <==> n.CallExpression? && Segments(n.callee) == Some(["goog", "provide"])
  {
    if n.CallExpression? {
      ChainMatchesSegments(n.callee, ["goog", "require"]);
      ChainMatchesSegments(n.callee, ["goog", "provide"]);
    }
  }

  predicate IsRequireStatement(s: Node)
  {
    s.ExpressionStatement? && IsGoogRequire(s.expression)
  }

  predicate IsProvideStatement(s: Node)
  {
    s.ExpressionStatement? && IsGoogProvide(s.expression)
  }

  /** A require that names its module with a string literal, as `arguments[0].value` assumes. */
  predicate WellNamed(s: Node)
  {
    !IsRequireStatement(s) ||
    (|s.expression.arguments| >= 1 && s.expression.arguments[0].Literal? && s.expression.arguments[0].v.Str?)
  }

  predicate NamedRequires(body: seq<Node>)
  {
    forall i :: 0 <= i < |body| ==> WellNamed(body[i])
  }

  /** `arguments[0].value` of a require statement (the empty text where that is not a string). */
  function RequireName(s: Node): string
  {
    if s.ExpressionStatement? && s.expression.CallExpression? && |s.expression.arguments| >= 1 &&
       s.expression.arguments[0].Literal? && s.expression.arguments[0].v.Str?
    then s.expression.arguments[0].v.s
    else ""
  }

  /** The name a statement requires, as a list of at most one. */
  function NamesOf(s: Node): seq<string>
  {
    if IsRequireStatement(s) then [RequireName(s)] else []
  }

  /** The required names in statement order. */
  function RequireNames(body: seq<Node>): seq<string>
  {
    if body == [] then [] else NamesOf(body[0]) + RequireNames(body[1..])
  }

  /** `goog.require('name')` */
  function RequireCall(name: string): Node
  {
    CallExpression(MemberExpression(Identifier("goog"), Identifier("require")), [Literal(Str(name))])
  }

  lemma RequireCallIsRequire(name: string)
    ensures IsGoogRequire(RequireCall(name))
  {
  }

  /** The statement `goog.require('name');` */
  function RequireStatement(name: string): (s: Node)
    ensures IsRequireStatement(s) && WellNamed(s) && RequireName(s) == name
  {
    RequireCallIsRequire(name);
    ExpressionStatement(RequireCall(name), [])
  }

  /** A require statement with its call replaced by a require of `name`. */
  function Renamed(s: Node, name: string): (r: Node)
    requires IsRequireStatement(s)
    ensures IsRequireStatement(r) && WellNamed(r) && RequireName(r) == name && CommentsOf(r) == CommentsOf(s)
  {
    RequireCallIsRequire(name);
    s.(expression := RequireCall(name))
  }

  /** The require statements with their calls replaced, in order, by requires of `names`; the statements (and their comments) stay. */
  function WithRequireNames(body: seq<Node>, names: seq<string>): (r: seq<Node>)
    requires |names| == |RequireNames(body)|
    ensures |r| == |body|
  {
    if body == [] then []
    else if IsRequireStatement(body[0]) then
      [Renamed(body[0], names[0])] + WithRequireNames(body[1..], names[1..])
    else [body[0]] + WithRequireNames(body[1..], names)
  }

  /** Renaming keeps every statement's kind, position and comments, and leaves the other statements alone. */
  lemma {:induction false} WithRequireNamesSpec(body: seq<Node>, names: seq<string>)
    requires |names| == |RequireNames(body)|
    ensures NamedRequires(WithRequireNames(body, names))
    ensures RequireNames(WithRequireNames(body, names)) == names
    ensures forall i :: 0 <= i < |body| ==>
      (IsRequireStatement(WithRequireNames(body, names)[i]) <==> IsRequireStatement(body[i])) &&
      CommentsOf(WithRequireNames(body, names)[i]) == CommentsOf(body[i]) &&
      (!IsRequireStatement(body[i]) ==> WithRequireNames(body, names)[i] == body[i])
  {
    if body != [] {
      var rest := body[1..];
      var r := WithRequireNames(body, names);
      if IsRequireStatement(body[0]) {
        WithRequireNamesSpec(rest, names[1..]);
        assert r == [Renamed(body[0], names[0])] + WithRequireNames(rest, names[1..]);
        assert r[1..] == WithRequireNames(rest, names[1..]);
        assert names == [names[0]] + names[1..];
      } else {
        WithRequireNamesSpec(rest, names);
        assert r[1..] == WithRequireNames(rest, names);
      }
    }
  }

  lemma {:induction false} RequireNamesAppend(body: seq<Node>, s: Node)
    ensures RequireNames(body + [s]) == RequireNames(body) + NamesOf(s)
  {
    if body != [] {
      ConcatHead(body, [s]);
      RequireNamesAppend(body[1..], s);
    }
  }

  lemma {:induction false} WithRequireNamesConcat(a: seq<Node>, na: seq<string>, b: seq<Node>, nb: seq<string>)
    requires |na| == |RequireNames(a)| && |nb| == |RequireNames(b)|
    ensures |na + nb| == |RequireNames(a + b)|
    ensures WithRequireNames(a + b, na + nb) == WithRequireNames(a, na) + WithRequireNames(b, nb)
  {
    RequireNamesConcat(a, b);
    if a == [] {
      ConcatEmpty(b);
      ConcatEmpty(nb);
    } else {
      var ab := a + b;
      var rest := a[1..];
      ConcatHead(a, b);
      var k := |NamesOf(a[0])|;
      assert (na + nb)[k..] == na[k..] + nb;
      WithRequireNamesConcat(rest, na[k..], b, nb);
      var head := if k == 1 then [Renamed(a[0], na[0])] else [a[0]];
      assert WithRequireNames(a, na) == head + WithRequireNames(rest, na[k..]);
      var x := WithRequireNames(rest, na[k..]);
      var y := WithRequireNames(b, nb);
      assert WithRequireNames(ab, na + nb) == head + (x + y);
      Assoc(head, x, y);
    }
  }

  lemma WithRequireNamesAppend(body: seq<Node>, names: seq<string>, s: Node, extra: seq<string>)
    requires |names| == |RequireNames(body)|
    requires |extra| == |NamesOf(s)|
    ensures |names + extra| == |RequireNames(body + [s])|
    ensures WithRequireNames(body + [s], names + extra) ==
      WithRequireNames(body, names) + (if IsRequireStatement(s) then [Renamed(s, extra[0])] else [s])
  {
    assert RequireNames([s]) == NamesOf(s) + RequireNames([]);
    WithRequireNamesConcat(body, names, [s], extra);
    if IsRequireStatement(s) {
      assert WithRequireNames([s], extra) == [Renamed(s, extra[0])] + WithRequireNames([], extra[1..]);
    } else {
      assert WithRequireNames([s], extra) == [s] + WithRequireNames([], extra);
    }
  }

  /** `sortRequires`: the require statements keep their places and receive the required names in ascending order. */
  method SortRequires(p: Program)
    modifies p
    requires NamedRequires(p.body)
    ensures NamedRequires(p.body)
    ensures p.body == WithRequireNames(old(p.body), SortStrings(RequireNames(old(p.body))))
    ensures SortedBy(RequireNames(p.body), (x: string) => x)
    ensures multiset(RequireNames(p.body)) == multiset(RequireNames(old(p.body)))
  {
    var body := p.body;
    var sorted := SortStrings(RequireNames(body));
    assert |sorted| == |RequireNames(body)| by {
      assert |multiset(sorted)| == |multiset(RequireNames(body))|;
    }
    var out: seq<Node> := [];
    var i := 0;
    var k := 0;
    while i < |body|
      invariant 0 <= i <= |body|
      invariant k == |RequireNames(body[..i])| && k <= |sorted|
      invariant out == WithRequireNames(body[..i], sorted[..k])
    {
      RenameStep(body, sorted, i, k);
      if IsRequireStatement(body[i]) {
        out := out + [Renamed(body[i], sorted[k])];
        k := k + 1;
      } else {
        out := out + [body[i]];
      }
      i := i + 1;
    }
    PrefixAll(body);
    PrefixAll(sorted);
    p.body := out;
    WithRequireNamesSpec(body, sorted);
  }

  /** One step of the renaming loop: the prefix grows by one statement. */
  lemma RenameStep(body: seq<Node>, names: seq<string>, i: nat, k: nat)
    requires |names| == |RequireNames(body)|
    requires i < |body| && k == |RequireNames(body[..i])|
    ensures k + |NamesOf(body[i])| == |RequireNames(body[..i + 1])| <= |names|
    ensures IsRequireStatement(body[i]) ==> k < |names|
    ensures WithRequireNames(body[..i + 1], names[..k + |NamesOf(body[i])|]) ==
      WithRequireNames(body[..i], names[..k]) +
      (if IsRequireStatement(body[i]) then [Renamed(body[i], names[k])] else [body[i]])
  {
    PrefixSnoc(body, i);
    RequireNamesAppend(body[..i], body[i]);
    RequireNamesPrefix(body, i + 1);
    if IsRequireStatement(body[i]) {
      WithRequireNamesAppend(body[..i], names[..k], body[i], [names[k]]);
      assert names[..k] + [names[k]] == names[..k + 1];
    } else {
      WithRequireNamesAppend(body[..i], names[..k], body[i], []);
      assert names[..k] + [] == names[..k];
    }
  }

  lemma {:induction false} RequireNamesPrefix(body: seq<Node>, i: nat)
    requires i <= |body|
    ensures |RequireNames(body[..i])| <= |RequireNames(body)|
    decreases |body| - i
  {
    if i < |body| {
      RequireNamesPrefix(body, i + 1);
      PrefixSnoc(body, i);
      RequireNamesAppend(body[..i], body[i]);
    } else {
      PrefixAll(body);
    }
  }

  /** Index of the first statement satisfying `P`, if any. */
  function FirstIndex(body: seq<Node>, P: Node -> bool): (r: Option<nat>)
    ensures r.Some? ==> r.value < |body| && P(body[r.value]) && forall j :: 0 <= j < r.value ==> !P(body[j])
    ensures r.None? ==> forall j :: 0 <= j < |body| ==> !P(body[j])
  {
    if body == [] then None
    else if P(body[0]) then Some(0)
    else
      var r := FirstIndex(body[1..], P);
      if r.Some? then Some(r.value + 1) else None
  }

  /** The first index is the only one with `P` and no `P` before it. */
  lemma {:induction false} FirstIndexUnique(body: seq<Node>, P: Node -> bool, i: nat)
    requires i < |body| && P(body[i])
    requires forall j :: 0 <= j < i ==> !P(body[j])
    ensures FirstIndex(body, P) == Some(i)
  {
    if i > 0 {
      assert !P(body[0]);
      forall j | 0 <= j < i - 1
        ensures !P(body[1..][j])
      {
        assert body[1..][j] == body[j + 1];
      }
      FirstIndexUnique(body[1..], P, i - 1);
    }
  }

  /** The statement after which a new require goes: the first require, else the first provide. */
  function RequireAnchor(body: seq<Node>): (r: Option<nat>)
    ensures r.Some? ==> r.value < |body|
  {
    var req := FirstIndex(body, IsRequireStatement);
    if req.Some? then req else FirstIndex(body, IsProvideStatement)
  }

  function InsertAfter(body: seq<Node>, i: nat, s: Node): (r: seq<Node>)
    requires i < |body|
    ensures |r| == |body| + 1 && r[i + 1] == s
  {
    body[..i + 1] + [s] + body[i + 1..]
  }

  lemma {:induction false} RequireNamesConcat(a: seq<Node>, b: seq<Node>)
    ensures RequireNames(a + b) == RequireNames(a) + RequireNames(b)
  {
    if a == [] {
      ConcatEmpty(b);
    } else {
      ConcatHead(a, b);
      RequireNamesConcat(a[1..], b);
    }
  }

  lemma {:induction false} NamedRequiresConcat(a: seq<Node>, b: seq<Node>)
    requires NamedRequires(a) && NamedRequires(b)
    ensures NamedRequires(a + b)
  {
    forall i | 0 <= i < |a + b|
      ensures WellNamed((a + b)[i])
    {
      if i < |a| {
        assert (a + b)[i] == a[i];
      } else {
        assert (a + b)[i] == b[i - |a|];
      }
    }
  }

  /** Inserting a require statement after position `i` adds exactly its name to the required names. */
  lemma InsertedNames(body: seq<Node>, i: nat, s: Node)
    requires i < |body| && IsRequireStatement(s)
    ensures multiset(RequireNames(InsertAfter(body, i, s))) == multiset(RequireNames(body)) + multiset{RequireName(s)}
  {
    var a := body[..i + 1];
    var b := body[i + 1..];
    RequireNamesConcat(a, b);
    SplitAt(body, i + 1);
    RequireNamesAppend(a, s);
    RequireNamesConcat(a + [s], b);
    assert InsertAfter(body, i, s) == (a + [s]) + b;
  }

  /** The inserted require names its module with a string. */
  lemma InsertedWellNamed(body: seq<Node>, i: nat, name: string)
    requires NamedRequires(body) && i < |body|
    ensures NamedRequires(InsertAfter(body, i, RequireStatement(name)))
  {
    var s := RequireStatement(name);
    var a := body[..i + 1];
    var b := body[i + 1..];
    assert NamedRequires(a) && NamedRequires(b) && NamedRequires([s]);
    NamedRequiresConcat(a, [s]);
    NamedRequiresConcat(a + [s], b);
  }

  /**
   * `addRequire(root, name)`: nothing when the name is already required, and
   * nothing when the file has neither requires nor provides. Otherwise
   * `goog.require('name');` goes right after the first require (else the
   * first provide) and the requires are sorted. Either way the name is then
   * required, unless there was nowhere to put it, so a second call with the
   * same name changes nothing.
   */
  method AddRequire(p: Program, toAdd: string)
    modifies p
    requires NamedRequires(p.body)
    ensures NamedRequires(p.body)
    ensures toAdd in RequireNames(old(p.body)) ==> p.body == old(p.body)
    ensures RequireAnchor(old(p.body)).None? ==> p.body == old(p.body)
    ensures toAdd !in RequireNames(old(p.body)) && RequireAnchor(old(p.body)).Some? ==>
      NamedRequires(InsertAfter(old(p.body), RequireAnchor(old(p.body)).value, RequireStatement(toAdd))) &&
      var inserted := InsertAfter(old(p.body), RequireAnchor(old(p.body)).value, RequireStatement(toAdd));
      p.body == WithRequireNames(inserted, SortStrings(RequireNames(inserted))) &&
      multiset(RequireNames(p.body)) == multiset(RequireNames(old(p.body))) + multiset{toAdd} &&
      SortedBy(RequireNames(p.body), (x: string) => x)
    ensures toAdd in RequireNames(p.body) || RequireAnchor(p.body).None?
  {
    var names := RequireNames(p.body);
    if toAdd !in names {
      var anchor := RequireAnchor(p.body);
      if anchor.Some? {
        InsertedNames(p.body, anchor.value, RequireStatement(toAdd));
        InsertedWellNamed(p.body, anchor.value, toAdd);
        p.body := InsertAfter(p.body, anchor.value, RequireStatement(toAdd));
        ghost var before := RequireNames(p.body);
        SortRequires(p);
        assert toAdd in multiset(before);
        assert toAdd in multiset(RequireNames(p.body));
      }
    }
  }
  /** `f` replaces, by calls that are not requires, only calls that are not requires. */
  ghost predicate SparesRequires(f: Node -> Node, P: Node -> bool)
  {
    CallRewrite(f, P) &&
    forall m :: P(m) ==> !IsGoogRequire(m) && !IsGoogRequire(f(m))
  }

  /** Such a rewrite keeps each statement a require or not, and a require's name. */
  lemma RewriteKeepsRequire(s: Node, f: Node -> Node, P: Node -> bool)
    requires SparesRequires(f, P)
    requires WellNamed(s)
    ensures IsRequireStatement(Rewrite(s, f)) <==> IsRequireStatement(s)
    ensures WellNamed(Rewrite(s, f))
    ensures NamesOf(Rewrite(s, f)) == NamesOf(s)
  {
    RewriteStructure(s, f, P);
    if s.ExpressionStatement? && s.expression.CallExpression? {
      var e := s.expression;
      RewriteStructure(e, f, P);
      var w := CallExpression(Rewrite(e.callee, f), RewriteAll(e.arguments, f));
      RewriteMatches(e.callee, MemberIs(NameIs("goog"), "require"), f, P);
      assert IsGoogRequire(w) <==> IsGoogRequire(e);
      if IsGoogRequire(e) {
        RewriteStructure(e.arguments[0], f, P);
      }
    } else if s.ExpressionStatement? {
      RewriteStructure(s.expression, f, P);
    }
  }

  /** Such a rewrite of every statement keeps the requires where they are, with their names. */
  lemma {:induction false} RewriteAllKeepsRequires(body: seq<Node>, f: Node -> Node, P: Node -> bool)
    requires SparesRequires(f, P)
    requires NamedRequires(body)
    ensures NamedRequires(RewriteAll(body, f))
    ensures RequireNames(RewriteAll(body, f)) == RequireNames(body)
    ensures forall i :: 0 <= i < |body| ==> (IsRequireStatement(RewriteAll(body, f)[i]) <==> IsRequireStatement(body[i]))
  {
    var r := RewriteAll(body, f);
    forall i | 0 <= i < |body|
      ensures WellNamed(r[i]) && (IsRequireStatement(r[i]) <==> IsRequireStatement(body[i]))
    {
      RewriteKeepsRequire(body[i], f, P);
    }
    if body != [] {
      RewriteKeepsRequire(body[0], f, P);
      assert r[1..] == RewriteAll(body[1..], f);
      RewriteAllKeepsRequires(body[1..], f, P);
    }
  }

  /** Lists whose statements agree on `P` position by position have the same first `P` statement. */
  lemma {:induction false} FirstIndexAgree(a: seq<Node>, b: seq<Node>, P: Node -> bool)
    requires |a| == |b|
    requires forall i :: 0 <= i < |a| ==> (P(a[i]) <==> P(b[i]))
    ensures FirstIndex(a, P) == FirstIndex(b, P)
  {
    if a != [] && !P(a[0]) {
      FirstIndexAgree(a[1..], b[1..], P);
    }
  }
}
