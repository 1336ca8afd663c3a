/**
 * The statement passes of the class conversions: `root.find(...).forEach(cb)`
 * over the top-level statements, where each callback may replace or remove
 * its statement, append methods to the class being built, set its
 * superclass, move a declaration in front of it, log warnings, or throw.
 */
module ClassPass {
  import opened Wrappers
  import opened Seqs
  import opened Ast
  import opened AstUtils

  /** What a callback does with one matched statement. */
  datatype Handled = Handled(
    /** The statements left in its place: none when it is removed, itself when it is untouched. */
    stays: seq<Node>,
    /** Methods pushed onto the class body, in order. */
    members: seq<Node>,
    warnings: seq<string>,
    /** A new `superClass` for the class, if it sets one. */
    superClass: Option<Node>,
    /** Declarations inserted just before the class. */
    hoisted: seq<Node>,
    /** Property names whose `module.prop` references become the bare `prop`. */
    renamed: seq<string>)

  /** The callback's outcome: what it did, or the error it threw. */
  datatype Step = Done(h: Handled) | Threw(error: string)

  /** Nothing done. */
  const Nothing := Handled([], [], [], None, [], [])

  /** An untouched statement. */
  function Keep(s: Node): Handled
  {
    Handled([s], [], [], None, [], [])
  }

  /** Two callbacks one after the other: everything is appended in order; the later superclass wins. */
  function Then(a: Handled, b: Handled): (r: Handled)
    ensures r.stays == a.stays + b.stays && r.members == a.members + b.members
    ensures r.warnings == a.warnings + b.warnings
  {
    Handled(a.stays + b.stays, a.members + b.members, a.warnings + b.warnings,
            if b.superClass.Some? then b.superClass else a.superClass,
            a.hoisted + b.hoisted, a.renamed + b.renamed)
  }

  /** A pass so far: what the callbacks did, and the error that stopped it, if any. */
  datatype PassResult = PassResult(acc: Handled, error: Option<string>)

  /**
   * The pass over `stmts`, from the end: unmatched statements stay as they
   * are; once a callback throws, the later statements are not handled.
   */
  function ForEach(stmts: seq<Node>, matches: Node -> bool, handle: Node -> Step): PassResult
    decreases |stmts|
  {
    if stmts == [] then PassResult(Nothing, None)
    else
      var prev := ForEach(stmts[..|stmts| - 1], matches, handle);
      var s := stmts[|stmts| - 1];
      if prev.error.Some? then prev
      else if !matches(s) then PassResult(Then(prev.acc, Keep(s)), None)
      else
        match handle(s)
        case Threw(e) => PassResult(prev.acc, Some(e))
        case Done(h) => PassResult(Then(prev.acc, h), None)
  }

  lemma PassPrefix(stmts: seq<Node>, i: nat)
    requires i < |stmts|
    ensures stmts[..i + 1][..i] == stmts[..i] && stmts[..i + 1][i] == stmts[i]
  {
  }

  /** After a throw the rest of the statements change nothing. */
  lemma {:induction false} PassStopped(stmts: seq<Node>, matches: Node -> bool, handle: Node -> Step, n: nat)
    requires n <= |stmts|
    requires ForEach(stmts[..n], matches, handle).error.Some?
    ensures ForEach(stmts, matches, handle) == ForEach(stmts[..n], matches, handle)
    decreases |stmts| - n
  {
    if n < |stmts| {
      PassPrefix(stmts, n);
      PassStopped(stmts, matches, handle, n + 1);
    } else {
      assert stmts[..n] == stmts;
    }
  }

  /**
   * `root.find(...).forEach(cb)` over the top-level statements: each matched
   * statement is handed to the callback, in order, until one throws.
   */
  method RunPass(stmts: seq<Node>, matches: Node -> bool, handle: Node -> Step) returns (r: PassResult)
    ensures r == ForEach(stmts, matches, handle)
  {
    var acc := Nothing;
    for i := 0 to |stmts|
      invariant ForEach(stmts[..i], matches, handle) == PassResult(acc, None)
    {
      var s := stmts[i];
      PassPrefix(stmts, i);
      if matches(s) {
        var step := handle(s);
        if step.Threw? {
          r := PassResult(acc, Some(step.error));
          PassStopped(stmts, matches, handle, i + 1);
          return;
        }
        acc := Then(acc, step.h);
      } else {
        acc := Then(acc, Keep(s));
      }
    }
    assert stmts[..|stmts|] == stmts;
    r := PassResult(acc, None);
  }

  /** A pass whose matched statements all pass through a callback that keeps them leaves the list as it was. */
  lemma {:induction false} PassKeeps(stmts: seq<Node>, matches: Node -> bool, handle: Node -> Step)
    requires forall s :: matches(s) ==> handle(s) == Done(Keep(s))
    ensures ForEach(stmts, matches, handle) == PassResult(Handled(stmts, [], [], None, [], []), None)
    decreases |stmts|
  {
    if stmts != [] {
      PassKeeps(stmts[..|stmts| - 1], matches, handle);
      LastSplit(stmts, |stmts| - 1);
    }
  }

  /** A pass whose callback keeps every matched statement of the list as it is changes nothing. */
  lemma {:induction false} PassKeepsWithin(stmts: seq<Node>, matches: Node -> bool, handle: Node -> Step)
    requires forall s :: s in stmts && matches(s) ==> handle(s) == Done(Keep(s))
    ensures ForEach(stmts, matches, handle) == PassResult(Handled(stmts, [], [], None, [], []), None)
    decreases |stmts|
  {
    if stmts != [] {
      var init := stmts[..|stmts| - 1];
      forall s | s in init
        ensures s in stmts
      {
        var i :| 0 <= i < |init| && init[i] == s;
        assert stmts[i] == s;
      }
      PassKeepsWithin(init, matches, handle);
      LastSplit(stmts, |stmts| - 1);
    }
  }

  /** Statements the pass does not match are kept, each in its place among the others. */
  lemma {:induction false} PassUnmatched(stmts: seq<Node>, matches: Node -> bool, handle: Node -> Step)
    requires forall i :: 0 <= i < |stmts| ==> !matches(stmts[i])
    ensures ForEach(stmts, matches, handle) == PassResult(Handled(stmts, [], [], None, [], []), None)
    decreases |stmts|
  {
    if stmts != [] {
      PassUnmatched(stmts[..|stmts| - 1], matches, handle);
      LastSplit(stmts, |stmts| - 1);
    }
  }

  /** The methods a pass adds come from its callbacks, in statement order: one pass over `a + b` is a pass over `a` then `b`. */
  lemma {:induction false} PassConcat(a: seq<Node>, b: seq<Node>, matches: Node -> bool, handle: Node -> Step)
    requires ForEach(a, matches, handle).error.None?
    ensures var pa := ForEach(a, matches, handle);
      var pb := ForEach(b, matches, handle);
      ForEach(a + b, matches, handle) == PassResult(Then(pa.acc, pb.acc), pb.error)
    decreases |b|
  {
    var pa := ForEach(a, matches, handle);
    if b == [] {
      assert a + b == a;
      assert Then(pa.acc, Nothing) == pa.acc;
    } else {
      var init := b[..|b| - 1];
      assert (a + b)[..|a + b| - 1] == a + init;
      assert (a + b)[|a + b| - 1] == b[|b| - 1];
      PassConcat(a, init, matches, handle);
      var pi := ForEach(init, matches, handle);
      if pi.error.None? {
        var s := b[|b| - 1];
        ThenAssoc(pa.acc, pi.acc, Keep(s));
        if handle(s).Done? {
          ThenAssoc(pa.acc, pi.acc, handle(s).h);
        }
      }
    }
  }

  lemma ThenAssoc(a: Handled, b: Handled, c: Handled)
    ensures Then(Then(a, b), c) == Then(a, Then(b, c))
  {
    Assoc(a.stays, b.stays, c.stays);
    Assoc(a.members, b.members, c.members);
    Assoc(a.warnings, b.warnings, c.warnings);
    Assoc(a.hoisted, b.hoisted, c.hoisted);
    Assoc(a.renamed, b.renamed, c.renamed);
  }

  /**
   * Handlers that turn each matched statement they do not refuse into
   * exactly one statement or exactly one class method.
   */
  ghost predicate OneForOne(matches: Node -> bool, handle: Node -> Step)
  {
    forall s :: matches(s) && handle(s).Done? ==> |handle(s).h.stays| + |handle(s).h.members| == 1
  }

  /** Nothing is lost or duplicated: every statement of a completed pass is either still there or a method. */
  lemma {:induction false} PassConserves(stmts: seq<Node>, matches: Node -> bool, handle: Node -> Step)
    requires OneForOne(matches, handle)
    ensures var r := ForEach(stmts, matches, handle);
      r.error.None? ==> |r.acc.stays| + |r.acc.members| == |stmts|
    decreases |stmts|
  {
    if stmts != [] {
      PassConserves(stmts[..|stmts| - 1], matches, handle);
    }
  }

  /**
   * A completed pass leaves no statement of kind `Q` when every `Q`
   * statement is matched and no handler leaves one behind.
   */
  lemma {:induction false} PassClears(stmts: seq<Node>, matches: Node -> bool, handle: Node -> Step, Q: Node -> bool)
    requires forall s :: Q(s) ==> matches(s)
    requires forall s :: matches(s) && handle(s).Done? ==> forall t :: t in handle(s).h.stays ==> !Q(t)
    ensures var r := ForEach(stmts, matches, handle);
      r.error.None? ==> forall t :: t in r.acc.stays ==> !Q(t)
    decreases |stmts|
  {
    if stmts != [] {
      PassClears(stmts[..|stmts| - 1], matches, handle, Q);
    }
  }

  /** Is `x` the class declaration with identity `uid`? */
  predicate IsClass(x: Node, uid: nat)
  {
    x.ClassDeclaration? && x.uid == uid
  }

  /** Is the top-level statement `s` that class, directly or wrapped in an expression statement? */
  predicate HoldsClass(s: Node, uid: nat)
  {
    IsClass(s, uid) || (s.ExpressionStatement? && IsClass(s.expression, uid))
  }

  /** The statement with the class's body extended by `ms` (`classDef.body.body.push(...)`). */
  function WithMembers(s: Node, uid: nat, ms: seq<Node>): (r: Node)
    ensures !HoldsClass(s, uid) ==> r == s
  {
    if IsClass(s, uid) then s.(members := s.members + ms)
    else if s.ExpressionStatement? && IsClass(s.expression, uid) then
      s.(expression := s.expression.(members := s.expression.members + ms))
    else s
  }

  /** The statement with the class's `superClass` set. */
  function WithSuperClass(s: Node, uid: nat, sc: Node): (r: Node)
    ensures !HoldsClass(s, uid) ==> r == s
  {
    if IsClass(s, uid) then s.(superClass := sc)
    else if s.ExpressionStatement? && IsClass(s.expression, uid) then
      s.(expression := s.expression.(superClass := sc))
    else s
  }

  /** The top-level class with identity `uid` given the methods `ms`. */
  function AddMembers(stmts: seq<Node>, uid: nat, ms: seq<Node>): (r: seq<Node>)
    ensures |r| == |stmts|
    ensures forall i :: 0 <= i < |stmts| ==> r[i] == WithMembers(stmts[i], uid, ms)
  {
    seq(|stmts|, i requires 0 <= i < |stmts| => WithMembers(stmts[i], uid, ms))
  }

  function SetSuperClass(stmts: seq<Node>, uid: nat, sc: Node): (r: seq<Node>)
    ensures |r| == |stmts|
    ensures forall i :: 0 <= i < |stmts| ==> r[i] == WithSuperClass(stmts[i], uid, sc)
  {
    seq(|stmts|, i requires 0 <= i < |stmts| => WithSuperClass(stmts[i], uid, sc))
  }

  /** The statements after a completed pass: what stays, with the class updated as the callbacks asked. */
  function Settle(h: Handled, uid: nat): (r: seq<Node>)
    ensures |r| == |h.stays|
  {
    var withMembers := AddMembers(h.stays, uid, h.members);
    if h.superClass.Some? then SetSuperClass(withMembers, uid, h.superClass.value) else withMembers
  }

  /**
   * Settling touches only the class: every other statement is the one the
   * pass left, and the class gains exactly the pushed methods, in order.
   */
  lemma SettleSpec(h: Handled, uid: nat, i: nat)
    requires i < |h.stays|
    ensures !HoldsClass(h.stays[i], uid) ==> Settle(h, uid)[i] == h.stays[i]
    ensures IsClass(h.stays[i], uid) ==> Settle(h, uid)[i].members == h.stays[i].members + h.members
    ensures IsClass(h.stays[i], uid) && h.superClass.Some? ==> Settle(h, uid)[i].superClass == h.superClass.value
    ensures IsClass(h.stays[i], uid) && h.superClass.None? ==> Settle(h, uid)[i].superClass == h.stays[i].superClass
  {
  }

  /** Does the statement declare the class `name`, directly or as the expression of a statement? */
  predicate DeclaresNamed(s: Node, name: string)
  {
    (s.ClassDeclaration? && s.id == Identifier(name)) ||
    (s.ExpressionStatement? && s.expression.ClassDeclaration? && s.expression.id == Identifier(name))
  }

  /** `insertBeforeClass`: `decls` inserted before every statement declaring the class `name`. */
  function InsertBeforeClass(stmts: seq<Node>, name: string, decls: seq<Node>): (r: seq<Node>)
    decreases |stmts|
  {
    if stmts == [] then []
    else (if DeclaresNamed(stmts[0], name) then decls else []) + [stmts[0]] + InsertBeforeClass(stmts[1..], name, decls)
  }

  /** `module.prop` as a bottom-up rewrite to the bare `prop`. */
  function RenameRule(moduleName: string, prop: string): Node -> Node
  {
    (x: Node) => if MatchesPath(x, moduleName + "." + prop) then Identifier(prop) else x
  }

  /** The references `module.prop` replaced by `prop`, one property after the other. */
  function RenameRefs(stmts: seq<Node>, moduleName: string, props: seq<string>): seq<Node>
    decreases |props|
  {
    if props == [] then stmts
    else RenameRefs(RewriteAll(stmts, RenameRule(moduleName, props[0])), moduleName, props[1..])
  }

  /** The statements after a completed pass that may also move declarations before the class and rename references. */
  function Apply(h: Handled, uid: nat, className: string, moduleName: string): seq<Node>
  {
    RenameRefs(InsertBeforeClass(Settle(h, uid), className, h.hoisted), moduleName, h.renamed)
  }

  /** With nothing moved and nothing renamed, applying a pass is settling it. */
  lemma {:induction false} ApplyPlain(h: Handled, uid: nat, className: string, moduleName: string)
    requires h.hoisted == [] && h.renamed == []
    ensures Apply(h, uid, className, moduleName) == Settle(h, uid)
  {
    InsertNothing(Settle(h, uid), className);
  }

  lemma {:induction false} InsertNothing(stmts: seq<Node>, name: string)
    ensures InsertBeforeClass(stmts, name, []) == stmts
    decreases |stmts|
  {
    if stmts != [] {
      InsertNothing(stmts[1..], name);
      HeadTail(stmts);
    }
  }

  /**
   * The declarations are inserted, in order, right before each statement
   * declaring the class; the statements themselves keep their order.
   */
  lemma {:induction false} InsertBeforeOne(a: seq<Node>, c: Node, b: seq<Node>, name: string, decls: seq<Node>)
    requires DeclaresNamed(c, name)
    requires forall i :: 0 <= i < |a| ==> !DeclaresNamed(a[i], name)
    requires forall i :: 0 <= i < |b| ==> !DeclaresNamed(b[i], name)
    ensures InsertBeforeClass(a + [c] + b, name, decls) == a + decls + [c] + b
    decreases |a|
  {
    if a == [] {
      assert (a + [c] + b)[1..] == b;
      NoneInserted(b, name, decls);
    } else {
      assert (a + [c] + b)[1..] == a[1..] + [c] + b;
      InsertBeforeOne(a[1..], c, b, name, decls);
      assert [a[0]] + (a[1..] + decls + [c] + b) == a + decls + [c] + b;
    }
  }

  lemma {:induction false} NoneInserted(stmts: seq<Node>, name: string, decls: seq<Node>)
    requires forall i :: 0 <= i < |stmts| ==> !DeclaresNamed(stmts[i], name)
    ensures InsertBeforeClass(stmts, name, decls) == stmts
    decreases |stmts|
  {
    if stmts != [] {
      NoneInserted(stmts[1..], name, decls);
      HeadTail(stmts);
    }
  }
}
