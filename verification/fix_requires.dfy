/**
 * `src/transforms/es6/fixrequires.js` and `src/transforms/es6/fixtestmodules.js`:
 * a `goog.require` or `goog.module.get` declaration of an ES module with a
 * default export gets the `{default: x}` target.
 */
module FixRequires {
  import opened Wrappers
  import opened Ast
  import opened AstUtils
  import opened ModuleDeps

  /** The first pass (`goog.require` declarations), then the second (`goog.module.get`) on its output. */
  function FixPasses(body: seq<Node>, r: Resolver): seq<Node>
  {
    RewriteAll(RewriteAll(body, DefaultRule(r, RequireCallee, true, true)), DefaultRule(r, ModuleGetCallee, true, true))
  }

  /** Some pass reads the argument of a call that has none. */
  predicate FixThrows(body: seq<Node>, r: Resolver)
  {
    AnyIn(body, Throws(RequireCallee, true)) ||
    AnyIn(RewriteAll(body, DefaultRule(r, RequireCallee, true, true)), Throws(ModuleGetCallee, true))
  }

  /**
   * `fixrequires.js`: when a pass throws the file is left as it was;
   * otherwise both passes are applied.
   */
  method FixRequires(p: Program, r: Resolver) returns (res: Outcome)
    modifies p
    ensures res.Fail? <==> FixThrows(old(p.body), r)
    ensures res.Fail? ==> p.body == old(p.body)
    ensures res.Pass? ==> p.body == FixPasses(old(p.body), r)
  {
    var body := p.body;
    if FixThrows(body, r) {
      return Fail("Cannot read properties of undefined (reading 'value')");
    }
    p.body := FixPasses(body, r);
    res := Pass;
  }

  /** A file without a declaration either pass would change comes out as it went in. */
  lemma FixPassesNothingToFix(body: seq<Node>, r: Resolver)
    requires !AnyIn(body, Fixable(r, RequireCallee, true, true))
    requires !AnyIn(body, Fixable(r, ModuleGetCallee, true, true))
    ensures FixPasses(body, r) == body
  {
    RewriteAllUnchanged(body, DefaultRule(r, RequireCallee, true, true), Fixable(r, RequireCallee, true, true));
    RewriteAllUnchanged(body, DefaultRule(r, ModuleGetCallee, true, true), Fixable(r, ModuleGetCallee, true, true));
  }

  /** Each pass leaves no declaration it would change, so running either pass again changes nothing. */
  lemma FixPassesComplete(body: seq<Node>, r: Resolver)
    ensures var first := RewriteAll(body, DefaultRule(r, RequireCallee, true, true));
      !AnyIn(first, Fixable(r, RequireCallee, true, true)) &&
      RewriteAll(first, DefaultRule(r, RequireCallee, true, true)) == first
    ensures !AnyIn(FixPasses(body, r), Fixable(r, ModuleGetCallee, true, true))
    ensures RewriteAll(FixPasses(body, r), DefaultRule(r, ModuleGetCallee, true, true)) == FixPasses(body, r)
  {
    var first := RewriteAll(body, DefaultRule(r, RequireCallee, true, true));
    DefaultPassComplete(body, r, RequireCallee, true);
    DefaultPassIdempotent(body, r, RequireCallee, true);
    DefaultPassComplete(first, r, ModuleGetCallee, true);
    DefaultPassIdempotent(first, r, ModuleGetCallee, true);
  }

  /** The one pass of `fixtestmodules.js`: `goog.module.get` declarations, whatever their target. */
  function TestModulesPass(body: seq<Node>, r: Resolver): seq<Node>
  {
    RewriteAll(body, DefaultRule(r, ModuleGetCallee, false, true))
  }

  /**
   * `fixtestmodules.js`, for a given test-file recogniser `isTest`: a file
   * it does not recognise is left as it is; otherwise the pass is applied,
   * unless it throws. With `isKarmaTest` as the recogniser no file is ever
   * recognised (`Karma.IsKarmaTestNever`), so the transform changes nothing.
   */
  method FixTestModules(p: Program, r: Resolver, isTest: seq<Node> -> bool) returns (res: Outcome)
    modifies p
    ensures !isTest(old(p.body)) ==> res.Pass? && p.body == old(p.body)
    ensures res.Fail? <==> isTest(old(p.body)) && AnyIn(old(p.body), Throws(ModuleGetCallee, false))
    ensures res.Fail? ==> p.body == old(p.body)
    ensures res.Pass? && isTest(old(p.body)) ==> p.body == TestModulesPass(old(p.body), r)
  {
    res := Pass;
    var body := p.body;
    if isTest(body) {
      if AnyIn(body, Throws(ModuleGetCallee, false)) {
        return Fail("Cannot read properties of undefined (reading 'value')");
      }
      p.body := TestModulesPass(body, r);
    }
  }
}
