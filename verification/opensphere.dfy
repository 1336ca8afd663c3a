/**
 * `src/utils/opensphere.js`: the global-reference rules of a run. The
 * module-level tables (the OS-globals table, the root namespaces to detect,
 * the module blacklist) are the fields of a `GlobalRules` object; the
 * conversions report the calls they make to helpers of `src/utils/goog.js`
 * (which is not part of this model) as a list of effects.
 */
module OpenSphere {
  import opened Wrappers
  import opened Strings
  import opened Seqs
  import opened Sorting
  import opened Ast
  import opened Goog
  import opened Logger

  /**
   * An entry of the OS-globals table: the module to require (`None` when the
   * key itself is meant) and the `singleton` setting, `None` standing for
   * null or undefined.
   */
  datatype GlobalConfig = GlobalConfig(require: Option<string>, singleton: Option<bool>)

  /**
   * What `getDependency(ref, true)` returns: a module name when there is one,
   * and the identity of the returned object (`self.indexOf(d)` compares
   * objects, not their contents).
   */
  datatype GlobalDep = GlobalDep(moduleName: Option<string>, ref: nat)

  /** A call a conversion makes to a tree helper of `src/utils/goog.js`. */
  datatype Effect =
    | ReplaceLegacyRequire(name: string, require: Option<string>, singleton: bool)
    | ReplaceTestGlobals(moduleName: string)
    | ReplaceSrcGlobals(moduleName: string)
    | AddLegacyRequire(name: string)

  /**
   * The helpers the conversions call and this model does not define:
   * `memberExpressionToString`, `getGlobalRefs(root, ns)`,
   * `getDependency(ref, true)`, and whether `replaceLegacyRequire(root, name)`
   * replaced an identifier.
   */
  datatype GlobalHelpers = GlobalHelpers(
    memberText: Node -> string,
    globalRefs: string -> seq<string>,
    getDependency: string -> Option<GlobalDep>,
    replaceLegacy: string -> bool)

  // ------------------------------------------------------------ the tables

  /** `[...new Set(xs)]`: the first occurrence of each element, in order. */
  function Unique(xs: seq<string>): (r: seq<string>)
    ensures Distinct(r)
    ensures forall x :: x in r <==> x in xs
    decreases |xs|
  {
    if xs == [] then []
    else
      LastSplit(xs, |xs| - 1);
      var init := Unique(xs[..|xs| - 1]);
      var x := xs[|xs| - 1];
      if x in init then init else init + [x]
  }

  /** The set keeps what was there first, in its order: the entries before the new ones are those of `a`. */
  lemma {:induction false} UniquePrefix(a: seq<string>, b: seq<string>)
    ensures |Unique(a)| <= |Unique(a + b)| && Unique(a + b)[..|Unique(a)|] == Unique(a)
    decreases |b|
  {
    if b == [] {
      ConcatEmpty(a);
    } else {
      var b' := b[..|b| - 1];
      LastSplit(b, |b| - 1);
      assert (a + b)[..|a + b| - 1] == a + b';
      UniquePrefix(a, b');
    }
  }

  /** Names already present add nothing. */
  lemma {:induction false} UniqueNothingNew(a: seq<string>, b: seq<string>)
    requires forall y :: y in b ==> y in a
    ensures Unique(a + b) == Unique(a)
    decreases |b|
  {
    if b == [] {
      ConcatEmpty(a);
    } else {
      var b' := b[..|b| - 1];
      LastSplit(b, |b| - 1);
      assert (a + b)[..|a + b| - 1] == a + b';
      UniqueNothingNew(a, b');
      assert b[|b| - 1] in b;
    }
  }

  /** A list without duplicates is its own set. */
  lemma {:induction false} UniqueOfDistinct(xs: seq<string>)
    requires Distinct(xs)
    ensures Unique(xs) == xs
    decreases |xs|
  {
    if xs != [] {
      LastSplit(xs, |xs| - 1);
      UniqueOfDistinct(xs[..|xs| - 1]);
      assert xs[|xs| - 1] !in xs[..|xs| - 1];
    }
  }

  /** Adding the same names a second time changes nothing. */
  lemma UniqueAddTwice(a: seq<string>, b: seq<string>)
    ensures Unique(Unique(a + b) + b) == Unique(a + b)
  {
    var once := Unique(a + b);
    assert forall y :: y in b ==> y in a + b;
    UniqueNothingNew(once, b);
    UniqueOfDistinct(once);
  }

  /** `osGlobals_`, `globalRootNamespaces` and `moduleBlacklist`. */
  class GlobalRules {
    var osGlobals: map<string, Option<GlobalConfig>>
    var rootNamespaces: seq<string>
    var blacklist: seq<string>

    /** The lists hold no duplicates. */
    predicate Valid()
      reads this
    {
      Distinct(rootNamespaces) && Distinct(blacklist)
    }

    constructor()
      ensures Valid()
      ensures osGlobals == map[] && rootNamespaces == [] && blacklist == []
    {
      osGlobals := map[];
      rootNamespaces := [];
      blacklist := [];
    }

    /** `addBlacklistModules(modules)`: `None` stands for a missing list. */
    method AddBlacklistModules(modules: Option<seq<string>>)
      requires Valid()
      modifies this
      ensures Valid()
      ensures modules.None? || modules.value == [] ==> blacklist == old(blacklist)
      ensures modules.Some? && modules.value != [] ==> blacklist == Unique(old(blacklist) + modules.value)
      ensures |old(blacklist)| <= |blacklist| && blacklist[..|old(blacklist)|] == old(blacklist)
      ensures forall m :: m in blacklist <==> m in old(blacklist) || (modules.Some? && m in modules.value)
      ensures osGlobals == old(osGlobals) && rootNamespaces == old(rootNamespaces)
    {
      if modules.Some? && |modules.value| > 0 {
        UniquePrefix(blacklist, modules.value);
        UniqueOfDistinct(blacklist);
        blacklist := Unique(blacklist + modules.value);
      }
    }

    /** `addGlobalRootNamespaces(namespaces)` */
    method AddGlobalRootNamespaces(namespaces: Option<seq<string>>)
      requires Valid()
      modifies this
      ensures Valid()
      ensures namespaces.None? || namespaces.value == [] ==> rootNamespaces == old(rootNamespaces)
      ensures namespaces.Some? && namespaces.value != [] ==> rootNamespaces == Unique(old(rootNamespaces) + namespaces.value)
      ensures |old(rootNamespaces)| <= |rootNamespaces| && rootNamespaces[..|old(rootNamespaces)|] == old(rootNamespaces)
      ensures forall m :: m in rootNamespaces <==> m in old(rootNamespaces) || (namespaces.Some? && m in namespaces.value)
      ensures osGlobals == old(osGlobals) && blacklist == old(blacklist)
    {
      if namespaces.Some? && |namespaces.value| > 0 {
        UniquePrefix(rootNamespaces, namespaces.value);
        UniqueOfDistinct(rootNamespaces);
        rootNamespaces := Unique(rootNamespaces + namespaces.value);
      }
    }

    /**
     * `addOSGlobals(globals, opt_replace)`: the table is replaced only when
     * the flag is exactly `true` (`None` standing for a missing flag);
     * otherwise the entries are merged in, new ones overriding old ones.
     */
    method AddOSGlobals(globals: map<string, Option<GlobalConfig>>, replace: Option<bool>)
      modifies this
      ensures replace == Some(true) ==> osGlobals == globals
      ensures replace != Some(true) ==>
        (forall k :: k in osGlobals <==> k in old(osGlobals) || k in globals) &&
        (forall k :: k in globals ==> osGlobals[k] == globals[k]) &&
        (forall k :: k in old(osGlobals) && k !in globals ==> osGlobals[k] == old(osGlobals)[k])
      ensures rootNamespaces == old(rootNamespaces) && blacklist == old(blacklist)
    {
      if replace == Some(true) {
        osGlobals := globals;
      } else {
        osGlobals := osGlobals + globals;
      }
    }

    /** `isOSGlobalKey(key)`: an own key of the table. */
    predicate IsOSGlobalKey(key: string)
      reads this
    {
      key in osGlobals
    }

    /** `isOSGlobal(node)`: a member expression whose dotted text is a key of the table. */
    predicate IsOSGlobal(n: Node, memberText: Node -> string)
      reads this
    {
      n.MemberExpression? && IsOSGlobalKey(memberText(n))
    }

    /**
     * `convertGlobalRefs(root)`: nothing for a file that is neither a module
     * nor a test. Otherwise every OS global of the tree is replaced (in
     * tree order), then, per root namespace in order, the warnings for its
     * unresolved references are written and its resolved dependencies are
     * replaced.
     */
    method ConvertGlobalRefs(body: seq<Node>, isModule: bool, isTest: bool, h: GlobalHelpers, log: Log)
      returns (effects: seq<Effect>)
      modifies log
      ensures !(isModule || isTest) ==> effects == [] && log.warnings == old(log.warnings)
      ensures isModule || isTest ==>
        effects == OSGlobalEffects(osGlobals, h.memberText, CollectIn(body, OSGlobalP(osGlobals, h.memberText))) +
          NamespaceEffects(rootNamespaces, h, blacklist, isTest)
      ensures isModule || isTest ==> log.warnings == old(log.warnings) + NamespaceWarnings(rootNamespaces, h, blacklist)
      ensures log.infos == old(log.infos)
    {
      effects := [];
      if isModule || isTest {
        var osEffects := OSGlobalReplacements(osGlobals, h.memberText, CollectIn(body, OSGlobalP(osGlobals, h.memberText)));
        var nsEffects := NamespaceReplacements(rootNamespaces, h, blacklist, isTest, log);
        effects := osEffects + nsEffects;
      }
    }

    /**
     * `convertLegacyRequires(root)`: throws when a require has no argument.
     * Otherwise the top-level requires whose name is not a key of the table
     * are replaced, last first; those without a replaced identifier are
     * added back, and one warning gives their count.
     */
    method ConvertLegacyRequires(body: seq<Node>, h: GlobalHelpers, log: Log) returns (r: Outcome, effects: seq<Effect>)
      modifies log
      ensures r.Fail? <==> AnyIn(body, NoArgumentRequireP())
      ensures r.Fail? ==> effects == [] && log.warnings == old(log.warnings)
      ensures r.Pass? ==> effects == LegacyEffects(LegacyNames(body, osGlobals), h)
      ensures r.Pass? ==> log.warnings == old(log.warnings) + LegacyWarnings(LegacyNames(body, osGlobals), h)
      ensures log.infos == old(log.infos)
    {
      if AnyIn(body, NoArgumentRequireP()) {
        return Fail("Cannot read properties of undefined (reading 'value')"), [];
      }
      var names, unused, replaced := LegacyReplacements(body, osGlobals, h);
      effects := replaced;
      if |unused| > 0 {
        var added := ReAddUnused(unused);
        effects := effects + added;
        log.Warn(LegacyCountMessage(|unused|));
      }
      r := Pass;
    }
  }

  /** The first `forEach` of `convertGlobalRefs`: one `convertOSGlobal` per matched node, in tree order. */
  method OSGlobalReplacements(globals: map<string, Option<GlobalConfig>>, memberText: Node -> string, nodes: seq<Node>)
    returns (effects: seq<Effect>)
    ensures effects == OSGlobalEffects(globals, memberText, nodes)
  {
    effects := [];
    var i := 0;
    while i < |nodes|
      invariant 0 <= i <= |nodes|
      invariant effects == OSGlobalEffects(globals, memberText, nodes[..i])
    {
      assert nodes[..i + 1][..i] == nodes[..i];
      var e := OSGlobalEffect(globals, memberText(nodes[i]));
      if e.Some? {
        effects := effects + [e.value];
      }
      i := i + 1;
    }
    assert nodes[..|nodes|] == nodes;
  }

  /** The `globalRootNamespaces.forEach` of `convertGlobalRefs`. */
  method NamespaceReplacements(nss: seq<string>, h: GlobalHelpers, blacklist: seq<string>, isTest: bool, log: Log)
    returns (effects: seq<Effect>)
    modifies log
    ensures effects == NamespaceEffects(nss, h, blacklist, isTest)
    ensures log.warnings == old(log.warnings) + NamespaceWarnings(nss, h, blacklist)
    ensures log.infos == old(log.infos)
  {
    effects := [];
    var k := 0;
    while k < |nss|
      invariant 0 <= k <= |nss|
      invariant effects == NamespaceEffects(nss[..k], h, blacklist, isTest)
      invariant log.warnings == old(log.warnings) + NamespaceWarnings(nss[..k], h, blacklist)
      invariant log.infos == old(log.infos)
    {
      NamespaceUnfold(nss, k, h, blacklist, isTest);
      var refs := h.globalRefs(nss[k]);
      Assoc(old(log.warnings), NamespaceWarnings(nss[..k], h, blacklist), RefWarnings(refs, h, blacklist));
      LogUnresolved(refs, h, blacklist, log);
      var es := Replacements(GlobalDeps(refs, h, blacklist), isTest);
      effects := effects + es;
      k := k + 1;
    }
    assert nss[..|nss|] == nss;
  }

  lemma NamespaceUnfold(nss: seq<string>, k: nat, h: GlobalHelpers, blacklist: seq<string>, isTest: bool)
    requires k < |nss|
    ensures NamespaceEffects(nss[..k + 1], h, blacklist, isTest) ==
      NamespaceEffects(nss[..k], h, blacklist, isTest) + DepEffects(GlobalDeps(h.globalRefs(nss[k]), h, blacklist), isTest)
    ensures NamespaceWarnings(nss[..k + 1], h, blacklist) ==
      NamespaceWarnings(nss[..k], h, blacklist) + RefWarnings(h.globalRefs(nss[k]), h, blacklist)
  {
    assert nss[..k + 1][..k] == nss[..k];
  }

  /** The reversed `forEach` of `convertLegacyRequires` over the top-level statements. */
  method LegacyReplacements(body: seq<Node>, globals: map<string, Option<GlobalConfig>>, h: GlobalHelpers)
    returns (names: seq<string>, unused: seq<string>, effects: seq<Effect>)
    ensures names == LegacyNames(body, globals)
    ensures unused == Filter(names, Not(h.replaceLegacy))
    ensures effects == ReplaceEffects(names)
  {
    names, unused, effects := [], [], [];
    var i := |body|;
    while i > 0
      invariant 0 <= i <= |body|
      invariant names == LegacyNames(body[i..], globals)
      invariant unused == Filter(names, Not(h.replaceLegacy))
      invariant effects == ReplaceEffects(names)
    {
      i := i - 1;
      assert body[i..][1..] == body[i + 1..];
      var s := body[i];
      if IsRequireStatement(s) && RequireName(s) !in globals {
        var name := RequireName(s);
        FilterAppend(names, name, Not(h.replaceLegacy));
        names := names + [name];
        effects := effects + [ReplaceLegacyRequire(name, None, false)];
        if !h.replaceLegacy(name) {
          unused := unused + [name];
        }
      }
    }
    assert body[0..] == body;
  }

  /** `unusedRequires.forEach(addLegacyRequire)` */
  method ReAddUnused(unused: seq<string>) returns (effects: seq<Effect>)
    ensures effects == ReAdded(unused)
  {
    effects := [];
    var j := 0;
    while j < |unused|
      invariant 0 <= j <= |unused|
      invariant effects == ReAdded(unused[..j])
    {
      effects := effects + [AddLegacyRequire(unused[j])];
      j := j + 1;
    }
    assert unused[..|unused|] == unused;
  }

  /** `LogUnresolved`'s loop: the warnings of the `map` step, in reference order. */
  method LogUnresolved(refs: seq<string>, h: GlobalHelpers, blacklist: seq<string>, log: Log)
    modifies log
    ensures log.warnings == old(log.warnings) + RefWarnings(refs, h, blacklist)
    ensures log.infos == old(log.infos)
  {
    var i := 0;
    while i < |refs|
      invariant 0 <= i <= |refs|
      invariant log.warnings == old(log.warnings) + RefWarnings(refs[..i], h, blacklist)
      invariant log.infos == old(log.infos)
    {
      assert refs[..i + 1][..i] == refs[..i];
      if !Resolves(refs[i], h) && refs[i] !in blacklist {
        log.Warn(UnresolvedPrefix + refs[i]);
      }
      i := i + 1;
    }
    assert refs[..|refs|] == refs;
  }

  /** The `forEach` over the sorted dependencies: one replacement per dependency, in order. */
  method Replacements(deps: seq<GlobalDep>, isTest: bool) returns (es: seq<Effect>)
    ensures es == DepEffects(deps, isTest)
  {
    es := [];
    var i := 0;
    while i < |deps|
      invariant 0 <= i <= |deps|
      invariant es == DepEffects(deps[..i], isTest)
    {
      assert deps[..i + 1][..i] == deps[..i];
      if deps[i].moduleName.Some? {
        var name := deps[i].moduleName.value;
        es := es + [if isTest then ReplaceTestGlobals(name) else ReplaceSrcGlobals(name)];
      }
      i := i + 1;
    }
    assert deps[..|deps|] == deps;
  }

  // ---------------------------------------------------------- OS globals

  function OSGlobalP(globals: map<string, Option<GlobalConfig>>, memberText: Node -> string): Node -> bool
  {
    (n: Node) => n.MemberExpression? && memberText(n) in globals
  }

  /** `convertOSGlobal(root, path)` for the dotted text `key`. */
  function OSGlobalEffect(globals: map<string, Option<GlobalConfig>>, key: string): Option<Effect>
  {
    if key in globals && globals[key].Some? then
      Some(ReplaceLegacyRequire(key, globals[key].value.require, globals[key].value.singleton == Some(true)))
    else None
  }

  function OSGlobalEffects(globals: map<string, Option<GlobalConfig>>, memberText: Node -> string, nodes: seq<Node>): seq<Effect>
  {
    if nodes == [] then []
    else
      var e := OSGlobalEffect(globals, memberText(nodes[|nodes| - 1]));
      OSGlobalEffects(globals, memberText, nodes[..|nodes| - 1]) + (if e.Some? then [e.value] else [])
  }

  /**
   * A global with a configuration is replaced under its own text, with the
   * configured module, and as a singleton exactly when `singleton` is
   * `true`; a global configured as null is skipped.
   */
  lemma OSGlobalEffectSpec(globals: map<string, Option<GlobalConfig>>, key: string)
    requires key in globals
    ensures OSGlobalEffect(globals, key).Some? <==> globals[key].Some?
    ensures OSGlobalEffect(globals, key).Some? ==>
      OSGlobalEffect(globals, key).value.name == key &&
      OSGlobalEffect(globals, key).value.require == globals[key].value.require &&
      (OSGlobalEffect(globals, key).value.singleton <==> globals[key].value.singleton == Some(true))
  {
  }

  /** Every replacement of the OS-globals step is for a key of the table. */
  lemma {:induction false} OSGlobalEffectsKeys(globals: map<string, Option<GlobalConfig>>, memberText: Node -> string, nodes: seq<Node>)
    ensures |OSGlobalEffects(globals, memberText, nodes)| <= |nodes|
    ensures forall e :: e in OSGlobalEffects(globals, memberText, nodes) ==> e.ReplaceLegacyRequire? && e.name in globals
  {
    if nodes != [] {
      OSGlobalEffectsKeys(globals, memberText, nodes[..|nodes| - 1]);
    }
  }

  // --------------------------------------------------- namespace references

  const UnresolvedPrefix := "Unable to locate module for global reference "

  /** `getDependency(ref, true)` gave a dependency with a module name. */
  predicate Resolves(ref: string, h: GlobalHelpers)
  {
    h.getDependency(ref).Some? && h.getDependency(ref).value.moduleName.Some?
  }

  /** The `map` step: the dependency of each reference, or null. */
  function Resolved(refs: seq<string>, h: GlobalHelpers): (r: seq<Option<GlobalDep>>)
    ensures |r| == |refs|
    ensures forall i :: 0 <= i < |refs| ==> r[i] == if Resolves(refs[i], h) then h.getDependency(refs[i]) else None
  {
    seq(|refs|, i requires 0 <= i < |refs| => if Resolves(refs[i], h) then h.getDependency(refs[i]) else None)
  }

  /** The warnings of the `map` step: unresolved references that are not blacklisted. */
  function RefWarnings(refs: seq<string>, h: GlobalHelpers, blacklist: seq<string>): seq<string>
  {
    if refs == [] then []
    else
      var ref := refs[|refs| - 1];
      RefWarnings(refs[..|refs| - 1], h, blacklist) +
        (if !Resolves(ref, h) && ref !in blacklist then [UnresolvedPrefix + ref] else [])
  }

  /** A dependency the `filter` step keeps when it is not blacklisted. */
  predicate Usable(d: Option<GlobalDep>, blacklist: seq<string>)
  {
    d.Some? && d.value.moduleName.Some? && d.value.moduleName.value !in blacklist
  }

  /** The `filter` step: usable dependencies at their first occurrence (`self.indexOf(d) === index`). */
  function KeptDeps(ds: seq<Option<GlobalDep>>, blacklist: seq<string>): seq<GlobalDep>
  {
    if ds == [] then []
    else
      var init := ds[..|ds| - 1];
      var d := ds[|ds| - 1];
      KeptDeps(init, blacklist) + (if Usable(d, blacklist) && d !in init then [d.value] else [])
  }

  /** The filter keeps each usable dependency once and nothing else. */
  lemma {:induction false} KeptDepsSpec(ds: seq<Option<GlobalDep>>, blacklist: seq<string>)
    ensures Distinct(KeptDeps(ds, blacklist))
    ensures forall d :: d in KeptDeps(ds, blacklist) <==> Some(d) in ds && Usable(Some(d), blacklist)
  {
    if ds != [] {
      var init := ds[..|ds| - 1];
      LastSplit(ds, |ds| - 1);
      KeptDepsSpec(init, blacklist);
    }
  }

  function ModuleKey(d: GlobalDep): string
  {
    if d.moduleName.Some? then d.moduleName.value else ""
  }

  /** The dependencies of one namespace: resolved, filtered, in descending module-name order. */
  function GlobalDeps(refs: seq<string>, h: GlobalHelpers, blacklist: seq<string>): seq<GlobalDep>
  {
    SortDescBy(KeptDeps(Resolved(refs, h), blacklist), ModuleKey)
  }

  /**
   * The dependencies of a namespace are those its references resolve to
   * whose module name is not blacklisted, each once, in descending order of
   * module name.
   */
  lemma GlobalDepsSpec(refs: seq<string>, h: GlobalHelpers, blacklist: seq<string>)
    ensures var deps := GlobalDeps(refs, h, blacklist);
      Distinct(deps) && SortedDescBy(deps, ModuleKey) &&
      (forall d :: d in deps <==> Some(d) in Resolved(refs, h) && Usable(Some(d), blacklist))
  {
    var ds := Resolved(refs, h);
    KeptDepsSpec(ds, blacklist);
    DistinctPermutation(KeptDeps(ds, blacklist), GlobalDeps(refs, h, blacklist));
  }

  /** A dependency of the list is one some reference resolved to. */
  lemma ResolvedSpec(refs: seq<string>, h: GlobalHelpers, d: GlobalDep)
    ensures Some(d) in Resolved(refs, h) <==>
      exists i :: 0 <= i < |refs| && Resolves(refs[i], h) && h.getDependency(refs[i]) == Some(d)
  {
    if Some(d) in Resolved(refs, h) {
      var i :| 0 <= i < |refs| && Resolved(refs, h)[i] == Some(d);
      assert Resolves(refs[i], h) && h.getDependency(refs[i]) == Some(d);
    }
  }

  /** A permutation of a list without duplicates has none and the same elements. */
  lemma DistinctPermutation<T>(xs: seq<T>, ys: seq<T>)
    requires multiset(xs) == multiset(ys) && Distinct(xs)
    ensures Distinct(ys)
    ensures forall x :: x in ys <==> x in xs
  {
    forall x
      ensures x in ys <==> x in xs
    {
      assert x in ys <==> x in multiset(ys);
      assert x in xs <==> x in multiset(xs);
    }
    forall i, j | 0 <= i < j < |ys|
      ensures ys[i] != ys[j]
    {
      if ys[i] == ys[j] {
        TwiceCounted(ys, i, j);
        DistinctOnce(xs, ys[i]);
      }
    }
  }

  /** In a list without duplicates each element occurs once. */
  lemma {:induction false} DistinctOnce<T>(xs: seq<T>, x: T)
    requires Distinct(xs)
    ensures multiset(xs)[x] <= 1
  {
    if xs != [] {
      LastSplit(xs, |xs| - 1);
      var init := xs[..|xs| - 1];
      assert Distinct(init);
      DistinctOnce(init, x);
      assert multiset(xs) == multiset(init) + multiset{xs[|xs| - 1]};
      if x == xs[|xs| - 1] {
        assert x !in init;
      }
    }
  }

  lemma TwiceCounted<T>(ys: seq<T>, i: nat, j: nat)
    requires i < j < |ys| && ys[i] == ys[j]
    ensures multiset(ys)[ys[i]] >= 2
  {
    var d := ys[i];
    var pre := ys[..j];
    assert ys == pre + [d] + ys[j + 1..];
    assert d in pre by {
      assert pre[i] == d;
    }
    assert multiset(ys) == multiset(pre) + multiset{d} + multiset(ys[j + 1..]);
  }

  /** The replacement each dependency gets: test globals in a test file, source globals otherwise. */
  function DepEffects(deps: seq<GlobalDep>, isTest: bool): seq<Effect>
  {
    if deps == [] then []
    else
      var d := deps[|deps| - 1];
      DepEffects(deps[..|deps| - 1], isTest) +
        (if d.moduleName.Some? then [if isTest then ReplaceTestGlobals(d.moduleName.value) else ReplaceSrcGlobals(d.moduleName.value)] else [])
  }

  /** The replacements of the namespace step, namespace by namespace. */
  function NamespaceEffects(nss: seq<string>, h: GlobalHelpers, blacklist: seq<string>, isTest: bool): seq<Effect>
  {
    if nss == [] then []
    else
      NamespaceEffects(nss[..|nss| - 1], h, blacklist, isTest) +
        DepEffects(GlobalDeps(h.globalRefs(nss[|nss| - 1]), h, blacklist), isTest)
  }

  function NamespaceWarnings(nss: seq<string>, h: GlobalHelpers, blacklist: seq<string>): seq<string>
  {
    if nss == [] then []
    else NamespaceWarnings(nss[..|nss| - 1], h, blacklist) + RefWarnings(h.globalRefs(nss[|nss| - 1]), h, blacklist)
  }

  /** Each dependency gets exactly one replacement, of the kind the file calls for, under its module name. */
  lemma {:induction false} DepEffectsSpec(deps: seq<GlobalDep>, isTest: bool)
    requires forall i :: 0 <= i < |deps| ==> deps[i].moduleName.Some?
    ensures |DepEffects(deps, isTest)| == |deps|
    ensures forall i :: 0 <= i < |deps| ==>
      DepEffects(deps, isTest)[i] ==
        if isTest then ReplaceTestGlobals(deps[i].moduleName.value) else ReplaceSrcGlobals(deps[i].moduleName.value)
  {
    if deps != [] {
      DepEffectsSpec(deps[..|deps| - 1], isTest);
    }
  }

  /** A reference that draws a warning: not resolved and not blacklisted. */
  function Warned(h: GlobalHelpers, blacklist: seq<string>): string -> bool
  {
    (ref: string) => !Resolves(ref, h) && ref !in blacklist
  }

  function Messages(refs: seq<string>): (r: seq<string>)
    ensures |r| == |refs|
  {
    seq(|refs|, i requires 0 <= i < |refs| => UnresolvedPrefix + refs[i])
  }

  /**
   * The warnings name exactly the references that are neither resolved nor
   * blacklisted, in order (see `Seqs.FilterMember`); a blacklisted reference
   * or one with a module draws none.
   */
  lemma {:induction false} RefWarningsSpec(refs: seq<string>, h: GlobalHelpers, blacklist: seq<string>)
    ensures RefWarnings(refs, h, blacklist) == Messages(Filter(refs, Warned(h, blacklist)))
  {
    if refs != [] {
      var init := refs[..|refs| - 1];
      var last := refs[|refs| - 1];
      RefWarningsSpec(init, h, blacklist);
      LastSplit(refs, |refs| - 1);
      FilterAppend(init, last, Warned(h, blacklist));
      var f := Filter(init, Warned(h, blacklist));
      if Warned(h, blacklist)(last) {
        assert Messages(f + [last]) == Messages(f) + [UnresolvedPrefix + last];
      }
    }
  }

  // ------------------------------------------------------- legacy requires

  /** A require statement without an argument: reading `arguments[0].value` throws. */
  function NoArgumentRequireP(): Node -> bool
  {
    (n: Node) => IsRequireStatement(n) && |n.expression.arguments| == 0
  }

  /** The names of the top-level requires to replace, last statement first. */
  function LegacyNames(body: seq<Node>, globals: map<string, Option<GlobalConfig>>): seq<string>
  {
    if body == [] then []
    else
      LegacyNames(body[1..], globals) +
        (if IsRequireStatement(body[0]) && RequireName(body[0]) !in globals then [RequireName(body[0])] else [])
  }

  /** The statements are visited in reverse: the names of a later part come before those of an earlier one. */
  lemma {:induction false} LegacyNamesReversed(a: seq<Node>, b: seq<Node>, globals: map<string, Option<GlobalConfig>>)
    ensures LegacyNames(a + b, globals) == LegacyNames(b, globals) + LegacyNames(a, globals)
  {
    if a == [] {
      ConcatEmpty(b);
    } else {
      ConcatHead(a, b);
      LegacyNamesReversed(a[1..], b, globals);
    }
  }

  /** Exactly the top-level requires whose name is not a key of the table are replaced. */
  lemma {:induction false} LegacyNamesMembers(body: seq<Node>, globals: map<string, Option<GlobalConfig>>)
    ensures forall i :: 0 <= i < |body| && IsRequireStatement(body[i]) && RequireName(body[i]) !in globals ==>
      RequireName(body[i]) in LegacyNames(body, globals)
    ensures forall x :: x in LegacyNames(body, globals) ==>
      x !in globals && exists i :: 0 <= i < |body| && IsRequireStatement(body[i]) && RequireName(body[i]) == x
  {
    if body != [] {
      var tail := body[1..];
      LegacyNamesMembers(tail, globals);
      forall i | 1 <= i < |body|
        ensures body[i] == tail[i - 1]
      {
      }
      forall x | x in LegacyNames(body, globals)
        ensures x !in globals && exists i :: 0 <= i < |body| && IsRequireStatement(body[i]) && RequireName(body[i]) == x
      {
        if x in LegacyNames(tail, globals) {
          var j :| 0 <= j < |tail| && IsRequireStatement(tail[j]) && RequireName(tail[j]) == x;
          assert body[j + 1] == tail[j];
        }
      }
    }
  }

  /** The search of `convertLegacyRequires` as written: expression statements that `isGoogRequire` accepts. */
  function LegacyStatementsAsWritten(body: seq<Node>): (r: seq<Node>)
    ensures r == []
  {
    var found := CollectIn(body, (n: Node) => n.ExpressionStatement? && IsGoogRequire(n));
    assert found != [] ==> found[0].ExpressionStatement? && IsGoogRequire(found[0]);
    found
  }

  /**
   * `isGoogRequire` accepts only calls, so the statement search as written
   * finds nothing: the pass replaces no require, adds none back, logs nothing
   * and never reaches the read that throws on a require without an argument.
   * The corrected search (a statement whose expression is the call) finds
   * every top-level require outside the table.
   */
  lemma LegacyRequireMissed(body: seq<Node>, i: nat, globals: map<string, Option<GlobalConfig>>)
    requires i < |body| && IsRequireStatement(body[i]) && RequireName(body[i]) !in globals
    ensures LegacyStatementsAsWritten(body) == []
    ensures RequireName(body[i]) in LegacyNames(body, globals)
  {
    LegacyNamesMembers(body, globals);
  }

  function ReplaceEffects(names: seq<string>): (r: seq<Effect>)
    ensures |r| == |names|
  {
    seq(|names|, i requires 0 <= i < |names| => ReplaceLegacyRequire(names[i], None, false))
  }

  function ReAdded(names: seq<string>): (r: seq<Effect>)
    ensures |r| == |names|
  {
    seq(|names|, i requires 0 <= i < |names| => AddLegacyRequire(names[i]))
  }

  /** Every candidate is replaced, then those that replaced no identifier are added back in the same order. */
  function LegacyEffects(names: seq<string>, h: GlobalHelpers): seq<Effect>
  {
    var unused := Filter(names, Not(h.replaceLegacy));
    ReplaceEffects(names) + (if |unused| > 0 then ReAdded(unused) else [])
  }

  function LegacyCountMessage(n: nat): string
  {
    "Found " + NatToString(n) + " legacy require statements that need verification."
  }

  function LegacyWarnings(names: seq<string>, h: GlobalHelpers): seq<string>
  {
    var unused := Filter(names, Not(h.replaceLegacy));
    if |unused| > 0 then [LegacyCountMessage(|unused|)] else []
  }

  /**
   * Every candidate is replaced first, in order; then exactly the names
   * whose replacement found no identifier are added back, in order; there
   * is one warning when some name was added back and none otherwise.
   */
  lemma LegacyEffectsSpec(names: seq<string>, h: GlobalHelpers)
    ensures var unused := Filter(names, Not(h.replaceLegacy));
      |LegacyEffects(names, h)| == |names| + |unused| &&
      (forall k :: 0 <= k < |names| ==> LegacyEffects(names, h)[k] == ReplaceLegacyRequire(names[k], None, false)) &&
      (forall k :: 0 <= k < |unused| ==> LegacyEffects(names, h)[|names| + k] == AddLegacyRequire(unused[k]))
    ensures forall x :: x in Filter(names, Not(h.replaceLegacy)) <==> x in names && !h.replaceLegacy(x)
    ensures |LegacyWarnings(names, h)| <= 1
    ensures LegacyWarnings(names, h) == [] <==> forall x :: x in names ==> h.replaceLegacy(x)
  {
    var unused := Filter(names, Not(h.replaceLegacy));
    forall x
      ensures x in unused <==> x in names && !h.replaceLegacy(x)
    {
      FilterMember(names, Not(h.replaceLegacy), x);
    }
    if unused != [] {
      assert unused[0] in unused;
    }
  }
}
