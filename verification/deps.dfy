/**
 * `src/utils/deps.js`: in an ES module file, the goog.require statements,
 * the import declarations and the goog.module requires are taken out, each
 * kind sorted, and put back as one block right after the first
 * `goog.declareModuleId(...)` statement.
 */
module Deps {
  import opened Seqs
  import opened Ast
  import opened Sorting
  import opened Goog
  import opened Imports

  /**
   * The helpers `sortESDependencies` takes from `src/utils/goog.js` that this
   * version of that file does not define: module-require recognition
   * (`isGoogModuleRequire || isGoogModuleRequireType`), `isGoogDeclareModuleId`
   * and the orders `sortRequireNodes` / `sortModuleRequireNodes` sort by.
   */
  datatype DepsHelpers = DepsHelpers(
    isModuleRequire: Node -> bool,
    isDeclareModuleId: Node -> bool,
    requireOrder: Node -> string,
    moduleRequireOrder: Node -> string)

  /**
   * `root.find(jscs.ExpressionStatement, isGoogRequire)`: the filter is the
   * call recogniser, applied to the statement itself.
   */
  predicate IsBareRequire(s: Node)
  {
    s.ExpressionStatement? && IsGoogRequire(s)
  }

  /** `root.find(jscs.VariableDeclaration, isGoogModuleRequire || isGoogModuleRequireType)` */
  function IsModuleRequire(h: DepsHelpers): (P: Node -> bool)
    ensures forall s :: P(s) == (s.VariableDeclaration? && h.isModuleRequire(s))
  {
    (s: Node) => s.VariableDeclaration? && h.isModuleRequire(s)
  }

  /** A dependency statement of any of the three kinds. */
  function IsDep(h: DepsHelpers): (P: Node -> bool)
    ensures forall s :: P(s) == (IsBareRequire(s) || IsImport(s) || IsModuleRequire(h)(s))
  {
    (s: Node) => IsBareRequire(s) || IsImport(s) || IsModuleRequire(h)(s)
  }

  /** The statements that stay where they are. */
  function OthersOf(h: DepsHelpers, body: seq<Node>): seq<Node>
  {
    Filter(body, Not(IsDep(h)))
  }

  /** The reinserted block: sorted bare requires, then sorted imports, then sorted module requires. */
  function SortedDeps(h: DepsHelpers, body: seq<Node>): seq<Node>
  {
    SortBy(Filter(body, IsBareRequire), h.requireOrder) +
    SortedImports(ImportsOf(body)) +
    SortBy(Filter(body, IsModuleRequire(h)), h.moduleRequireOrder)
  }

  /** Position of the first `goog.declareModuleId` among the remaining statements (their count if none). */
  function DeclareIndex(h: DepsHelpers, body: seq<Node>): nat
  {
    IndexWhere(OthersOf(h, body), h.isDeclareModuleId)
  }

  /** The statement list `sortESDependencies` leaves in an ES module file. */
  function WithSortedDeps(h: DepsHelpers, body: seq<Node>): seq<Node>
  {
    WithBlock(h, body, SortedDeps(h, body))
  }

  /** The other statements with `block` put in after the first `goog.declareModuleId`, if there is one. */
  function WithBlock(h: DepsHelpers, body: seq<Node>, block: seq<Node>): seq<Node>
  {
    var rest := OthersOf(h, body);
    var k := DeclareIndex(h, body);
    if k == |rest| then rest else rest[..k + 1] + block + rest[k + 1..]
  }

  /** Removing the three kinds one after the other leaves the other statements. */
  lemma RemoveThree(h: DepsHelpers, body: seq<Node>)
    ensures Filter(Filter(Filter(body, Not(IsBareRequire)), Not(IsImport)), Not(IsModuleRequire(h))) == OthersOf(h, body)
  {
    var noBare := Not(IsBareRequire);
    var noImport := Not(IsImport);
    var neither := (s: Node) => noBare(s) && noImport(s);
    FilterTwice(body, noBare, noImport, neither);
    FilterTwice(body, neither, Not(IsModuleRequire(h)), Not(IsDep(h)));
  }

  /**
   * `sortESDependencies(root)`: outside ES module files nothing happens;
   * otherwise the three kinds of dependency are collected and sorted, removed,
   * and spliced in after the first `goog.declareModuleId` statement (and
   * dropped when there is none).
   */
  method SortESDependencies(p: Program, h: DepsHelpers, isESModuleFile: bool)
    modifies p
    ensures !isESModuleFile ==> p.body == old(p.body)
    ensures isESModuleFile ==> p.body == WithSortedDeps(h, old(p.body))
  {
    if isESModuleFile {
      var body := p.body;
      var bareRequires := Filter(body, IsBareRequire);
      var imports := ImportsOf(body);
      var moduleRequires := Filter(body, IsModuleRequire(h));
      var sortedRequires := SortBy(bareRequires, h.requireOrder);
      var sortedImports := GetSortedImportNodes(imports);
      var sortedModuleRequires := SortBy(moduleRequires, h.moduleRequireOrder);
      var programBody := Filter(body, Not(IsBareRequire));
      programBody := Filter(programBody, Not(IsImport));
      programBody := Filter(programBody, Not(IsModuleRequire(h)));
      RemoveThree(h, body);
      var k := IndexWhere(programBody, h.isDeclareModuleId);
      if k < |programBody| {
        SpliceThree(programBody, k + 1, sortedRequires, sortedImports, sortedModuleRequires);
      }
      programBody := InsertAfterFirst(programBody, h.isDeclareModuleId, sortedRequires, sortedImports, sortedModuleRequires);
      p.body := programBody;
    }
  }

  /**
   * The loop of `sortESDependencies` over the program body: at the first
   * statement satisfying `P`, the three blocks are spliced in after it (module
   * requires, then imports, then requires, each at the same index) and the
   * loop stops.
   */
  method InsertAfterFirst<T>(programBody: seq<T>, P: T -> bool, a: seq<T>, b: seq<T>, c: seq<T>) returns (r: seq<T>)
    ensures IndexWhere(programBody, P) == |programBody| ==> r == programBody
    ensures IndexWhere(programBody, P) < |programBody| ==>
      r == Splice(Splice(Splice(programBody, IndexWhere(programBody, P) + 1, c), IndexWhere(programBody, P) + 1, b), IndexWhere(programBody, P) + 1, a)
  {
    r := programBody;
    var i := 0;
    while i < |r|
      invariant 0 <= i <= |r| && r == programBody
      invariant forall j :: 0 <= j < i ==> !P(r[j])
    {
      if P(r[i]) {
        r := Splice(r, i + 1, c);
        r := Splice(r, i + 1, b);
        r := Splice(r, i + 1, a);
        break;
      }
      i := i + 1;
    }
  }

  /** `isGoogRequire` only accepts calls, so the statement filter finds no bare requires at all. */
  lemma NoBareRequires(body: seq<Node>)
    ensures Filter(body, IsBareRequire) == []
  {
    FilterNoneAll(body, IsBareRequire);
  }

  /** Every statement of the reinserted block is a dependency. */
  lemma SortedDepsAreDeps(h: DepsHelpers, body: seq<Node>)
    ensures forall i :: 0 <= i < |SortedDeps(h, body)| ==> IsDep(h)(SortedDeps(h, body)[i])
  {
    var a := SortBy(Filter(body, IsBareRequire), h.requireOrder);
    var b := SortedImports(ImportsOf(body));
    var c := SortBy(Filter(body, IsModuleRequire(h)), h.moduleRequireOrder);
    SortByPermutes(Filter(body, IsBareRequire), h.requireOrder);
    SortByPermutes(Filter(body, IsModuleRequire(h)), h.moduleRequireOrder);
    PermutationAll(a, Filter(body, IsBareRequire), IsDep(h));
    SortedImportsPermutes(ImportsOf(body));
    PermutationAll(b, ImportsOf(body), IsDep(h));
    PermutationAll(c, Filter(body, IsModuleRequire(h)), IsDep(h));
    ConcatAll3(a, b, c, IsDep(h));
  }

  /** The two sides of the insertion point hold only statements that stay. */
  lemma OthersSides(h: DepsHelpers, body: seq<Node>, k: nat)
    requires k <= |OthersOf(h, body)|
    ensures forall i :: 0 <= i < |OthersOf(h, body)[..k]| ==> !IsDep(h)(OthersOf(h, body)[..k][i])
    ensures forall i :: 0 <= i < |OthersOf(h, body)[k..]| ==> !IsDep(h)(OthersOf(h, body)[k..][i])
  {
    var rest := OthersOf(h, body);
    assert forall i :: 0 <= i < |rest| ==> Not(IsDep(h))(rest[i]);
    assert forall i :: 0 <= i < |rest[..k]| ==> rest[..k][i] == rest[i];
    assert forall i :: 0 <= i < |rest[k..]| ==> rest[k..][i] == rest[k + i];
  }

  /** All other statements keep their relative order, with or without a `goog.declareModuleId`. */
  lemma OthersKeepOrder(h: DepsHelpers, body: seq<Node>)
    ensures Filter(WithSortedDeps(h, body), Not(IsDep(h))) == OthersOf(h, body)
  {
    if DeclareIndex(h, body) == |OthersOf(h, body)| {
      WithoutDeclareShape(h, body);
    } else {
      WithDeclareShape(h, body);
    }
  }

  /** Without a `goog.declareModuleId` only the other statements are left, and both filters see that. */
  lemma WithoutDeclareShape(h: DepsHelpers, body: seq<Node>)
    requires DeclareIndex(h, body) == |OthersOf(h, body)|
    ensures Filter(WithSortedDeps(h, body), Not(IsDep(h))) == OthersOf(h, body)
    ensures Filter(WithSortedDeps(h, body), IsDep(h)) == []
  {
    assert WithSortedDeps(h, body) == Filter(body, Not(IsDep(h)));
    FilterComplementAgain(body, IsDep(h));
  }

  /** With a `goog.declareModuleId` the block of dependencies goes in after it, among the other statements. */
  lemma WithDeclareShape(h: DepsHelpers, body: seq<Node>)
    requires DeclareIndex(h, body) < |OthersOf(h, body)|
    ensures Filter(WithSortedDeps(h, body), Not(IsDep(h))) == OthersOf(h, body)
    ensures Filter(WithSortedDeps(h, body), IsDep(h)) == SortedDeps(h, body)
  {
    SortedDepsAreDeps(h, body);
    BlockShape(h, body, SortedDeps(h, body));
  }

  /** Any block of dependencies put in after the declaration is found again by the filters. */
  lemma BlockShape(h: DepsHelpers, body: seq<Node>, block: seq<Node>)
    requires DeclareIndex(h, body) < |OthersOf(h, body)|
    requires forall i :: 0 <= i < |block| ==> IsDep(h)(block[i])
    ensures Filter(WithBlock(h, body, block), Not(IsDep(h))) == OthersOf(h, body)
    ensures Filter(WithBlock(h, body, block), IsDep(h)) == block
  {
    var rest := Filter(body, Not(IsDep(h)));
    var k := DeclareIndex(h, body);
    assert WithBlock(h, body, block) == rest[..k + 1] + block + rest[k + 1..];
    FilterInsertedBlock(body, k + 1, block, IsDep(h));
  }

  /**
   * With a `goog.declareModuleId` statement, the dependencies of the result are
   * exactly the block, in the order bare requires, imports, module requires;
   * without one, the result holds no dependency at all.
   */
  lemma DependencyBlock(h: DepsHelpers, body: seq<Node>)
    ensures DeclareIndex(h, body) < |OthersOf(h, body)| ==> Filter(WithSortedDeps(h, body), IsDep(h)) == SortedDeps(h, body)
    ensures DeclareIndex(h, body) == |OthersOf(h, body)| ==> Filter(WithSortedDeps(h, body), IsDep(h)) == []
  {
    if DeclareIndex(h, body) == |OthersOf(h, body)| {
      WithoutDeclareShape(h, body);
    } else {
      WithDeclareShape(h, body);
    }
  }

  /**
   * The block sits right after the first `goog.declareModuleId`: the statement
   * before it is one, and no earlier statement is.
   */
  lemma BlockAfterFirstDeclare(h: DepsHelpers, body: seq<Node>)
    requires DeclareIndex(h, body) < |OthersOf(h, body)|
    ensures var r := WithSortedDeps(h, body);
      var k := DeclareIndex(h, body);
      k + 1 + |SortedDeps(h, body)| <= |r| &&
      h.isDeclareModuleId(r[k]) &&
      (forall j :: 0 <= j < k ==> !h.isDeclareModuleId(r[j])) &&
      r[k + 1..k + 1 + |SortedDeps(h, body)|] == SortedDeps(h, body)
  {
    BlockPlacement(h, body, SortedDeps(h, body));
  }

  lemma BlockPlacement(h: DepsHelpers, body: seq<Node>, block: seq<Node>)
    requires DeclareIndex(h, body) < |OthersOf(h, body)|
    ensures var r := WithBlock(h, body, block);
      var k := DeclareIndex(h, body);
      k + 1 + |block| <= |r| &&
      h.isDeclareModuleId(r[k]) &&
      (forall j :: 0 <= j < k ==> !h.isDeclareModuleId(r[j])) &&
      r[k + 1..k + 1 + |block|] == block
  {
    var rest := OthersOf(h, body);
    var k := DeclareIndex(h, body);
    var r := WithBlock(h, body, block);
    assert forall j :: 0 <= j <= k ==> r[j] == rest[j];
    assert r[k + 1..k + 1 + |block|] == block;
  }

  /** With a `goog.declareModuleId`, no statement is lost or duplicated. */
  lemma SortPermutes(h: DepsHelpers, body: seq<Node>)
    requires DeclareIndex(h, body) < |OthersOf(h, body)|
    ensures multiset(WithSortedDeps(h, body)) == multiset(body)
  {
    SortedDepsPermutes(h, body);
    BlockMultiset(h, body, SortedDeps(h, body));
    PermutedAround(body, IsDep(h), SortedDeps(h, body), WithSortedDeps(h, body));
  }

  /** The sorted block holds exactly the dependencies of the file. */
  lemma SortedDepsPermutes(h: DepsHelpers, body: seq<Node>)
    ensures multiset(SortedDeps(h, body)) == multiset(Filter(body, IsDep(h)))
  {
    var bare := Filter(body, IsBareRequire);
    var mods := Filter(body, IsModuleRequire(h));
    var a := SortBy(bare, h.requireOrder);
    var b := SortedImports(ImportsOf(body));
    var c := SortBy(mods, h.moduleRequireOrder);
    SortByPermutes(bare, h.requireOrder);
    SortByPermutes(mods, h.moduleRequireOrder);
    SortedImportsPermutes(ImportsOf(body));
    FilterUnion3(body, IsBareRequire, IsImport, IsModuleRequire(h), IsDep(h));
    assert SortedDeps(h, body) == a + b + c;
  }

  lemma BlockMultiset(h: DepsHelpers, body: seq<Node>, block: seq<Node>)
    requires DeclareIndex(h, body) < |OthersOf(h, body)|
    ensures multiset(WithBlock(h, body, block)) == multiset(OthersOf(h, body)) + multiset(block)
  {
    var rest := OthersOf(h, body);
    var k := DeclareIndex(h, body);
    assert WithBlock(h, body, block) == rest[..k + 1] + block + rest[k + 1..];
    InsertMultiset(rest, k + 1, block);
  }

  /** Without a `goog.declareModuleId`, the dependencies are dropped and the rest stays as it was. */
  lemma DroppedWithoutDeclare(h: DepsHelpers, body: seq<Node>)
    requires forall i :: 0 <= i < |body| ==> !h.isDeclareModuleId(body[i])
    ensures WithSortedDeps(h, body) == OthersOf(h, body)
  {
    var rest := OthersOf(h, body);
    FilterMultiset(body, Not(IsDep(h)));
    forall i | 0 <= i < |rest|
      ensures !h.isDeclareModuleId(rest[i])
    {
      assert rest[i] in multiset(body);
    }
  }
}
