/**
 * `src/utils/imports.js`: ES import declarations are grouped (unassigned,
 * external, parent-relative, relative, other) and sorted by source path
 * within each group.
 *
 * The grouping and its proofs are stated for any element type with a group
 * position (`rank`) and a sort key; the import declarations instantiate
 * them with `ImportRank` and `Source`.
 */
module Imports {
  import opened Strings
  import opened Seqs
  import opened Ast
  import opened Sorting

  /** The keys of `matchers`, in their declaration order. */
  datatype ImportGroup = Unassigned | External | ParentRelative | Relative | OtherImports

  const Groups: seq<ImportGroup> := [Unassigned, External, ParentRelative, Relative, OtherImports]

  /** A position in `Groups`. */
  type GroupIndex = k: nat | k < 5

  /** Position of a group in `Groups`. */
  function Rank(g: ImportGroup): (k: GroupIndex)
    ensures |Groups| == 5 && Groups[k] == g
  {
    match g
    case Unassigned => 0
    case External => 1
    case ParentRelative => 2
    case Relative => 3
    case OtherImports => 4
  }

  /** `Groups` lists each group at its rank. */
  lemma GroupsRank(k: nat)
    requires k < |Groups|
    ensures Rank(Groups[k]) == k
  {
    if k == 0 {
    } else if k == 1 {
    } else if k == 2 {
    } else if k == 3 {
    } else {
    }
  }

  /** `importDecl.source.value` */
  function Source(d: Node): string
  {
    if d.ImportDeclaration? && d.source.Literal? && d.source.v.Str? then d.source.v.s else ""
  }

  predicate IsAsciiLetter(c: char)
  {
    'a' <= c <= 'z' || 'A' <= c <= 'Z'
  }

  /** The matcher of each group. */
  predicate Matcher(g: ImportGroup, d: Node)
  {
    match g
    case Unassigned => d.ImportDeclaration? && |d.specifiers| == 0
    case External => |Source(d)| > 0 && IsAsciiLetter(Source(d)[0])
    case ParentRelative => StartsWith(Source(d), "../")
    case Relative => StartsWith(Source(d), "./") && !StartsWith(Source(d)[2..], "index.js")
    case OtherImports => true
  }

  function GroupFrom(d: Node, k: nat): (r: ImportGroup)
    requires k <= |Groups|
    ensures Matcher(r, d)
    ensures k <= Rank(r) || k == |Groups|
    ensures forall j :: k <= j < Rank(r) ==> !Matcher(Groups[j], d)
    decreases |Groups| - k
  {
    if k == |Groups| then OtherImports
    else if Matcher(Groups[k], d) then Groups[k]
    else GroupFrom(d, k + 1)
  }

  /** `getImportGroup(importDecl)`: the first group, in `Groups` order, whose matcher accepts the import. */
  function GetImportGroup(d: Node): (r: ImportGroup)
    ensures Matcher(r, d)
    ensures forall g :: Rank(g) < Rank(r) ==> !Matcher(g, d)
  {
    var r := GroupFrom(d, 0);
    assert forall g :: Rank(g) < Rank(r) ==> !Matcher(Groups[Rank(g)], d);
    r
  }

  function ImportRank(d: Node): GroupIndex
  {
    Rank(GetImportGroup(d))
  }

  // ---- grouping, for any element type ----

  /** The elements of group position `k`, in their original order. */
  function Bucket<T>(xs: seq<T>, rank: T -> GroupIndex, k: nat): seq<T>
  {
    Filter(xs, (x: T) => rank(x) == k)
  }

  /** The elements whose group position is `k` or later. */
  function Beyond<T>(xs: seq<T>, rank: T -> GroupIndex, k: nat): seq<T>
  {
    Filter(xs, (x: T) => rank(x) >= k)
  }

  /** The buckets from position `k` on, each sorted by key (stably), one after the other. */
  function Arrange<T>(xs: seq<T>, rank: T -> GroupIndex, key: T -> string, k: nat): seq<T>
    requires k <= 5
    decreases 5 - k
  {
    if k == 5 then [] else SortBy(Bucket(xs, rank, k), key) + Arrange(xs, rank, key, k + 1)
  }

  /** Group positions never decrease, and keys ascend within a group. */
  predicate Ordered<T>(ys: seq<T>, rank: T -> GroupIndex, key: T -> string)
  {
    forall i, j :: 0 <= i < j < |ys| ==>
      rank(ys[i]) <= rank(ys[j]) && (rank(ys[i]) == rank(ys[j]) ==> Le(key(ys[i]), key(ys[j])))
  }

  lemma {:induction false} BeyondSplit<T>(xs: seq<T>, rank: T -> GroupIndex, k: nat)
    ensures multiset(Beyond(xs, rank, k)) == multiset(Bucket(xs, rank, k)) + multiset(Beyond(xs, rank, k + 1))
  {
    if xs != [] {
      BeyondSplit(xs[1..], rank, k);
    }
  }

  lemma {:induction false} BeyondNone<T>(xs: seq<T>, rank: T -> GroupIndex)
    ensures Beyond(xs, rank, 5) == []
  {
    if xs != [] {
      BeyondNone(xs[1..], rank);
    }
  }

  lemma {:induction false} BeyondAll<T>(xs: seq<T>, rank: T -> GroupIndex)
    ensures Beyond(xs, rank, 0) == xs
  {
    if xs != [] {
      BeyondAll(xs[1..], rank);
      HeadTail(xs);
    }
  }

  lemma {:induction false} ArrangePermutes<T>(xs: seq<T>, rank: T -> GroupIndex, key: T -> string, k: nat)
    requires k <= 5
    ensures multiset(Arrange(xs, rank, key, k)) == multiset(Beyond(xs, rank, k))
    decreases 5 - k
  {
    if k == 5 {
      BeyondNone(xs, rank);
    } else {
      ArrangePermutes(xs, rank, key, k + 1);
      SortByPermutes(Bucket(xs, rank, k), key);
      BeyondSplit(xs, rank, k);
    }
  }

  lemma BucketRanks<T>(xs: seq<T>, rank: T -> GroupIndex, k: nat)
    ensures forall i :: 0 <= i < |Bucket(xs, rank, k)| ==> rank(Bucket(xs, rank, k)[i]) == k
  {
  }

  /** Every element of the sorted bucket still has group position `k`. */
  lemma SortedBucketRanks<T>(xs: seq<T>, rank: T -> GroupIndex, key: T -> string, k: nat)
    ensures forall i :: 0 <= i < |SortBy(Bucket(xs, rank, k), key)| ==> rank(SortBy(Bucket(xs, rank, k), key)[i]) == k
  {
    var b := Bucket(xs, rank, k);
    var h := SortBy(b, key);
    SortByPermutes(b, key);
    forall i | 0 <= i < |h|
      ensures rank(h[i]) == k
    {
      assert h[i] in multiset(h);
      var m :| 0 <= m < |b| && b[m] == h[i];
    }
  }

  /** Two ordered runs, the second at no lower group positions, concatenate to an ordered run. */
  lemma OrderedConcat<T>(a: seq<T>, b: seq<T>, rank: T -> GroupIndex, key: T -> string, k: nat)
    requires Ordered(a, rank, key) && Ordered(b, rank, key)
    requires forall i :: 0 <= i < |a| ==> rank(a[i]) == k
    requires forall i :: 0 <= i < |b| ==> rank(b[i]) > k
    ensures Ordered(a + b, rank, key)
  {
    var r := a + b;
    forall i, j | 0 <= i < j < |r|
      ensures rank(r[i]) <= rank(r[j]) && (rank(r[i]) == rank(r[j]) ==> Le(key(r[i]), key(r[j])))
    {
      if j < |a| {
        assert r[i] == a[i] && r[j] == a[j];
      } else if i < |a| {
        assert r[i] == a[i] && r[j] == b[j - |a|];
      } else {
        assert r[i] == b[i - |a|] && r[j] == b[j - |a|];
      }
    }
  }

  lemma {:induction false} ArrangeOrdered<T>(xs: seq<T>, rank: T -> GroupIndex, key: T -> string, k: nat)
    requires k <= 5
    ensures forall i :: 0 <= i < |Arrange(xs, rank, key, k)| ==> rank(Arrange(xs, rank, key, k)[i]) >= k
    ensures Ordered(Arrange(xs, rank, key, k), rank, key)
    decreases 5 - k
  {
    if k < 5 {
      ArrangeOrdered(xs, rank, key, k + 1);
      var head := SortBy(Bucket(xs, rank, k), key);
      var tail := Arrange(xs, rank, key, k + 1);
      SortedBucketRanks(xs, rank, key, k);
      OrderedConcat(head, tail, rank, key, k);
      var r := head + tail;
      forall i | 0 <= i < |r|
        ensures rank(r[i]) >= k
      {
        if i >= |head| {
          assert r[i] == tail[i - |head|];
        } else {
          assert r[i] == head[i];
        }
      }
    }
  }

  lemma OrderedTail<T>(xs: seq<T>, rank: T -> GroupIndex, key: T -> string)
    requires xs != [] && Ordered(xs, rank, key)
    ensures Ordered(xs[1..], rank, key)
    ensures forall i :: 0 <= i < |xs[1..]| ==> rank(xs[0]) <= rank(xs[1..][i])
    ensures forall i :: 0 <= i < |xs[1..]| && rank(xs[0]) == rank(xs[1..][i]) ==> Le(key(xs[0]), key(xs[1..][i]))
  {
    var rest := xs[1..];
    forall i, j | 0 <= i < j < |rest|
      ensures rank(rest[i]) <= rank(rest[j]) && (rank(rest[i]) == rank(rest[j]) ==> Le(key(rest[i]), key(rest[j])))
    {
      assert rest[i] == xs[i + 1] && rest[j] == xs[j + 1];
    }
    forall i | 0 <= i < |rest|
      ensures rank(xs[0]) <= rank(rest[i]) && (rank(xs[0]) == rank(rest[i]) ==> Le(key(xs[0]), key(rest[i])))
    {
      assert rest[i] == xs[i + 1];
    }
  }

  /** In an ordered sequence each bucket is ascending by key. */
  lemma {:induction false} BucketOfOrdered<T>(xs: seq<T>, rank: T -> GroupIndex, key: T -> string, k: nat)
    requires Ordered(xs, rank, key)
    ensures SortedBy(Bucket(xs, rank, k), key)
  {
    if xs != [] {
      var rest := xs[1..];
      OrderedTail(xs, rank, key);
      BucketOfOrdered(rest, rank, key, k);
      var b := Bucket(xs, rank, k);
      var br := Bucket(rest, rank, k);
      if rank(xs[0]) == k {
        assert b == [xs[0]] + br;
        forall j | 0 < j < |b|
          ensures Le(key(b[0]), key(b[j]))
        {
          assert b[j] == br[j - 1];
          FilterMember(rest, (x: T) => rank(x) == k, b[j]);
          var m :| 0 <= m < |rest| && rest[m] == b[j];
        }
        forall i, j | 0 < i < j < |b|
          ensures Le(key(b[i]), key(b[j]))
        {
          assert b[i] == br[i - 1] && b[j] == br[j - 1];
        }
      } else {
        assert b == br;
      }
    }
  }

  lemma {:induction false} BucketAbove<T>(xs: seq<T>, rank: T -> GroupIndex, k: nat)
    requires forall i :: 0 <= i < |xs| ==> rank(xs[i]) > k
    ensures Bucket(xs, rank, k) == []
  {
    if xs != [] {
      BucketAbove(xs[1..], rank, k);
    }
  }

  /** In an ordered sequence the elements of position `k` come before those of later positions. */
  lemma {:induction false} BeyondOrdered<T>(xs: seq<T>, rank: T -> GroupIndex, key: T -> string, k: nat)
    requires Ordered(xs, rank, key)
    ensures Beyond(xs, rank, k) == Bucket(xs, rank, k) + Beyond(xs, rank, k + 1)
  {
    if xs != [] {
      var x := xs[0];
      var rest := xs[1..];
      OrderedTail(xs, rank, key);
      BeyondOrdered(rest, rank, key, k);
      if rank(x) > k {
        BucketAbove(rest, rank, k);
        ConcatEmpty(Beyond(xs, rank, k + 1));
        ConcatEmpty(Beyond(rest, rank, k + 1));
      } else if rank(x) == k {
        Assoc([x], Bucket(rest, rank, k), Beyond(rest, rank, k + 1));
      }
    }
  }

  lemma {:induction false} ArrangeOfOrdered<T>(xs: seq<T>, rank: T -> GroupIndex, key: T -> string, k: nat)
    requires k <= 5 && Ordered(xs, rank, key)
    ensures Arrange(xs, rank, key, k) == Beyond(xs, rank, k)
    decreases 5 - k
  {
    if k == 5 {
      BeyondNone(xs, rank);
    } else {
      ArrangeOfOrdered(xs, rank, key, k + 1);
      BucketOfOrdered(xs, rank, key, k);
      SortBySorted(Bucket(xs, rank, k), key);
      BeyondOrdered(xs, rank, key, k);
    }
  }

  // ---- the import sort ----

  /** `getSortedImportNodes(imports)` */
  function SortedImports(xs: seq<Node>): seq<Node>
  {
    if xs == [] then [] else Arrange(xs, ImportRank, Source, 0)
  }

  /** Grouped in `Groups` order and ascending by source within a group. */
  predicate ImportsOrdered(ys: seq<Node>)
  {
    Ordered(ys, ImportRank, Source)
  }

  /** The sorted imports are a permutation of the imports. */
  lemma SortedImportsPermutes(xs: seq<Node>)
    ensures multiset(SortedImports(xs)) == multiset(xs)
    ensures |SortedImports(xs)| == |xs|
  {
    if xs != [] {
      ArrangePermutes(xs, ImportRank, Source, 0);
      BeyondAll(xs, ImportRank);
    }
    assert |multiset(SortedImports(xs))| == |multiset(xs)|;
  }

  /** The sorted imports come group by group, in `Groups` order, ascending by source within each group. */
  lemma SortedImportsOrdered(xs: seq<Node>)
    ensures ImportsOrdered(SortedImports(xs))
  {
    if xs != [] {
      ArrangeOrdered(xs, ImportRank, Source, 0);
    }
  }

  /** Imports that are already grouped and sorted are returned as they are. */
  lemma SortedImportsOfOrdered(xs: seq<Node>)
    requires ImportsOrdered(xs)
    ensures SortedImports(xs) == xs
  {
    if xs != [] {
      ArrangeOfOrdered(xs, ImportRank, Source, 0);
      BeyondAll(xs, ImportRank);
    }
  }

  /** Sorting twice gives what sorting once gives. */
  lemma SortedImportsIdempotent(xs: seq<Node>)
    ensures SortedImports(SortedImports(xs)) == SortedImports(xs)
  {
    SortedImportsOrdered(xs);
    SortedImportsOfOrdered(SortedImports(xs));
  }

  lemma BucketAppend<T>(xs: seq<T>, x: T, rank: T -> GroupIndex, k: nat)
    ensures Bucket(xs + [x], rank, k) == Bucket(xs, rank, k) + (if rank(x) == k then [x] else [])
  {
    FilterAppend(xs, x, (y: T) => rank(y) == k);
  }

  /**
   * `getSortedImportNodes(imports)`: the imports are put in buckets by
   * group, then each bucket present is sorted by source and appended, in
   * `Groups` order.
   */
  method GetSortedImportNodes(imports: seq<Node>) returns (importNodes: seq<Node>)
    ensures importNodes == SortedImports(imports)
  {
    importNodes := [];
    if |imports| > 0 {
      var buckets: map<ImportGroup, seq<Node>> := map[];
      var i := 0;
      while i < |imports|
        invariant 0 <= i <= |imports|
        invariant forall g :: g in buckets <==> Bucket(imports[..i], ImportRank, Rank(g)) != []
        invariant forall g :: g in buckets ==> buckets[g] == Bucket(imports[..i], ImportRank, Rank(g))
      {
        var n := imports[i];
        var group := GetImportGroup(n);
        PrefixSnoc(imports, i);
        forall g
          ensures Bucket(imports[..i + 1], ImportRank, Rank(g)) ==
            Bucket(imports[..i], ImportRank, Rank(g)) + (if g == group then [n] else [])
        {
          BucketAppend(imports[..i], n, ImportRank, Rank(g));
        }
        if group !in buckets {
          buckets := buckets[group := [n]];
        } else {
          buckets := buckets[group := buckets[group] + [n]];
        }
        i := i + 1;
      }
      PrefixAll(imports);
      var k := 0;
      while k < |Groups|
        invariant 0 <= k <= |Groups|
        invariant importNodes + Arrange(imports, ImportRank, Source, k) == Arrange(imports, ImportRank, Source, 0)
      {
        var key := Groups[k];
        GroupsRank(k);
        Assoc(importNodes, SortBy(Bucket(imports, ImportRank, k), Source), Arrange(imports, ImportRank, Source, k + 1));
        if key in buckets {
          importNodes := importNodes + SortBy(buckets[key], Source);
        } else {
          ConcatEmpty(Arrange(imports, ImportRank, Source, k + 1));
        }
        k := k + 1;
      }
      ConcatEmpty(importNodes);
    }
  }

  /** `root.find(jscs.ImportDeclaration)`: import declarations appear only among the top-level statements. */
  predicate IsImport(s: Node)
  {
    s.ImportDeclaration?
  }

  /** The program's imports, in order. */
  function ImportsOf(body: seq<Node>): seq<Node>
  {
    Filter(body, IsImport)
  }

  /**
   * `sortImports(root)`: every import position receives the import the sort
   * puts there; the answer says whether any position received a different
   * import.
   */
  method SortImports(p: Program) returns (changed: bool)
    modifies p
    ensures |SortedImports(ImportsOf(old(p.body)))| == |ImportsOf(old(p.body))|
    ensures p.body == Place(old(p.body), IsImport, SortedImports(ImportsOf(old(p.body))))
    ensures changed <==> p.body != old(p.body)
    ensures changed <==> SortedImports(ImportsOf(old(p.body))) != ImportsOf(old(p.body))
  {
    var body := p.body;
    var imports := ImportsOf(body);
    var importNodes := GetSortedImportNodes(imports);
    SortedImportsPermutes(imports);
    changed := false;
    var cur := body;
    var i := 0;
    var idx := 0;
    while i < |body|
      invariant 0 <= i <= |body|
      invariant idx == |Filter(body[..i], IsImport)| && idx <= |importNodes|
      invariant |cur| == |body| && cur[i..] == body[i..]
      invariant cur[..i] == Place(body[..i], IsImport, importNodes[..idx])
      invariant changed <==> importNodes[..idx] != Filter(body[..i], IsImport)
    {
      PlaceLoopStep(body, cur, importNodes, IsImport, i, idx, changed);
      if IsImport(body[i]) {
        var target := importNodes[idx];
        if target != body[i] {
          cur := cur[i := target];
          changed := true;
        }
        idx := idx + 1;
      }
      i := i + 1;
    }
    p.body := cur;
    PlaceLoopDone(body, cur, importNodes, IsImport, idx, changed);
  }

  /** On a file whose imports are already grouped and sorted, `sortImports` changes nothing and answers false. */
  lemma SortImportsStable(body: seq<Node>)
    requires ImportsOrdered(ImportsOf(body))
    ensures SortedImports(ImportsOf(body)) == ImportsOf(body)
    ensures Place(body, IsImport, SortedImports(ImportsOf(body))) == body
  {
    SortedImportsOfOrdered(ImportsOf(body));
    PlaceOwn(body, IsImport);
  }
}
