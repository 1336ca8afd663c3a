/**
 * Facts about sequence concatenation and slicing, stated once for any
 * element type so that proofs over statement lists can cite them.
 */
module Seqs {

  /** Two lists agreeing position by position are equal. */
  lemma Extensional<T>(a: seq<T>, b: seq<T>)
    requires |a| == |b|
    requires forall i :: 0 <= i < |a| ==> a[i] == b[i]
    ensures a == b
  {
  }

  lemma Assoc<T>(a: seq<T>, b: seq<T>, c: seq<T>)
    ensures a + (b + c) == (a + b) + c
  {
  }

  lemma ConcatEmpty<T>(a: seq<T>)
    ensures [] + a == a && a + [] == a
  {
  }

  lemma ConcatHead<T>(a: seq<T>, b: seq<T>)
    requires a != []
    ensures (a + b)[0] == a[0] && (a + b)[1..] == a[1..] + b
  {
  }

  lemma SplitAt<T>(s: seq<T>, i: nat)
    requires i <= |s|
    ensures s[..i] + s[i..] == s
  {
  }

  /** A list is its part before `i`, the element at `i`, and its part after. */
  lemma Around<T>(s: seq<T>, i: nat)
    requires i < |s|
    ensures s == s[..i] + [s[i]] + s[i + 1..]
  {
  }

  lemma PrefixAll<T>(s: seq<T>)
    ensures s[..|s|] == s
  {
  }

  lemma PrefixSnoc<T>(s: seq<T>, i: nat)
    requires i < |s|
    ensures s[..i + 1] == s[..i] + [s[i]]
  {
  }

  lemma HeadTail<T>(s: seq<T>)
    requires s != []
    ensures s == [s[0]] + s[1..]
  {
  }

  lemma ConcatSlices<T>(a: seq<T>, b: seq<T>)
    ensures (a + b)[..|a|] == a && (a + b)[|a|..] == b
  {
  }

  lemma LastSplit<T>(s: seq<T>, k: nat)
    requires |s| == k + 1
    ensures s[..k] + [s[k]] == s
  {
  }

  lemma TwoSplit<T>(s: seq<T>)
    requires |s| >= 2
    ensures [s[0], s[1]] + s[2..] == s
  {
  }

  /** The elements satisfying `P`, in order. */
  function Filter<T>(xs: seq<T>, P: T -> bool): (r: seq<T>)
    ensures |r| <= |xs|
    ensures forall i :: 0 <= i < |r| ==> P(r[i])
  {
    if xs == [] then [] else (if P(xs[0]) then [xs[0]] else []) + Filter(xs[1..], P)
  }

  lemma {:induction false} FilterConcat<T>(a: seq<T>, b: seq<T>, P: T -> bool)
    ensures Filter(a + b, P) == Filter(a, P) + Filter(b, P)
  {
    if a == [] {
      ConcatEmpty(b);
    } else {
      ConcatHead(a, b);
      FilterConcat(a[1..], b, P);
    }
  }

  lemma FilterAppend<T>(xs: seq<T>, x: T, P: T -> bool)
    ensures Filter(xs + [x], P) == Filter(xs, P) + (if P(x) then [x] else [])
  {
    FilterConcat(xs, [x], P);
    assert Filter([x], P) == (if P(x) then [x] else []) + Filter([], P);
  }

  /** An element is kept exactly when it is in the list and satisfies `P`. */
  lemma {:induction false} FilterMember<T>(xs: seq<T>, P: T -> bool, y: T)
    ensures y in Filter(xs, P) <==> y in xs && P(y)
  {
    if xs != [] {
      FilterMember(xs[1..], P, y);
      HeadTail(xs);
    }
  }

  /** Filtering keeps a part of the multiset. */
  lemma {:induction false} FilterMultiset<T>(xs: seq<T>, P: T -> bool)
    ensures multiset(Filter(xs, P)) <= multiset(xs)
  {
    if xs != [] {
      FilterMultiset(xs[1..], P);
      HeadTail(xs);
    }
  }

  /** Splitting by `P`: the kept and the dropped elements together are the list. */
  lemma {:induction false} FilterPartition<T>(xs: seq<T>, P: T -> bool)
    ensures multiset(Filter(xs, P)) + multiset(Filter(xs, x => !P(x))) == multiset(xs)
  {
    if xs != [] {
      FilterPartition(xs[1..], P);
      HeadTail(xs);
    }
  }

  /** `xs` with the elements satisfying `P` replaced, in order, by `ns`. */
  function Place<T>(xs: seq<T>, P: T -> bool, ns: seq<T>): (r: seq<T>)
    requires |ns| == |Filter(xs, P)|
    ensures |r| == |xs|
  {
    if xs == [] then []
    else if P(xs[0]) then [ns[0]] + Place(xs[1..], P, ns[1..])
    else [xs[0]] + Place(xs[1..], P, ns)
  }

  lemma {:induction false} PlaceConcat<T>(a: seq<T>, na: seq<T>, b: seq<T>, nb: seq<T>, P: T -> bool)
    requires |na| == |Filter(a, P)| && |nb| == |Filter(b, P)|
    ensures |na + nb| == |Filter(a + b, P)|
    ensures Place(a + b, P, na + nb) == Place(a, P, na) + Place(b, P, nb)
  {
    FilterConcat(a, b, P);
    if a == [] {
      ConcatEmpty(b);
      ConcatEmpty(nb);
    } else {
      ConcatHead(a, b);
      if P(a[0]) {
        assert (na + nb)[1..] == na[1..] + nb;
        PlaceConcat(a[1..], na[1..], b, nb, P);
        Assoc([na[0]], Place(a[1..], P, na[1..]), Place(b, P, nb));
      } else {
        PlaceConcat(a[1..], na, b, nb, P);
        Assoc([a[0]], Place(a[1..], P, na), Place(b, P, nb));
      }
    }
  }

  /** Putting back the elements that were there changes nothing. */
  lemma {:induction false} PlaceOwn<T>(xs: seq<T>, P: T -> bool)
    ensures Place(xs, P, Filter(xs, P)) == xs
  {
    if xs != [] {
      PlaceOwn(xs[1..], P);
      var f := Filter(xs, P);
      if P(xs[0]) {
        assert f[0] == xs[0] && f[1..] == Filter(xs[1..], P);
      } else {
        assert f == Filter(xs[1..], P);
      }
      HeadTail(xs);
    }
  }

  /**
   * Placing keeps every other element where it was, puts `ns[k]` where the
   * `k`-th element satisfying `P` was, and, when the new elements satisfy
   * `P` too, filtering gives them back.
   */
  lemma {:induction false} PlaceSpec<T>(xs: seq<T>, P: T -> bool, ns: seq<T>)
    requires |ns| == |Filter(xs, P)|
    ensures forall i :: 0 <= i < |xs| && !P(xs[i]) ==> Place(xs, P, ns)[i] == xs[i]
    ensures (forall k :: 0 <= k < |ns| ==> P(ns[k])) ==> Filter(Place(xs, P, ns), P) == ns
  {
    if xs != [] {
      var r := Place(xs, P, ns);
      if P(xs[0]) {
        PlaceSpec(xs[1..], P, ns[1..]);
        assert r[1..] == Place(xs[1..], P, ns[1..]);
        if forall k :: 0 <= k < |ns| ==> P(ns[k]) {
          HeadTail(ns);
        }
      } else {
        PlaceSpec(xs[1..], P, ns);
        assert r[1..] == Place(xs[1..], P, ns);
      }
    }
  }

  /** Placing changes the list exactly when the new elements differ from the old ones. */
  lemma {:induction false} PlaceChanges<T>(xs: seq<T>, P: T -> bool, ns: seq<T>)
    requires |ns| == |Filter(xs, P)|
    ensures Place(xs, P, ns) == xs <==> ns == Filter(xs, P)
  {
    if xs != [] {
      var r := Place(xs, P, ns);
      if P(xs[0]) {
        PlaceChanges(xs[1..], P, ns[1..]);
        assert r[1..] == Place(xs[1..], P, ns[1..]);
        HeadTail(ns);
        if r == xs {
          assert r[0] == ns[0] && r[1..] == xs[1..];
        }
      } else {
        PlaceChanges(xs[1..], P, ns);
        assert r[1..] == Place(xs[1..], P, ns);
        if r == xs {
          assert r[1..] == xs[1..];
        }
      }
    }
  }

  /** The placed prefix and the kept prefix grow by one element. */
  lemma PlacePrefixStep<T>(body: seq<T>, ns: seq<T>, P: T -> bool, i: nat, idx: nat)
    requires |ns| == |Filter(body, P)|
    requires i < |body| && idx == |Filter(body[..i], P)| && idx <= |ns|
    ensures P(body[i]) ==> idx < |ns|
    ensures var idx' := if P(body[i]) then idx + 1 else idx;
      idx' <= |ns| && idx' == |Filter(body[..i + 1], P)| &&
      Filter(body[..i + 1], P) == Filter(body[..i], P) + (if P(body[i]) then [body[i]] else []) &&
      Place(body[..i + 1], P, ns[..idx']) == Place(body[..i], P, ns[..idx]) + [if P(body[i]) then ns[idx] else body[i]]
  {
    PrefixSnoc(body, i);
    FilterAppend(body[..i], body[i], P);
    SplitAt(body, i + 1);
    FilterConcat(body[..i + 1], body[i + 1..], P);
    var x := body[i];
    if P(x) {
      PrefixSnoc(ns, idx);
      PlaceConcat(body[..i], ns[..idx], [x], [ns[idx]], P);
      assert Place([x], P, [ns[idx]]) == [ns[idx]];
    } else {
      ConcatEmpty(ns[..idx]);
      PlaceConcat(body[..i], ns[..idx], [x], [], P);
      assert Place([x], P, []) == [x];
    }
  }

  /** Two prefixes grown by one element each are equal exactly when the prefixes and the new elements are. */
  lemma SnocEq<T>(a: seq<T>, x: T, b: seq<T>, y: T)
    ensures a + [x] == b + [y] <==> a == b && x == y
  {
    if a + [x] == b + [y] {
      assert |a| == |b|;
      assert (a + [x])[..|a|] == a && (b + [y])[..|b|] == b;
      assert (a + [x])[|a|] == x && (b + [y])[|b|] == y;
    }
  }

  /**
   * One step of a loop that walks `body` and writes the next replacement
   * over every position satisfying `P`, remembering whether any position
   * received a different element.
   */
  lemma PlaceLoopStep<T>(body: seq<T>, cur: seq<T>, ns: seq<T>, P: T -> bool, i: nat, idx: nat, changed: bool)
    requires |ns| == |Filter(body, P)|
    requires i < |body| && idx == |Filter(body[..i], P)| && idx <= |ns|
    requires |cur| == |body| && cur[i..] == body[i..]
    requires cur[..i] == Place(body[..i], P, ns[..idx])
    requires changed <==> ns[..idx] != Filter(body[..i], P)
    ensures P(body[i]) ==> idx < |ns|
    ensures var swap := P(body[i]) && ns[idx] != body[i];
      var idx' := if P(body[i]) then idx + 1 else idx;
      var cur' := if swap then cur[i := ns[idx]] else cur;
      idx' <= |ns| && idx' == |Filter(body[..i + 1], P)| &&
      |cur'| == |body| && cur'[i + 1..] == body[i + 1..] &&
      cur'[..i + 1] == Place(body[..i + 1], P, ns[..idx']) &&
      (changed || swap <==> ns[..idx'] != Filter(body[..i + 1], P))
  {
    PlacePrefixStep(body, ns, P, i, idx);
    var x := body[i];
    assert cur[i] == x by { assert cur[i..][0] == body[i..][0]; }
    var swap := P(x) && ns[idx] != x;
    var cur' := if swap then cur[i := ns[idx]] else cur;
    assert cur'[..i + 1] == cur[..i] + [cur'[i]];
    assert cur'[i + 1..] == cur[i + 1..];
    if P(x) {
      PrefixSnoc(ns, idx);
      SnocEq(ns[..idx], ns[idx], Filter(body[..i], P), x);
    }
  }

  /** At the end of that loop the whole sequence is placed, and the flag says whether it differs from the start. */
  lemma PlaceLoopDone<T>(body: seq<T>, cur: seq<T>, ns: seq<T>, P: T -> bool, idx: nat, changed: bool)
    requires |ns| == |Filter(body, P)|
    requires idx == |Filter(body[..|body|], P)| && idx <= |ns|
    requires |cur| == |body| && cur[..|body|] == Place(body[..|body|], P, ns[..idx])
    requires changed <==> ns[..idx] != Filter(body[..|body|], P)
    ensures cur == Place(body, P, ns)
    ensures changed <==> cur != body
    ensures changed <==> ns != Filter(body, P)
  {
    PrefixAll(body);
    PrefixAll(cur);
    PrefixAll(ns);
    PlaceChanges(body, P, ns);
  }

  /** Filtering by two predicates that agree everywhere gives the same list. */
  lemma {:induction false} FilterSame<T>(xs: seq<T>, P: T -> bool, Q: T -> bool)
    requires forall x :: P(x) == Q(x)
    ensures Filter(xs, P) == Filter(xs, Q)
  {
    if xs != [] {
      FilterSame(xs[1..], P, Q);
    }
  }

  /** Filtering twice keeps what both predicates keep. */
  lemma {:induction false} FilterTwice<T>(xs: seq<T>, P: T -> bool, Q: T -> bool, R: T -> bool)
    requires forall x :: R(x) == (P(x) && Q(x))
    ensures Filter(Filter(xs, P), Q) == Filter(xs, R)
  {
    if xs != [] {
      FilterTwice(xs[1..], P, Q, R);
      var f := Filter(xs[1..], P);
      if P(xs[0]) {
        assert Filter(xs, P) == [xs[0]] + f;
        ConcatHead([xs[0]], f);
        assert Filter([xs[0]] + f, Q) == (if Q(xs[0]) then [xs[0]] else []) + Filter(f, Q);
      } else {
        assert Filter(xs, P) == f;
      }
    }
  }

  /** Keeping the elements of three mutually exclusive kinds keeps each kind's elements. */
  lemma {:induction false} FilterUnion3<T>(xs: seq<T>, A: T -> bool, B: T -> bool, C: T -> bool, U: T -> bool)
    requires forall x :: U(x) == (A(x) || B(x) || C(x))
    requires forall x :: !(A(x) && B(x)) && !(A(x) && C(x)) && !(B(x) && C(x))
    ensures multiset(Filter(xs, U)) == multiset(Filter(xs, A)) + multiset(Filter(xs, B)) + multiset(Filter(xs, C))
  {
    if xs != [] {
      FilterUnion3(xs[1..], A, B, C, U);
    }
  }

  /** Splitting by `P` and its complement `Q`: together the two parts are the list. */
  lemma {:induction false} FilterSplit<T>(xs: seq<T>, P: T -> bool, Q: T -> bool)
    requires forall x :: Q(x) == !P(x)
    ensures multiset(Filter(xs, P)) + multiset(Filter(xs, Q)) == multiset(xs)
  {
    if xs != [] {
      FilterSplit(xs[1..], P, Q);
      HeadTail(xs);
    }
  }

  /** Filtering a list none of whose elements satisfy `P` gives nothing; one all of whose do, gives it back. */
  lemma {:induction false} FilterNoneAll<T>(xs: seq<T>, P: T -> bool)
    ensures (forall i :: 0 <= i < |xs| ==> !P(xs[i])) ==> Filter(xs, P) == []
    ensures (forall i :: 0 <= i < |xs| ==> P(xs[i])) ==> Filter(xs, P) == xs
  {
    if xs != [] {
      FilterNoneAll(xs[1..], P);
      HeadTail(xs);
    }
  }

  /** Index of the first element satisfying `P`, or `|xs|` when there is none. */
  function IndexWhere<T>(xs: seq<T>, P: T -> bool): (r: nat)
    ensures r <= |xs|
    ensures r < |xs| ==> P(xs[r])
    ensures forall j :: 0 <= j < r ==> !P(xs[j])
  {
    if xs == [] then 0
    else if P(xs[0]) then 0
    else 1 + IndexWhere(xs[1..], P)
  }

  /** `list.splice(at, 0, ...items)` */
  function Splice<T>(list: seq<T>, at: nat, items: seq<T>): (r: seq<T>)
    requires at <= |list|
    ensures |r| == |list| + |items|
  {
    list[..at] + items + list[at..]
  }

  /** Three splices at the same index leave the last-spliced items first. */
  lemma SpliceThree<T>(list: seq<T>, at: nat, a: seq<T>, b: seq<T>, c: seq<T>)
    requires at <= |list|
    ensures Splice(Splice(Splice(list, at, c), at, b), at, a) == list[..at] + (a + b + c) + list[at..]
  {
    var l1 := Splice(list, at, c);
    assert l1[..at] == list[..at];
    assert l1[at..] == c + list[at..];
    var l2 := Splice(l1, at, b);
    assert l2[..at] == list[..at];
    assert l2[at..] == b + c + list[at..];
  }

  /** Inserting a block of `P`-elements between non-`P` elements: the `P`-elements of the result are the block. */
  lemma InsertBlockKept<T>(a: seq<T>, block: seq<T>, c: seq<T>, P: T -> bool)
    requires forall i :: 0 <= i < |block| ==> P(block[i])
    requires forall i :: 0 <= i < |a| ==> !P(a[i])
    requires forall i :: 0 <= i < |c| ==> !P(c[i])
    ensures Filter(a + block + c, P) == block
  {
    FilterNoneAll(a, P);
    FilterNoneAll(c, P);
    FilterNoneAll(block, P);
    FilterConcat(a + block, c, P);
    FilterConcat(a, block, P);
    ConcatEmpty(block);
  }

  /** Inserting a block of non-`P` elements between `P`-elements: the `P`-elements of the result are the rest. */
  /** Filtering what is left after dropping the `P` elements: the rest stays, no `P` element is found. */
  lemma FilterComplementAgain<T(!new)>(body: seq<T>, P: T -> bool)
    ensures Filter(Filter(body, Not(P)), Not(P)) == Filter(body, Not(P))
    ensures Filter(Filter(body, Not(P)), P) == []
  {
    var rest := Filter(body, Not(P));
    assert forall i :: 0 <= i < |rest| ==> !P(rest[i]);
    FilterNoneAll(rest, P);
    FilterNoneAll(rest, Not(P));
  }

  /**
   * A block of `P` elements put into the list of non-`P` elements at `m`:
   * filtering out `P` gives that list back, filtering for `P` gives the block.
   */
  lemma FilterInsertedBlock<T(!new)>(body: seq<T>, m: nat, block: seq<T>, P: T -> bool)
    requires m <= |Filter(body, Not(P))|
    requires forall i :: 0 <= i < |block| ==> P(block[i])
    ensures Filter(Filter(body, Not(P))[..m] + block + Filter(body, Not(P))[m..], Not(P)) == Filter(body, Not(P))
    ensures Filter(Filter(body, Not(P))[..m] + block + Filter(body, Not(P))[m..], P) == block
  {
    var rest := Filter(body, Not(P));
    var a, c := rest[..m], rest[m..];
    assert forall i :: 0 <= i < |rest| ==> !P(rest[i]);
    assert forall i :: 0 <= i < |a| ==> !P(a[i]) by {
      forall i | 0 <= i < |a| ensures !P(a[i]) { assert a[i] == rest[i]; }
    }
    assert forall i :: 0 <= i < |c| ==> !P(c[i]) by {
      forall i | 0 <= i < |c| ensures !P(c[i]) { assert c[i] == rest[m + i]; }
    }
    InsertBlockDroppedNot(a, block, c, P);
    InsertBlockKept(a, block, c, P);
    SplitAt(rest, m);
  }

  /** `InsertBlockDropped` for the complement of `P`: a block of `P` elements between two runs without any. */
  lemma InsertBlockDroppedNot<T(!new)>(a: seq<T>, block: seq<T>, c: seq<T>, P: T -> bool)
    requires forall i :: 0 <= i < |block| ==> P(block[i])
    requires forall i :: 0 <= i < |a| ==> !P(a[i])
    requires forall i :: 0 <= i < |c| ==> !P(c[i])
    ensures Filter(a + block + c, Not(P)) == a + c
  {
    InsertBlockDropped(a, block, c, Not(P));
  }

  lemma InsertBlockDropped<T>(a: seq<T>, block: seq<T>, c: seq<T>, P: T -> bool)
    requires forall i :: 0 <= i < |block| ==> !P(block[i])
    requires forall i :: 0 <= i < |a| ==> P(a[i])
    requires forall i :: 0 <= i < |c| ==> P(c[i])
    ensures Filter(a + block + c, P) == a + c
  {
    FilterNoneAll(a, P);
    FilterNoneAll(c, P);
    FilterNoneAll(block, P);
    FilterConcat(a + block, c, P);
    FilterConcat(a, block, P);
    ConcatEmpty(a);
  }

  /** The complement of a predicate. */
  function Not<T(!new)>(P: T -> bool): (Q: T -> bool)
    ensures forall x :: Q(x) == !P(x)
  {
    (x: T) => !P(x)
  }

  /** A permutation of a list whose elements all satisfy `P` has only such elements. */
  lemma PermutationAll<T>(xs: seq<T>, ys: seq<T>, P: T -> bool)
    requires multiset(xs) == multiset(ys)
    requires forall i :: 0 <= i < |ys| ==> P(ys[i])
    ensures forall i :: 0 <= i < |xs| ==> P(xs[i])
  {
    forall i | 0 <= i < |xs|
      ensures P(xs[i])
    {
      assert xs[i] in multiset(ys);
      var j :| 0 <= j < |ys| && ys[j] == xs[i];
    }
  }

  /** Three lists whose elements all satisfy `P` concatenate to one that does. */
  lemma ConcatAll3<T>(a: seq<T>, b: seq<T>, c: seq<T>, P: T -> bool)
    requires forall i :: 0 <= i < |a| ==> P(a[i])
    requires forall i :: 0 <= i < |b| ==> P(b[i])
    requires forall i :: 0 <= i < |c| ==> P(c[i])
    ensures forall i :: 0 <= i < |a + b + c| ==> P((a + b + c)[i])
  {
    var d := a + b + c;
    forall i | 0 <= i < |d|
      ensures P(d[i])
    {
      if i < |a| {
        assert d[i] == a[i];
      } else if i < |a| + |b| {
        assert d[i] == b[i - |a|];
      } else {
        assert d[i] == c[i - |a| - |b|];
      }
    }
  }

  /** Inserting a block adds its elements to the multiset. */
  lemma InsertMultiset<T>(list: seq<T>, at: nat, block: seq<T>)
    requires at <= |list|
    ensures multiset(list[..at] + block + list[at..]) == multiset(list) + multiset(block)
  {
    SplitAt(list, at);
  }

  /** A list made of the non-`P` elements and a rearrangement of the `P` elements is a rearrangement of the whole. */
  lemma PermutedAround<T(!new)>(body: seq<T>, P: T -> bool, block: seq<T>, r: seq<T>)
    requires multiset(r) == multiset(Filter(body, Not(P))) + multiset(block)
    requires multiset(block) == multiset(Filter(body, P))
    ensures multiset(r) == multiset(body)
  {
    FilterSplit(body, P, Not(P));
  }

  /** Sorting three disjoint parts of a list and putting them back next to the rest loses and duplicates nothing. */
  lemma PermutedBlock<T>(xs: seq<T>, rest: seq<T>, a: seq<T>, b: seq<T>, c: seq<T>,
                         fa: seq<T>, fb: seq<T>, fc: seq<T>, deps: seq<T>)
    requires multiset(a) == multiset(fa) && multiset(b) == multiset(fb) && multiset(c) == multiset(fc)
    requires multiset(deps) == multiset(fa) + multiset(fb) + multiset(fc)
    requires multiset(deps) + multiset(rest) == multiset(xs)
    ensures multiset(rest) + multiset(a + b + c) == multiset(xs)
  {
  }

  /** Filtering around a kept element `body[index]`: it sits right after the kept prefix. */
  lemma FilterAround<T>(body: seq<T>, index: nat, keep: T -> bool)
    requires index < |body| && keep(body[index])
    ensures Filter(body, keep) == Filter(body[..index], keep) + [body[index]] + Filter(body[index + 1..], keep)
  {
    var pre, x, post := body[..index], body[index], body[index + 1..];
    Around(body, index);
    FilterConcat(pre + [x], post, keep);
    FilterAppend(pre, x, keep);
  }

  /** Removing a kept element from the filtered list leaves the filtered rest on both sides. */
  lemma RemoveKept<T>(body: seq<T>, index: nat, keep: T -> bool)
    requires index < |body| && keep(body[index])
    ensures |Filter(body[..index], keep)| < |Filter(body, keep)|
    ensures var f := Filter(body, keep); var at := |Filter(body[..index], keep)|;
      f[..at] + f[at + 1..] == Filter(body[..index], keep) + Filter(body[index + 1..], keep)
  {
    var a, b := Filter(body[..index], keep), Filter(body[index + 1..], keep);
    FilterAround(body, index, keep);
    var f := a + [body[index]] + b;
    assert f[..|a|] == a;
    assert f[|a| + 1..] == b;
  }

  /** Dropping `x` and the `P`-elements on both sides of it accounts for every element. */
  lemma RemoveAroundMultiset<T>(body: seq<T>, index: nat, P: T -> bool, Q: T -> bool)
    requires index < |body|
    requires forall x :: Q(x) == !P(x)
    requires !P(body[index])
    ensures multiset(Filter(body[..index], Q) + Filter(body[index + 1..], Q)) + multiset{body[index]} +
            multiset(Filter(body, P)) == multiset(body)
  {
    var pre, x, post := body[..index], body[index], body[index + 1..];
    FilterSplit(pre, P, Q);
    FilterSplit(post, P, Q);
    FilterSkip(body, index, P);
    MultisetAround(body, index);
  }

  /** Filtering around a dropped element `body[index]`. */
  lemma FilterSkip<T>(body: seq<T>, index: nat, P: T -> bool)
    requires index < |body| && !P(body[index])
    ensures Filter(body, P) == Filter(body[..index], P) + Filter(body[index + 1..], P)
  {
    var pre, x, post := body[..index], body[index], body[index + 1..];
    Around(body, index);
    FilterConcat(pre + [x], post, P);
    FilterAppend(pre, x, P);
  }

  lemma MultisetAround<T>(body: seq<T>, index: nat)
    requires index < |body|
    ensures multiset(body) == multiset(body[..index]) + multiset{body[index]} + multiset(body[index + 1..])
  {
    Around(body, index);
  }

  /** No element occurs twice. */
  predicate Distinct<T(==)>(xs: seq<T>)
  {
    forall i, j :: 0 <= i < j < |xs| ==> xs[i] != xs[j]
  }

  /** Filtering keeps every element exactly when every element satisfies `P`. */
  lemma {:induction false} FilterFull<T>(xs: seq<T>, P: T -> bool)
    ensures |Filter(xs, P)| == |xs| <==> forall i :: 0 <= i < |xs| ==> P(xs[i])
  {
    if xs != [] {
      FilterFull(xs[1..], P);
      if forall i :: 0 <= i < |xs[1..]| ==> P(xs[1..][i]) {
        assert forall i :: 1 <= i < |xs| ==> P(xs[i]) by {
          forall i | 1 <= i < |xs| ensures P(xs[i]) { assert xs[i] == xs[1..][i - 1]; }
        }
      }
      if forall i :: 0 <= i < |xs| ==> P(xs[i]) {
        assert forall i :: 0 <= i < |xs[1..]| ==> P(xs[1..][i]) by {
          forall i | 0 <= i < |xs[1..]| ensures P(xs[1..][i]) { assert xs[1..][i] == xs[i + 1]; }
        }
      }
    }
  }

  /** Before index `i`, no element satisfying `E` directly follows one satisfying `R`. */
  predicate NoPairBefore<T>(b: seq<T>, i: nat, E: T -> bool, R: T -> bool)
  {
    forall k :: 0 < k < i && k < |b| ==> !(E(b[k]) && R(b[k - 1]))
  }

  /** Replacing the element before `i` by one with the same `E` keeps the property. */
  lemma NoPairUpdate<T>(b: seq<T>, i: nat, x: T, E: T -> bool, R: T -> bool)
    requires 0 < i < |b| && NoPairBefore(b, i, E, R)
    requires E(x) <==> E(b[i - 1])
    ensures NoPairBefore(b[i - 1 := x], i, E, R)
  {
    var b' := b[i - 1 := x];
    forall k | 0 < k < i && k < |b'|
      ensures !(E(b'[k]) && R(b'[k - 1]))
    {
      if k < i - 1 {
        assert b'[k] == b[k] && b'[k - 1] == b[k - 1];
      } else {
        assert b'[k - 1] == b[k - 1];
      }
    }
  }

  /** Removing the element at `i` keeps the property before `i`. */
  lemma NoPairRemove<T>(b: seq<T>, i: nat, E: T -> bool, R: T -> bool)
    requires i < |b| && NoPairBefore(b, i, E, R)
    ensures NoPairBefore(b[..i] + b[i + 1..], i, E, R)
  {
    var b' := b[..i] + b[i + 1..];
    forall k | 0 < k < i && k < |b'|
      ensures !(E(b'[k]) && R(b'[k - 1]))
    {
      assert b'[k] == b[k] && b'[k - 1] == b[k - 1];
    }
  }

  /** The property extends past an index that is not such a pair. */
  lemma NoPairExtend<T>(b: seq<T>, i: nat, E: T -> bool, R: T -> bool)
    requires i < |b| && NoPairBefore(b, i, E, R)
    requires !(i > 0 && E(b[i]) && R(b[i - 1]))
    ensures NoPairBefore(b, i + 1, E, R)
  {
  }
}
