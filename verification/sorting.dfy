/**
 * The ordering `Array.prototype.sort` uses on strings (and the comparator
 * `sortValues` of `src/utils/imports.js`): element by element on character
 * codes, a proper prefix first. The sort itself is stable.
 */
module Sorting {
  import opened Seqs

  /** `a <= b` in JavaScript string order (by code point). */
  predicate Le(a: string, b: string)
    decreases |a|
  {
    a == [] || (b != [] && (a[0] < b[0] || (a[0] == b[0] && Le(a[1..], b[1..]))))
  }

  /** `a < b` in JavaScript string order. */
  predicate Lt(a: string, b: string)
  {
    Le(a, b) && a != b
  }

  lemma {:induction false} LeTotal(a: string, b: string)
    ensures Le(a, b) || Le(b, a)
    decreases |a|
  {
    if a != [] && b != [] && a[0] == b[0] {
      LeTotal(a[1..], b[1..]);
    }
  }

  lemma {:induction false} LeTrans(a: string, b: string, c: string)
    requires Le(a, b) && Le(b, c)
    ensures Le(a, c)
    decreases |a|
  {
    if a != [] && b != [] && c != [] && a[0] == b[0] && b[0] == c[0] {
      LeTrans(a[1..], b[1..], c[1..]);
    }
  }

  lemma {:induction false} LeAntisym(a: string, b: string)
    requires Le(a, b) && Le(b, a)
    ensures a == b
    decreases |a|
  {
    if a != [] {
      LeAntisym(a[1..], b[1..]);
      assert a == [a[0]] + a[1..] && b == [b[0]] + b[1..];
    }
  }

  /** Keys in ascending order. */
  predicate SortedBy<T>(s: seq<T>, key: T -> string)
  {
    forall i, j :: 0 <= i < j < |s| ==> Le(key(s[i]), key(s[j]))
  }

  /** Insert `x` after every element whose key is not greater than its own. */
  function InsertBy<T>(x: T, s: seq<T>, key: T -> string): (r: seq<T>)
    requires SortedBy(s, key)
    ensures SortedBy(r, key)
    ensures multiset(r) == multiset(s) + multiset{x}
    ensures |r| == |s| + 1
  {
    if s == [] then [x]
    else if Lt(key(x), key(s[0])) then
      InsertFront(x, s, key)
    else
      LeTotal(key(x), key(s[0]));
      var rest := InsertBy(x, s[1..], key);
      HeadTail(s);
      HeadBelow(x, s, rest, key);
      [s[0]] + rest
  }

  /** Every element of `rest`, made of `x` and the tail of `s`, has a key no smaller than the head of `s`, so the head can go first. */
  lemma HeadBelow<T>(x: T, s: seq<T>, rest: seq<T>, key: T -> string)
    requires SortedBy(s, key) && s != [] && Le(key(s[0]), key(x))
    requires multiset(rest) == multiset(s[1..]) + multiset{x}
    requires SortedBy(rest, key)
    ensures SortedBy([s[0]] + rest, key)
  {
    forall k | 0 <= k < |rest|
      ensures Le(key(s[0]), key(rest[k]))
    {
      assert rest[k] in multiset(rest);
      if rest[k] != x {
        assert rest[k] in multiset(s[1..]);
        var m :| 0 <= m < |s[1..]| && s[1..][m] == rest[k];
        assert s[m + 1] == rest[k];
      }
    }
    var r := [s[0]] + rest;
    forall i, j | 0 <= i < j < |r|
      ensures Le(key(r[i]), key(r[j]))
    {
      if i > 0 {
        assert r[i] == rest[i - 1] && r[j] == rest[j - 1];
      }
    }
  }

  function InsertFront<T>(x: T, s: seq<T>, key: T -> string): (r: seq<T>)
    requires SortedBy(s, key) && s != [] && Lt(key(x), key(s[0]))
    ensures r == [x] + s && SortedBy(r, key)
  {
    forall j | 0 < j < |s| ensures Le(key(x), key(s[j])) {
      LeTrans(key(x), key(s[0]), key(s[j]));
    }
    [x] + s
  }

  /** Stable insertion sort by key. */
  function SortBy<T>(s: seq<T>, key: T -> string): (r: seq<T>)
    ensures SortedBy(r, key)
    ensures |r| == |s|
  {
    if s == [] then []
    else
      InsertBy(s[|s| - 1], SortBy(s[..|s| - 1], key), key)
  }

  /** The sort only rearranges: the sorted list holds the same elements, as often. */
  lemma {:induction false} SortByPermutes<T>(s: seq<T>, key: T -> string)
    ensures multiset(SortBy(s, key)) == multiset(s)
  {
    if s != [] {
      SortByPermutes(s[..|s| - 1], key);
      LastSplit(s, |s| - 1);
    }
  }

  /** `strings.sort()` */
  function SortStrings(s: seq<string>): (r: seq<string>)
    ensures SortedBy(r, (x: string) => x)
    ensures multiset(r) == multiset(s)
  {
    SortByPermutes(s, (x: string) => x);
    SortBy(s, (x: string) => x)
  }

  /** An ascending list is left as it is. */
  lemma {:induction false} SortBySorted<T>(s: seq<T>, key: T -> string)
    requires SortedBy(s, key)
    ensures SortBy(s, key) == s
  {
    if s != [] {
      var init := s[..|s| - 1];
      assert SortedBy(init, key);
      SortBySorted(init, key);
      InsertLast(s[|s| - 1], init, key);
      LastSplit(s, |s| - 1);
    }
  }

  lemma {:induction false} InsertLast<T>(x: T, s: seq<T>, key: T -> string)
    requires SortedBy(s + [x], key)
    ensures SortedBy(s, key)
    ensures InsertBy(x, s, key) == s + [x]
  {
    var t := s + [x];
    SortedSlice(t, 0, |s|, key);
    assert t[0..|s|] == s;
    if s != [] {
      assert t[0] == s[0] && t[|s|] == x;
      assert Le(key(s[0]), key(x));
      if Lt(key(x), key(s[0])) {
        LeAntisym(key(x), key(s[0]));
      }
      SortedSlice(t, 1, |t|, key);
      assert t[1..|t|] == s[1..] + [x];
      InsertLast(x, s[1..], key);
      assert [s[0]] + (s[1..] + [x]) == t;
    }
  }

  /** A slice of an ascending list is ascending. */
  lemma SortedSlice<T>(t: seq<T>, lo: nat, hi: nat, key: T -> string)
    requires SortedBy(t, key) && lo <= hi <= |t|
    ensures SortedBy(t[lo..hi], key)
  {
    var u := t[lo..hi];
    forall i, j | 0 <= i < j < |u|
      ensures Le(key(u[i]), key(u[j]))
    {
      assert u[i] == t[lo + i] && u[j] == t[lo + j];
    }
  }

  /** Keys in descending order. */
  predicate SortedDescBy<T>(s: seq<T>, key: T -> string)
  {
    forall i, j :: 0 <= i < j < |s| ==> Le(key(s[j]), key(s[i]))
  }

  /** Insert `x` after every element whose key is not smaller than its own. */
  function InsertDescBy<T>(x: T, s: seq<T>, key: T -> string): (r: seq<T>)
    requires SortedDescBy(s, key)
    ensures SortedDescBy(r, key)
    ensures multiset(r) == multiset(s) + multiset{x}
    ensures |r| == |s| + 1
  {
    if s == [] then [x]
    else if Lt(key(s[0]), key(x)) then
      DescFront(x, s, key);
      [x] + s
    else
      LeTotal(key(x), key(s[0]));
      var rest := InsertDescBy(x, s[1..], key);
      HeadTail(s);
      HeadAbove(x, s, rest, key);
      [s[0]] + rest
  }

  lemma DescFront<T>(x: T, s: seq<T>, key: T -> string)
    requires SortedDescBy(s, key) && s != [] && Lt(key(s[0]), key(x))
    ensures SortedDescBy([x] + s, key)
  {
    var r := [x] + s;
    forall i, j | 0 <= i < j < |r|
      ensures Le(key(r[j]), key(r[i]))
    {
      if i == 0 {
        assert r[j] == s[j - 1];
        if j > 1 {
          LeTrans(key(s[j - 1]), key(s[0]), key(x));
        }
      } else {
        assert r[i] == s[i - 1] && r[j] == s[j - 1];
      }
    }
  }

  /** Every element of `rest`, made of `x` and the tail of `s`, has a key no greater than the head of `s`. */
  lemma HeadAbove<T>(x: T, s: seq<T>, rest: seq<T>, key: T -> string)
    requires SortedDescBy(s, key) && s != [] && Le(key(x), key(s[0]))
    requires multiset(rest) == multiset(s[1..]) + multiset{x}
    requires SortedDescBy(rest, key)
    ensures SortedDescBy([s[0]] + rest, key)
  {
    forall k | 0 <= k < |rest|
      ensures Le(key(rest[k]), key(s[0]))
    {
      assert rest[k] in multiset(rest);
      if rest[k] != x {
        assert rest[k] in multiset(s[1..]);
        var m :| 0 <= m < |s[1..]| && s[1..][m] == rest[k];
        assert s[m + 1] == rest[k];
      }
    }
    var r := [s[0]] + rest;
    forall i, j | 0 <= i < j < |r|
      ensures Le(key(r[j]), key(r[i]))
    {
      if i > 0 {
        assert r[i] == rest[i - 1] && r[j] == rest[j - 1];
      }
    }
  }

  /**
   * Stable insertion sort with the comparator
   * `(a, b) => key(a) > key(b) ? -1 : key(a) < key(b) ? 1 : 0`.
   */
  function SortDescBy<T>(s: seq<T>, key: T -> string): (r: seq<T>)
    ensures SortedDescBy(r, key)
    ensures multiset(r) == multiset(s)
    ensures |r| == |s|
  {
    if s == [] then []
    else
      LastSplit(s, |s| - 1);
      InsertDescBy(s[|s| - 1], SortDescBy(s[..|s| - 1], key), key)
  }
}
