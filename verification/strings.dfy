/**
 * Text helpers shared by the codemods: the JavaScript `String.prototype`
 * operations they rely on (`split`, `join`, `trim`, `startsWith`,
 * `indexOf`, `replace` with a string pattern, `toLowerCase`), written out
 * on `seq<char>`.
 */
module Strings {

  /** Does `sub` occur in `s` starting at index `i`? */
  predicate OccursAt(s: string, sub: string, i: nat)
  {
    i + |sub| <= |s| && s[i..i + |sub|] == sub
  }

  /** `s.includes(sub)` */
  predicate Contains(s: string, sub: string)
  {
    exists i: nat | i <= |s| :: OccursAt(s, sub, i)
  }

  /** `s.startsWith(prefix)` */
  predicate StartsWith(s: string, prefix: string)
  {
    |prefix| <= |s| && s[..|prefix|] == prefix
  }

  /** `s.endsWith(suffix)` */
  predicate EndsWith(s: string, suffix: string)
  {
    |suffix| <= |s| && s[|s| - |suffix|..] == suffix
  }

  /** `s.indexOf(sub)`: the first index where `sub` occurs, or -1. */
  function IndexOf(s: string, sub: string): (r: int)
    ensures -1 <= r <= |s|
    ensures r == -1 <==> !Contains(s, sub)
    ensures r >= 0 ==> OccursAt(s, sub, r) && forall j: nat | j < r :: !OccursAt(s, sub, j)
  {
    IndexFrom(s, sub, 0)
  }

  function IndexFrom(s: string, sub: string, from: nat): (r: int)
    requires from <= |s|
    requires forall j: nat | j < from :: !OccursAt(s, sub, j)
    ensures -1 <= r <= |s|
    ensures r == -1 <==> !Contains(s, sub)
    ensures r >= 0 ==> from <= r && OccursAt(s, sub, r) && forall j: nat | j < r :: !OccursAt(s, sub, j)
    decreases |s| - from
  {
    if OccursAt(s, sub, from) then from
    else if from == |s| then
      assert forall j: nat | j <= |s| :: !OccursAt(s, sub, j);
      -1
    else IndexFrom(s, sub, from + 1)
  }

  /**
   * `s.replace(pattern, replacement)` with a string pattern: only the first
   * occurrence is replaced (the replacements used here hold no `$`).
   */
  function ReplaceFirst(s: string, pattern: string, replacement: string): (r: string)
  {
    var i := IndexOf(s, pattern);
    if i < 0 then s else s[..i] + replacement + s[i + |pattern|..]
  }

  /** The two outcomes of `ReplaceFirst`: unchanged when absent, one splice at the first occurrence otherwise. */
  lemma ReplaceFirstSpec(s: string, pattern: string, replacement: string)
    ensures !Contains(s, pattern) ==> ReplaceFirst(s, pattern, replacement) == s
    ensures Contains(s, pattern) ==>
      exists i: nat | OccursAt(s, pattern, i) ::
        (forall j: nat | j < i :: !OccursAt(s, pattern, j)) &&
        ReplaceFirst(s, pattern, replacement) == s[..i] + replacement + s[i + |pattern|..]
  {
    if Contains(s, pattern) {
      var i := IndexOf(s, pattern);
      assert OccursAt(s, pattern, i as nat);
    }
  }

  /** Strings with the same occurrences of `pattern` have the same first occurrence. */
  lemma IndexOfAgree(s: string, t: string, pattern: string)
    requires forall j: nat :: OccursAt(s, pattern, j) <==> OccursAt(t, pattern, j)
    ensures IndexOf(s, pattern) == IndexOf(t, pattern)
  {
    var i, k := IndexOf(s, pattern), IndexOf(t, pattern);
    if i >= 0 {
      assert OccursAt(t, pattern, i as nat);
    }
    if k >= 0 {
      assert OccursAt(s, pattern, k as nat);
    }
  }

  /** Replacing in `t + u` splices inside `t` when `u` adds no occurrence of `pattern`. */
  lemma ReplaceFirstAppend(t: string, u: string, pattern: string, replacement: string)
    requires forall j: nat :: OccursAt(t + u, pattern, j) <==> OccursAt(t, pattern, j)
    ensures ReplaceFirst(t + u, pattern, replacement) == ReplaceFirst(t, pattern, replacement) + u
  {
    var s := t + u;
    IndexOfAgree(s, t, pattern);
    var i := IndexOf(t, pattern);
    if i >= 0 {
      assert s[..i] == t[..i];
      assert s[i + |pattern|..] == t[i + |pattern|..] + u;
    }
  }

  /**
   * The characters `String.prototype.trim` and `\s` remove: the ASCII ones,
   * the line and paragraph separators, the BOM and the space separators
   * (no-break space, ogham mark, the U+2000 to U+200A spaces, narrow
   * no-break space, medium mathematical space, ideographic space).
   */
  predicate IsWhitespace(c: char)
  {
    c == ' ' || c == '\t' || c == '\n' || c == '\r' || c == '\U{B}' || c == '\U{C}' ||
    c == '\U{2028}' || c == '\U{2029}' || c == '\U{FEFF}' ||
    c == '\U{A0}' || c == '\U{1680}' || '\U{2000}' <= c <= '\U{200A}' ||
    c == '\U{202F}' || c == '\U{205F}' || c == '\U{3000}'
  }

  function TrimStart(s: string): (r: string)
    ensures |r| <= |s| && r == s[|s| - |r|..]
    ensures r == [] || !IsWhitespace(r[0])
    ensures forall k :: 0 <= k < |s| - |r| ==> IsWhitespace(s[k])
  {
    if |s| > 0 && IsWhitespace(s[0]) then TrimStart(s[1..]) else s
  }

  function TrimEnd(s: string): (r: string)
    ensures |r| <= |s| && r == s[..|r|]
    ensures r == [] || !IsWhitespace(r[|r| - 1])
    ensures forall k :: |r| <= k < |s| ==> IsWhitespace(s[k])
  {
    if |s| > 0 && IsWhitespace(s[|s| - 1]) then TrimEnd(s[..|s| - 1]) else s
  }

  /** `s.trim()`: a contiguous part of `s` that neither starts nor ends with whitespace. */
  function Trim(s: string): (r: string)
  {
    TrimEnd(TrimStart(s))
  }

  /** What `Trim` keeps: a slice of `s`, with whitespace only outside it and no whitespace at its ends. */
  lemma TrimIsSlice(s: string)
    ensures exists a, b ::
      (0 <= a <= b <= |s| && Trim(s) == s[a..b] &&
       (forall k :: 0 <= k < a ==> IsWhitespace(s[k])) &&
       (forall k :: b <= k < |s| ==> IsWhitespace(s[k])))
    ensures Trim(s) == [] || (!IsWhitespace(Trim(s)[0]) && !IsWhitespace(Trim(s)[|Trim(s)| - 1]))
  {
    var a, b := TrimBounds(s);
    var t := TrimStart(s);
    var r := TrimEnd(t);
    if r != [] {
      assert r[0] == t[0];
    }
  }

  /** The bounds of the slice `Trim` keeps. */
  lemma TrimBounds(s: string) returns (a: nat, b: nat)
    ensures 0 <= a <= b <= |s| && Trim(s) == s[a..b]
    ensures forall k :: 0 <= k < a ==> IsWhitespace(s[k])
    ensures forall k :: b <= k < |s| ==> IsWhitespace(s[k])
  {
    var t := TrimStart(s);
    a := |s| - |t|;
    var r := TrimEnd(t);
    b := a + |r|;
    SliceOfSlice(s, a, |r|);
    forall k | b <= k < |s|
      ensures IsWhitespace(s[k])
    {
      var c := t[k - a];
      assert IsWhitespace(c);
      assert s[k] == c;
    }
  }

  lemma SliceOfSlice(s: string, a: nat, n: nat)
    requires a + n <= |s|
    ensures s[a..][..n] == s[a..a + n]
  {
  }

  /** Trimming twice is trimming once. */
  lemma TrimIdempotent(s: string)
    ensures Trim(Trim(s)) == Trim(s)
  {
    var r := Trim(s);
    TrimIsSlice(s);
    if r != [] {
      assert TrimStart(r) == r;
      assert TrimEnd(r) == r;
    }
  }

  /** ASCII part of `toLowerCase` (other scripts are left as they are). */
  function LowerChar(c: char): (r: char)
  {
    if 'A' <= c <= 'Z' then (c as int + 32) as char else c
  }

  function ToLower(s: string): (r: string)
    ensures |r| == |s|
    ensures forall k :: 0 <= k < |s| ==> r[k] == LowerChar(s[k])
  {
    if s == [] then [] else [LowerChar(s[0])] + ToLower(s[1..])
  }

  /** `parts.join(sep)` */
  function Join(parts: seq<string>, sep: string): (r: string)
  {
    if parts == [] then ""
    else if |parts| == 1 then parts[0]
    else parts[0] + sep + Join(parts[1..], sep)
  }

  /** `s.split(sep)` with a one-character separator: always at least one part. */
  function Split(s: string, sep: char): (r: seq<string>)
    ensures |r| >= 1
    ensures forall k :: 0 <= k < |r| ==> sep !in r[k]
  {
    SplitFrom(s, sep, [])
  }

  function SplitFrom(s: string, sep: char, current: string): (r: seq<string>)
    requires sep !in current
    ensures |r| >= 1
    ensures forall k :: 0 <= k < |r| ==> sep !in r[k]
    decreases |s|
  {
    if s == [] then [current]
    else if s[0] == sep then [current] + SplitFrom(s[1..], sep, [])
    else SplitFrom(s[1..], sep, current + [s[0]])
  }

  lemma {:induction false} SplitFromJoin(s: string, sep: char, current: string)
    requires sep !in current
    ensures Join(SplitFrom(s, sep, current), [sep]) == current + s
    decreases |s|
  {
    if s == [] {
    } else if s[0] == sep {
      SplitFromJoin(s[1..], sep, []);
      var rest := SplitFrom(s[1..], sep, []);
      assert SplitFrom(s, sep, current) == [current] + rest;
      assert s == [sep] + s[1..];
    } else {
      SplitFromJoin(s[1..], sep, current + [s[0]]);
      assert s == [s[0]] + s[1..];
    }
  }

  /** Joining the parts of a split with the same separator gives back the text. */
  lemma JoinSplit(s: string, sep: char)
    ensures Join(Split(s, sep), [sep]) == s
  {
    SplitFromJoin(s, sep, []);
  }

  lemma {:induction false} SplitFromOfJoin(parts: seq<string>, sep: char, current: string)
    requires |parts| >= 1
    requires sep !in current
    requires forall k :: 0 <= k < |parts| ==> sep !in parts[k]
    ensures SplitFrom(Join(parts, [sep]), sep, current) == [current + parts[0]] + parts[1..]
    decreases |parts|, |parts[0]|
  {
    if |parts| == 1 {
      SplitFromNoSep(parts[0], sep, current);
    } else {
      var rest := Join(parts[1..], [sep]);
      var s := parts[0] + [sep] + rest;
      assert Join(parts, [sep]) == s;
      if parts[0] == [] {
        assert s == [sep] + rest;
        assert s[1..] == rest;
        SplitFromOfJoin(parts[1..], sep, []);
        assert SplitFrom(s, sep, current) == [current] + SplitFrom(rest, sep, []);
        assert [] + parts[1] == parts[1];
        assert [parts[1]] + parts[2..] == parts[1..];
        assert current + parts[0] == current;
      } else {
        var c := parts[0][0];
        var p0 := parts[0][1..];
        assert s[0] == c && s[1..] == p0 + [sep] + rest;
        var parts' := [p0] + parts[1..];
        assert Join(parts', [sep]) == p0 + [sep] + rest;
        SplitFromOfJoin(parts', sep, current + [c]);
        assert current + [c] + p0 == current + parts[0];
      }
    }
  }

  lemma {:induction false} SplitFromNoSep(s: string, sep: char, current: string)
    requires sep !in current && sep !in s
    ensures SplitFrom(s, sep, current) == [current + s]
    decreases |s|
  {
    if s != [] {
      assert s[0] in s && s[0] != sep;
      assert forall x :: x in s[1..] ==> x in s;
      SplitFromNoSep(s[1..], sep, current + [s[0]]);
      assert SplitFrom(s, sep, current) == SplitFrom(s[1..], sep, current + [s[0]]);
      assert s == [s[0]] + s[1..];
      assert current + [s[0]] + s[1..] == current + s;
    } else {
      assert current + s == current;
    }
  }

  /** Splitting a join gives back the parts, when no part holds the separator. */
  lemma SplitJoin(parts: seq<string>, sep: char)
    requires |parts| >= 1
    requires forall k :: 0 <= k < |parts| ==> sep !in parts[k]
    ensures Split(Join(parts, [sep]), sep) == parts
  {
    SplitFromOfJoin(parts, sep, []);
    assert [] + parts[0] == parts[0];
    assert [parts[0]] + parts[1..] == parts;
  }

  predicate IsDigit(c: char)
  {
    '0' <= c <= '9'
  }

  function DigitChar(d: nat): (c: char)
    requires d < 10
    ensures IsDigit(c)
  {
    (48 + d) as char
  }

  function DigitValue(c: char): (d: nat)
    requires IsDigit(c)
    ensures d < 10
  {
    c as int - 48
  }

  /** Decimal text of a natural number (`${n}`): no sign, no leading zero. */
  function NatToString(n: nat): (r: string)
    ensures |r| >= 1
    ensures forall k :: 0 <= k < |r| ==> IsDigit(r[k])
  {
    if n < 10 then [DigitChar(n)] else NatToString(n / 10) + [DigitChar(n % 10)]
  }

  /** The value of a string of decimal digits. */
  function ParseNat(s: string): nat
    requires forall k :: 0 <= k < |s| ==> IsDigit(s[k])
  {
    if s == [] then 0 else ParseNat(s[..|s| - 1]) * 10 + DigitValue(s[|s| - 1])
  }

  /** Reading back the decimal text gives the number. */
  lemma {:induction false} ParseNatToString(n: nat)
    ensures ParseNat(NatToString(n)) == n
  {
    if n >= 10 {
      var r := NatToString(n);
      assert r[..|r| - 1] == NatToString(n / 10);
      ParseNatToString(n / 10);
    }
  }

  /** Different numbers have different decimal texts. */
  lemma NatToStringInjective(m: nat, n: nat)
    requires NatToString(m) == NatToString(n)
    ensures m == n
  {
    ParseNatToString(m);
    ParseNatToString(n);
  }

  /** Equal strings with the same prefix and suffix have equal middles. */
  lemma MiddleCancel(a: string, x: string, y: string, b: string)
    requires a + x + b == a + y + b
    ensures x == y
  {
    var s := a + x + b;
    assert |x| == |y|;
    assert x == s[|a|..|a| + |x|];
    assert y == (a + y + b)[|a|..|a| + |y|];
  }
}
