/**
 * `src/utils/logger.js`: the messages the transforms log (kept as appended
 * lists instead of a winston console) and `abbreviatePath`.
 */
module Logger {
  import opened Strings

  /** The log a run writes to: warnings and informational messages, in order. */
  class Log {
    var warnings: seq<string>
    var infos: seq<string>

    constructor()
      ensures warnings == [] && infos == []
    {
      warnings := [];
      infos := [];
    }

    /** `logger.warn(msg)` */
    method Warn(msg: string)
      modifies this
      ensures warnings == old(warnings) + [msg] && infos == old(infos)
    {
      warnings := warnings + [msg];
    }

    /** `logger.info(msg)` */
    method Info(msg: string)
      modifies this
      ensures infos == old(infos) + [msg] && warnings == old(warnings)
    {
      infos := infos + [msg];
    }
  }

  const DotDotSlash := "../"
  const WorkspaceMarker := "/workspace/"

  /** End of the run of consecutive `../` that starts at `i`. */
  function DotDotRunEnd(s: string, i: nat): (j: nat)
    requires i <= |s|
    ensures i <= j <= |s| && (j - i) % 3 == 0
    ensures !OccursAt(s, DotDotSlash, j)
    ensures forall k: nat | i <= k < j && (k - i) % 3 == 0 :: OccursAt(s, DotDotSlash, k)
    decreases |s| - i
  {
    if OccursAt(s, DotDotSlash, i) then DotDotRunEnd(s, i + 3) else i
  }

  /** `s.replace(/(\.\.\/)+/, '')`: the leftmost run of consecutive `../` is removed. */
  function RemoveFirstDotDotRun(s: string): string
  {
    var i := IndexOf(s, DotDotSlash);
    if i < 0 then s else s[..i] + s[DotDotRunEnd(s, i)..]
  }

  /** Only the first run goes: text before it has no `../`, the run is whole, and everything after it is kept. */
  lemma RemoveFirstDotDotRunSpec(s: string)
    ensures !Contains(s, DotDotSlash) ==> RemoveFirstDotDotRun(s) == s
    ensures Contains(s, DotDotSlash) ==>
      exists i: nat, j: nat :: i < j <= |s| && (j - i) % 3 == 0 &&
        (forall k: nat | k < i :: !OccursAt(s, DotDotSlash, k)) &&
        (forall k: nat | i <= k < j && (k - i) % 3 == 0 :: OccursAt(s, DotDotSlash, k)) &&
        !OccursAt(s, DotDotSlash, j) &&
        RemoveFirstDotDotRun(s) == s[..i] + s[j..]
  {
    if Contains(s, DotDotSlash) {
      var i := IndexOf(s, DotDotSlash) as nat;
      var j := DotDotRunEnd(s, i);
      assert OccursAt(s, DotDotSlash, i);
      assert i < j;
      assert RemoveFirstDotDotRun(s) == s[..i] + s[j..];
      assert forall k: nat | k < i :: !OccursAt(s, DotDotSlash, k);
      assert forall k: nat | i <= k < j && (k - i) % 3 == 0 :: OccursAt(s, DotDotSlash, k);
    }
  }

  /** A character `.` in a JavaScript regular expression does not match. */
  predicate IsLineTerminator(c: char)
  {
    c == '\n' || c == '\r' || c == '\U{2028}' || c == '\U{2029}'
  }

  /** Index of the first line terminator at or after `from`, or `|s|`. */
  function LineEnd(s: string, from: nat): (k: nat)
    requires from <= |s|
    ensures from <= k <= |s|
    ensures k < |s| ==> IsLineTerminator(s[k])
    ensures forall m :: from <= m < k ==> !IsLineTerminator(s[m])
    decreases |s| - from
  {
    if from == |s| || IsLineTerminator(s[from]) then from else LineEnd(s, from + 1)
  }

  /** Index of the last occurrence of `sub` that starts below `bound`, or -1. */
  function LastIndexBelow(s: string, sub: string, bound: nat): (r: int)
    ensures -1 <= r < bound
    ensures r >= 0 ==> OccursAt(s, sub, r)
    ensures forall j: nat | r < j < bound :: !OccursAt(s, sub, j)
  {
    if bound == 0 then -1
    else if OccursAt(s, sub, bound - 1) then bound - 1
    else LastIndexBelow(s, sub, bound - 1)
  }

  /** `s.lastIndexOf(sub)` */
  function LastIndexOf(s: string, sub: string): (r: int)
    ensures r >= 0 <==> Contains(s, sub)
    ensures r >= 0 ==> OccursAt(s, sub, r) && forall j: nat | r < j :: !OccursAt(s, sub, j)
  {
    var r := LastIndexBelow(s, sub, |s| + 1);
    assert forall j: nat | j > |s| :: !OccursAt(s, sub, j);
    r
  }

  /**
   * `s.replace(/.*\/workspace\//, '')`. `.` stops at line terminators, so
   * the leftmost match lies in the first line holding `/workspace/` and,
   * `.*` being greedy, ends with the last `/workspace/` of that line.
   */
  function StripThroughWorkspace(s: string): string
    decreases |s|
  {
    var k := LineEnd(s, 0);
    var line := s[..k];
    if Contains(line, WorkspaceMarker) then s[LastIndexOf(line, WorkspaceMarker) + |WorkspaceMarker|..]
    else if k == |s| then s
    else s[..k + 1] + StripThroughWorkspace(s[k + 1..])
  }

  /** `abbreviatePath`: the first run of `../` goes, then everything up to the last `/workspace/` of the first line holding one. */
  function AbbreviatePath(path: string): string
  {
    StripThroughWorkspace(RemoveFirstDotDotRun(path))
  }

  lemma SliceOccurs(s: string, a: nat, b: nat, sub: string, i: nat)
    requires a <= b <= |s|
    requires OccursAt(s[a..b], sub, i)
    ensures OccursAt(s, sub, a + i)
  {
    var t := s[a..b];
    assert i + |sub| <= |t| && a + i + |sub| <= |s|;
    var u := t[i..i + |sub|];
    var v := s[a + i..a + i + |sub|];
    forall m | 0 <= m < |sub|
      ensures u[m] == v[m]
    {
      assert u[m] == t[i + m] == s[a + i + m];
    }
    assert u == v;
  }

  /** Text without `/workspace/` is not changed by the workspace removal. */
  lemma {:induction false} StripWithoutMarker(s: string)
    requires !Contains(s, WorkspaceMarker)
    ensures StripThroughWorkspace(s) == s
    decreases |s|
  {
    var k := LineEnd(s, 0);
    if Contains(s[..k], WorkspaceMarker) {
      var i: nat :| i <= k && OccursAt(s[..k], WorkspaceMarker, i);
      SliceOccurs(s, 0, k, WorkspaceMarker, i);
      assert false;
    }
    if k < |s| {
      if Contains(s[k + 1..], WorkspaceMarker) {
        var i: nat :| i <= |s| - (k + 1) && OccursAt(s[k + 1..], WorkspaceMarker, i);
        assert s[k + 1..] == s[k + 1..|s|];
        SliceOccurs(s, k + 1, |s|, WorkspaceMarker, i);
        assert false;
      }
      StripWithoutMarker(s[k + 1..]);
      assert s[..k + 1] + s[k + 1..] == s;
    }
  }

  /** On a one-line path the result is what follows the last `/workspace/`, and holds no `/workspace/` any more. */
  lemma StripSingleLine(s: string)
    requires forall m :: 0 <= m < |s| ==> !IsLineTerminator(s[m])
    requires Contains(s, WorkspaceMarker)
    ensures StripThroughWorkspace(s) == s[LastIndexOf(s, WorkspaceMarker) + |WorkspaceMarker|..]
    ensures !Contains(StripThroughWorkspace(s), WorkspaceMarker)
  {
    var k := LineEnd(s, 0);
    assert k == |s|;
    assert s[..k] == s;
    var last := LastIndexOf(s, WorkspaceMarker);
    var rest := s[last + |WorkspaceMarker|..];
    if Contains(rest, WorkspaceMarker) {
      var i: nat :| i <= |rest| && OccursAt(rest, WorkspaceMarker, i);
      assert rest == s[last + |WorkspaceMarker|..|s|];
      SliceOccurs(s, last + |WorkspaceMarker|, |s|, WorkspaceMarker, i);
      assert false;
    }
  }

  /** A path holding neither `../` nor `/workspace/` comes back unchanged. */
  lemma AbbreviateUnchanged(path: string)
    requires !Contains(path, DotDotSlash) && !Contains(path, WorkspaceMarker)
    ensures AbbreviatePath(path) == path
  {
    StripWithoutMarker(path);
  }
}
