/**
 * The JSDoc handling of `src/utils/classes.js`: rebuilding a block comment
 * from its lines (`createCommentBlockFromParts`) and splitting a Closure
 * constructor's comment into the comment of the new class and the comment
 * of its `constructor` method (`splitCommentsForClass`).
 */
module ClassComments {
  import opened Strings
  import opened Logger
  import opened Seqs

  /** `!part || part.trim() === '*'`: an empty line, or one holding only the `*` margin. */
  predicate Blank(part: string)
  {
    part == [] || Trim(part) == "*"
  }

  /** The list without the `B` elements in front (the `shift` loop). */
  function DropLeading<T>(xs: seq<T>, B: T -> bool): (r: seq<T>)
  {
    if xs != [] && B(xs[0]) then DropLeading(xs[1..], B) else xs
  }

  /** The list without the `B` elements at the end (the `pop` loop). */
  function DropTrailing<T>(xs: seq<T>, B: T -> bool): (r: seq<T>)
  {
    if xs != [] && B(xs[|xs| - 1]) then DropTrailing(xs[..|xs| - 1], B) else xs
  }

  /** The lines a comment block is built from. */
  function Stripped(parts: seq<string>): seq<string>
  {
    DropTrailing(DropLeading(parts, Blank), Blank)
  }

  /** The text `createCommentBlockFromParts` returns: `*`, the kept lines and ` `, joined by newlines. */
  function CommentBlockText(parts: seq<string>): string
  {
    Join(["*"] + Stripped(parts) + [" "], "\n")
  }

  lemma {:induction false} DropLeadingSlice<T>(xs: seq<T>, B: T -> bool)
    ensures |DropLeading(xs, B)| <= |xs|
    ensures DropLeading(xs, B) == xs[|xs| - |DropLeading(xs, B)|..]
    ensures forall k :: 0 <= k < |xs| - |DropLeading(xs, B)| ==> B(xs[k])
    ensures DropLeading(xs, B) == [] || !B(DropLeading(xs, B)[0])
  {
    if xs != [] && B(xs[0]) {
      DropLeadingSlice(xs[1..], B);
    }
  }

  lemma {:induction false} DropTrailingSlice<T>(xs: seq<T>, B: T -> bool)
    ensures |DropTrailing(xs, B)| <= |xs|
    ensures DropTrailing(xs, B) == xs[..|DropTrailing(xs, B)|]
    ensures forall k :: |DropTrailing(xs, B)| <= k < |xs| ==> B(xs[k])
    ensures DropTrailing(xs, B) == [] || !B(DropTrailing(xs, B)[|DropTrailing(xs, B)| - 1])
  {
    if xs != [] && B(xs[|xs| - 1]) {
      DropTrailingSlice(xs[..|xs| - 1], B);
    }
  }

  /** A list that starts with an element outside `B` keeps that element first. */
  lemma {:induction false} DropTrailingKeepsHead<T>(xs: seq<T>, B: T -> bool)
    requires xs != [] && !B(xs[0])
    ensures DropTrailing(xs, B) != [] && DropTrailing(xs, B)[0] == xs[0]
  {
    if B(xs[|xs| - 1]) {
      DropTrailingKeepsHead(xs[..|xs| - 1], B);
    }
  }

  /** Both drops together keep the slice `xs[a..b]` with only `B` elements outside it and none at its ends. */
  lemma DropBothBounds<T>(xs: seq<T>, B: T -> bool)
    ensures var a := |xs| - |DropLeading(xs, B)|;
      var r := DropTrailing(DropLeading(xs, B), B);
      var b := a + |r|;
      0 <= a <= b <= |xs| && r == xs[a..b] &&
      (forall k :: 0 <= k < a ==> B(xs[k])) &&
      (forall k :: b <= k < |xs| ==> B(xs[k])) &&
      (r == [] || (!B(r[0]) && !B(r[|r| - 1])))
  {
    var lead := DropLeading(xs, B);
    DropLeadingSlice(xs, B);
    var a := |xs| - |lead|;
    var r := DropTrailing(lead, B);
    DropTrailingSlice(lead, B);
    var b := a + |r|;
    assert r == xs[a..b] by {
      assert lead == xs[a..] && r == lead[..|r|];
      assert xs[a..][..|r|] == xs[a..b];
    }
    forall k | b <= k < |xs|
      ensures B(xs[k])
    {
      assert xs[k] == lead[k - a];
    }
    if r != [] {
      assert r[0] == lead[0];
    }
  }

  /** Dropping again from what is left drops nothing. */
  lemma DropBothIdempotent<T>(xs: seq<T>, B: T -> bool)
    ensures var r := DropTrailing(DropLeading(xs, B), B);
      DropTrailing(DropLeading(r, B), B) == r
  {
    var r := DropTrailing(DropLeading(xs, B), B);
    DropBothBounds(xs, B);
    if r != [] {
      assert DropLeading(r, B) == r;
      assert DropTrailing(r, B) == r;
    }
  }

  /**
   * What is kept is one contiguous run of the lines: everything before and
   * after it is blank, and it neither starts nor ends with a blank line.
   */
  lemma StrippedSpec(parts: seq<string>)
    ensures exists a, b ::
      (0 <= a <= b <= |parts| && Stripped(parts) == parts[a..b] &&
       (forall k :: 0 <= k < a ==> Blank(parts[k])) &&
       (forall k :: b <= k < |parts| ==> Blank(parts[k])))
    ensures Stripped(parts) == [] || (!Blank(Stripped(parts)[0]) && !Blank(Stripped(parts)[|Stripped(parts)| - 1]))
  {
    DropBothBounds(parts, Blank);
  }

  /** Stripping again keeps everything. */
  lemma StrippedIdempotent(parts: seq<string>)
    ensures Stripped(Stripped(parts)) == Stripped(parts)
  {
    DropBothIdempotent(parts, Blank);
  }

  /** `[a] + rest` joined: `a`, the separator, then the rest joined. */
  lemma JoinCons(a: string, rest: seq<string>, sep: string)
    requires rest != []
    ensures Join([a] + rest, sep) == a + sep + Join(rest, sep)
  {
    assert ([a] + rest)[1..] == rest;
  }

  /** A join of one part or more starts with its first part. */
  lemma {:induction false} JoinStartsWith(parts: seq<string>, sep: string)
    requires parts != []
    ensures StartsWith(Join(parts, sep), parts[0])
  {
    if |parts| > 1 {
      assert Join(parts, sep) == parts[0] + (sep + Join(parts[1..], sep));
    }
  }

  /** A join of two parts or more ends with the separator and its last part. */
  lemma {:induction false} JoinEndsWith(parts: seq<string>, sep: string)
    requires |parts| >= 2
    ensures EndsWith(Join(parts, sep), sep + parts[|parts| - 1])
    decreases |parts|
  {
    var last := parts[|parts| - 1];
    if |parts| == 2 {
      assert Join(parts[1..], sep) == parts[1];
      assert Join(parts, sep) == parts[0] + (sep + last);
    } else {
      JoinEndsWith(parts[1..], sep);
      var rest := Join(parts[1..], sep);
      assert Join(parts, sep) == (parts[0] + sep) + rest;
    }
  }

  /**
   * The shape of every rebuilt block: it starts with the `*` that makes the
   * comment a doc comment, ends with the line ` ` that indents the closing marker,
   * and when no line holds a newline its lines are exactly `*`, the kept
   * lines and ` `.
   */
  lemma CommentBlockShape(parts: seq<string>)
    ensures StartsWith(CommentBlockText(parts), "*\n")
    ensures EndsWith(CommentBlockText(parts), "\n ")
    ensures (forall k :: 0 <= k < |parts| ==> '\n' !in parts[k]) ==>
      Split(CommentBlockText(parts), '\n') == ["*"] + Stripped(parts) + [" "]
  {
    var lines := ["*"] + Stripped(parts) + [" "];
    assert lines == ["*"] + (Stripped(parts) + [" "]);
    JoinCons("*", Stripped(parts) + [" "], "\n");
    assert CommentBlockText(parts) == "*\n" + Join(Stripped(parts) + [" "], "\n");
    JoinEndsWith(lines, "\n");
    if forall k :: 0 <= k < |parts| ==> '\n' !in parts[k] {
      NoBreakInStripped(parts);
      forall k | 0 <= k < |lines|
        ensures '\n' !in lines[k]
      {
        if 0 < k < |lines| - 1 {
          assert lines[k] == Stripped(parts)[k - 1];
        }
      }
      SplitJoin(lines, '\n');
    }
  }

  lemma NoBreakInStripped(parts: seq<string>)
    requires forall k :: 0 <= k < |parts| ==> '\n' !in parts[k]
    ensures forall k :: 0 <= k < |Stripped(parts)| ==> '\n' !in Stripped(parts)[k]
  {
    DropBothBounds(parts, Blank);
    var a := |parts| - |DropLeading(parts, Blank)|;
    var r := Stripped(parts);
    assert r == parts[a..a + |r|];
    forall k | 0 <= k < |r|
      ensures '\n' !in r[k]
    {
      assert r[k] == parts[a + k];
    }
  }

  /**
   * `createCommentBlockFromParts(commentParts)`: blank lines are shifted off
   * the front and popped off the end, then `*` is put in front and ` `
   * behind, and the lines are joined by newlines.
   */
  method CreateCommentBlockFromParts(commentParts: seq<string>) returns (r: string)
    ensures r == CommentBlockText(commentParts)
  {
    var parts := commentParts;
    while parts != [] && Blank(parts[0])
      invariant DropLeading(parts, Blank) == DropLeading(commentParts, Blank)
      decreases |parts|
    {
      parts := parts[1..];
    }
    while parts != [] && Blank(parts[|parts| - 1])
      invariant DropTrailing(parts, Blank) == Stripped(commentParts)
      decreases |parts|
    {
      parts := parts[..|parts| - 1];
    }
    parts := ["*"] + parts;
    parts := parts + [" "];
    r := Join(parts, "\n");
  }

  /** The line every constructor comment starts with. */
  const ConstructorLine := " * Constructor."

  /** `COMMENT_IGNORE_REGEXP`, `EXTENDS`, `CTOR_COMMENT_REGEXP` and the two `startsWith` tests. */
  const IgnoreTag := "@constructor"
  const ExtendsTag := "@extends"
  const ExtendsOpen := "@extends {"
  const InjectTag := "@ngInject"
  const ParamStart := "* @param"
  const ParamIndent := "*   "

  /** No character a regular-expression `.` refuses. */
  predicate OnOneLine(s: string)
  {
    forall k :: 0 <= k < |s| ==> !IsLineTerminator(s[k])
  }

  /**
   * `EXTENDS_GENERIC.test(t)` for `/@extends {.+<.+>}/`: `@extends {`, at
   * least one character, `<`, at least one character, then `>}`, with no
   * line break in between.
   */
  predicate ExtendsGeneric(t: string)
  {
    exists i, j, k | 0 <= i < |t| && 0 <= j < |t| && 0 <= k < |t| - 1 :: GenericAt(t, i, j, k)
  }

  /** The match of `ExtendsGeneric` with `@extends {` at `i`, `<` at `j` and `>}` at `k`. */
  predicate GenericAt(t: string, i: nat, j: nat, k: nat)
  {
    i + |ExtendsOpen| < j && j + 1 < k && k + 1 < |t| && OccursAt(t, ExtendsOpen, i) &&
    t[j] == '<' && t[k] == '>' && t[k + 1] == '}' && OnOneLine(t[i + |ExtendsOpen|..k])
  }

  /** Lines that are dropped: `@constructor`, and `@extends` without a generic type. */
  predicate Ignored(t: string)
  {
    Contains(t, IgnoreTag) || (Contains(t, ExtendsTag) && !ExtendsGeneric(t))
  }

  /** The answers of the four tests the classifier puts to a trimmed line. */
  datatype LineTests = LineTests(ignored: bool, param: bool, indented: bool, inject: bool)

  function Tests(t: string): LineTests
  {
    LineTests(Ignored(t), StartsWith(t, ParamStart), StartsWith(t, ParamIndent), Contains(t, InjectTag))
  }

  /** The lines of the comment: `comment.trim().split('\n')`. */
  function Lines(comment: string): seq<string>
  {
    Split(Trim(comment), '\n')
  }

  /** The test answers for each line, in order. */
  function TestsOf(lines: seq<string>): (fs: seq<LineTests>)
    ensures |fs| == |lines|
  {
    if |lines| == 0 then [] else TestsOf(lines[..|lines| - 1]) + [Tests(Trim(lines[|lines| - 1]))]
  }

  lemma {:induction false} TestsOfAt(lines: seq<string>, i: nat)
    requires i < |lines|
    ensures TestsOf(lines)[i] == Tests(Trim(lines[i]))
  {
    if i < |lines| - 1 {
      TestsOfAt(lines[..|lines| - 1], i);
      assert lines[..|lines| - 1][i] == lines[i];
    }
  }

  /** Where a line goes. */
  datatype Destination = Dropped | ToClass | ToCtor

  /**
   * One step of the classifier: where a line with these test answers goes
   * when the `inParam` flag is as given, and the flag afterwards.
   */
  function Step(t: LineTests, inParam: bool): (Destination, bool)
  {
    var cont := inParam && t.indented;
    if t.ignored then (Dropped, cont)
    else if t.param || cont then (ToCtor, true)
    else if t.inject then (ToCtor, cont)
    else (ToClass, cont)
  }

  /** The `inParam` flag once the first `n` lines are processed. */
  function InParamAfter(fs: seq<LineTests>, n: nat): bool
    requires n <= |fs|
  {
    if n == 0 then false else Step(fs[n - 1], InParamAfter(fs, n - 1)).1
  }

  /** Line `i` continues a `@param` description: the flag is up and the line is indented. */
  predicate Continues(fs: seq<LineTests>, i: nat)
    requires i < |fs|
  {
    InParamAfter(fs, i) && fs[i].indented
  }

  function Dest(fs: seq<LineTests>, i: nat): Destination
    requires i < |fs|
  {
    Step(fs[i], InParamAfter(fs, i)).0
  }

  /** Where each line goes, in order. */
  function DestsOf(fs: seq<LineTests>): (ds: seq<Destination>)
    ensures |ds| == |fs|
  {
    DestsUpTo(fs, |fs|)
  }

  /** The destinations of the first `n` lines. */
  function DestsUpTo(fs: seq<LineTests>, n: nat): (ds: seq<Destination>)
    requires n <= |fs|
    ensures |ds| == n
  {
    if n == 0 then [] else DestsUpTo(fs, n - 1) + [Dest(fs, n - 1)]
  }

  lemma {:induction false} DestsUpToAt(fs: seq<LineTests>, n: nat, i: nat)
    requires i < n <= |fs|
    ensures DestsUpTo(fs, n)[i] == Dest(fs, i)
  {
    if i < n - 1 {
      DestsUpToAt(fs, n - 1, i);
    }
  }

  /** The first `n` lines that go to `d`, in their order. */
  function Routed(lines: seq<string>, ds: seq<Destination>, n: nat, d: Destination): (r: seq<string>)
    requires |ds| == |lines| && n <= |lines|
  {
    if n == 0 then []
    else Routed(lines, ds, n - 1, d) + (if ds[n - 1] == d then [lines[n - 1]] else [])
  }

  /** What `ClassifyLine` returns for line `i` is its destination and the flag after it. */
  lemma StepAt(lines: seq<string>, i: nat, inParam: bool, dest: Destination, inParam': bool)
    requires i < |lines|
    requires inParam == InParamAfter(TestsOf(lines), i)
    requires (dest, inParam') == Step(Tests(Trim(lines[i])), inParam)
    ensures dest == DestsOf(TestsOf(lines))[i]
    ensures inParam' == InParamAfter(TestsOf(lines), i + 1)
  {
    TestsOfAt(lines, i);
    DestsUpToAt(TestsOf(lines), |lines|, i);
  }

  lemma RoutedNext(lines: seq<string>, ds: seq<Destination>, n: nat)
    requires |ds| == |lines| && n < |lines|
    ensures forall d :: Routed(lines, ds, n + 1, d) == Routed(lines, ds, n, d) + (if ds[n] == d then [lines[n]] else [])
  {
  }

  /** The class comment's lines and the constructor comment's lines (after ` * Constructor.`). */
  function ClassLines(comment: string): seq<string>
  {
    var lines := Lines(comment);
    Routed(lines, DestsOf(TestsOf(lines)), |lines|, ToClass)
  }

  function CtorLines(comment: string): seq<string>
  {
    var lines := Lines(comment);
    Routed(lines, DestsOf(TestsOf(lines)), |lines|, ToCtor)
  }

  /**
   * The body of the loop in `splitCommentsForClass` for one line: the
   * flag drops on a line that is not indented, then the line is dropped,
   * sent to the constructor comment or kept for the class comment.
   */
  method ClassifyLine(part: string, inParam: bool) returns (dest: Destination, inParam': bool)
    ensures (dest, inParam') == Step(Tests(Trim(part)), inParam)
  {
    var trimmed := Trim(part);
    inParam' := inParam;
    if inParam' && !StartsWith(trimmed, ParamIndent) {
      // a continuation line is indented at least two more spaces
      inParam' := false;
    }
    if Contains(trimmed, IgnoreTag) {
      dest := Dropped;
    } else if Contains(trimmed, ExtendsTag) && !ExtendsGeneric(trimmed) {
      dest := Dropped;
    } else if StartsWith(trimmed, ParamStart) || inParam' {
      dest := ToCtor;
      inParam' := true;
    } else if Contains(trimmed, InjectTag) {
      dest := ToCtor;
    } else {
      dest := ToClass;
    }
  }

  /**
   * The loop of `splitCommentsForClass` over the comment's lines: each is
   * dropped, appended to the class lines or appended to the constructor
   * lines (which start with ` * Constructor.`).
   */
  method RouteLines(origParts: seq<string>) returns (classParts: seq<string>, ctorParts: seq<string>)
    ensures classParts == Routed(origParts, DestsOf(TestsOf(origParts)), |origParts|, ToClass)
    ensures ctorParts == [ConstructorLine] + Routed(origParts, DestsOf(TestsOf(origParts)), |origParts|, ToCtor)
  {
    ghost var fs := TestsOf(origParts);
    ghost var ds := DestsOf(fs);
    classParts := [];
    ctorParts := [ConstructorLine];
    var inParam := false;
    for i := 0 to |origParts|
      invariant inParam == InParamAfter(fs, i)
      invariant classParts == Routed(origParts, ds, i, ToClass)
      invariant ctorParts == [ConstructorLine] + Routed(origParts, ds, i, ToCtor)
    {
      var part := origParts[i];
      var dest;
      ghost var before := inParam;
      dest, inParam := ClassifyLine(part, inParam);
      StepAt(origParts, i, before, dest, inParam);
      RoutedNext(origParts, ds, i);
      if dest == ToCtor {
        Assoc([ConstructorLine], Routed(origParts, ds, i, ToCtor), [part]);
        ctorParts := ctorParts + [part];
      } else if dest == ToClass {
        classParts := classParts + [part];
      }
    }
  }

  /**
   * `splitCommentsForClass(comment)`: each line of the trimmed comment is
   * dropped, sent to the constructor comment (after its ` * Constructor.`
   * line) or kept for the class comment; both are then rebuilt as blocks.
   */
  method SplitCommentsForClass(comment: string) returns (body: string, ctor: string)
    ensures body == CommentBlockText(ClassLines(comment))
    ensures ctor == CommentBlockText([ConstructorLine] + CtorLines(comment))
  {
    var origParts := Split(Trim(comment), '\n');
    var classParts, ctorParts := RouteLines(origParts);
    body := CreateCommentBlockFromParts(classParts);
    ctor := CreateCommentBlockFromParts(ctorParts);
  }

  /** The lines routed anywhere, counted together. */
  function AllRouted(lines: seq<string>, ds: seq<Destination>, n: nat): multiset<string>
    requires |ds| == |lines| && n <= |lines|
  {
    multiset(Routed(lines, ds, n, Dropped)) + multiset(Routed(lines, ds, n, ToClass)) + multiset(Routed(lines, ds, n, ToCtor))
  }

  lemma AllRoutedStep(lines: seq<string>, ds: seq<Destination>, n: nat)
    requires |ds| == |lines| && 0 < n <= |lines|
    ensures AllRouted(lines, ds, n) == AllRouted(lines, ds, n - 1) + multiset{lines[n - 1]}
  {
  }

  lemma MultisetSnoc<T>(s: seq<T>, n: nat)
    requires 0 < n <= |s|
    ensures multiset(s[..n]) == multiset(s[..n - 1]) + multiset{s[n - 1]}
  {
    assert s[..n] == s[..n - 1] + [s[n - 1]];
  }

  /** Every line goes to exactly one place: the three routes together hold each line once. */
  lemma {:induction false} RoutedPartition(lines: seq<string>, ds: seq<Destination>, n: nat)
    requires |ds| == |lines| && n <= |lines|
    ensures multiset(Routed(lines, ds, n, Dropped)) + multiset(Routed(lines, ds, n, ToClass)) +
            multiset(Routed(lines, ds, n, ToCtor)) == multiset(lines[..n])
  {
    if n > 0 {
      RoutedPartition(lines, ds, n - 1);
      AllRoutedStep(lines, ds, n);
      MultisetSnoc(lines, n);
      assert AllRouted(lines, ds, n) == multiset(lines[..n - 1]) + multiset{lines[n - 1]};
    } else {
      assert Routed(lines, ds, 0, Dropped) == [];
      assert Routed(lines, ds, 0, ToClass) == [];
      assert Routed(lines, ds, 0, ToCtor) == [];
      assert lines[..0] == [];
    }
  }

  /**
   * A `* @param` line, and every following line whose trimmed text starts
   * with `*   `, go to the constructor comment (a dropped line among them
   * stays dropped, without ending the run).
   */
  lemma {:induction false} ParamRun(fs: seq<LineTests>, i: nat, j: nat)
    requires i <= j < |fs|
    requires !fs[i].ignored && fs[i].param
    requires forall k :: i < k <= j ==> fs[k].indented
    ensures InParamAfter(fs, j + 1)
    ensures Dest(fs, j) == (if fs[j].ignored then Dropped else ToCtor)
    decreases j
  {
    if j > i {
      ParamRun(fs, i, j - 1);
      assert Continues(fs, j);
    }
  }

  /**
   * A line that is not dropped, is neither a `* @param` line nor indented
   * like a continuation, and has no `@ngInject`, stays in the class
   * comment, whatever came before it; and it ends any `@param` run.
   */
  lemma ClassLine(fs: seq<LineTests>, i: nat)
    requires i < |fs|
    requires !fs[i].ignored && !fs[i].param && !fs[i].indented && !fs[i].inject
    ensures Dest(fs, i) == ToClass
    ensures !InParamAfter(fs, i + 1)
  {
  }

  /** A line goes to the constructor comment exactly when it is kept and is a `@param` line, a continuation or `@ngInject`. */
  lemma CtorLine(fs: seq<LineTests>, i: nat)
    requires i < |fs|
    ensures Dest(fs, i) == ToCtor <==> !fs[i].ignored && (fs[i].param || Continues(fs, i) || fs[i].inject)
    ensures Dest(fs, i) == Dropped <==> fs[i].ignored
  {
  }

  /** An `@extends` line with a generic type is recognised as such (and so kept, unless it also names `@constructor`). */
  lemma GenericExtendsKept()
    ensures ExtendsGeneric(" @extends {Foo<T>}")
  {
    var t := " @extends {Foo<T>}";
    assert t[1..11] == ExtendsOpen;
    assert OccursAt(t, ExtendsOpen, 1);
    assert t[14] == '<' && t[16] == '>' && t[17] == '}';
    assert OnOneLine(t[11..16]);
    assert GenericAt(t, 1, 14, 16);
  }

  /** The constructor comment's first line after `*` is always ` * Constructor.`. */
  lemma CtorBlockStarts(parts: seq<string>)
    ensures StartsWith(CommentBlockText([ConstructorLine] + parts), "*\n" + ConstructorLine)
  {
    var xs := [ConstructorLine] + parts;
    ConstructorLineNotBlank();
    assert DropLeading(xs, Blank) == xs;
    DropTrailingKeepsHead(xs, Blank);
    var kept := Stripped(xs);
    StartsWithBlock(kept, ConstructorLine);
  }

  lemma ConstructorLineNotBlank()
    ensures !Blank(ConstructorLine)
  {
    TwoSolidNotBlank(ConstructorLine, 1, 3);
  }

  /** A line with two characters that are not whitespace is not blank. */
  lemma TwoSolidNotBlank(s: string, i: nat, j: nat)
    requires i < j < |s| && !IsWhitespace(s[i]) && !IsWhitespace(s[j])
    ensures !Blank(s)
  {
    var a, b := TrimBounds(s);
    assert a <= i && j < b;
    assert |Trim(s)| >= 2;
  }

  /** A block whose first kept line is `line` starts with `*`, a newline and `line`. */
  lemma StartsWithBlock(kept: seq<string>, line: string)
    requires kept != [] && kept[0] == line
    ensures StartsWith(Join(["*"] + kept + [" "], "\n"), "*\n" + line)
  {
    JoinCons("*", kept + [" "], "\n");
    assert ["*"] + kept + [" "] == ["*"] + (kept + [" "]);
    JoinStartsWith(kept + [" "], "\n");
    var rest := Join(kept + [" "], "\n");
    assert rest[..|line|] == line;
    assert ("*\n" + rest)[..|"*\n" + line|] == "*\n" + rest[..|line|];
  }

  /** `s.replace(/ *$/, repl)`: the run of spaces at the very end (possibly empty) is replaced. */
  function ReplaceTrailingSpaces(s: string, repl: string): (r: string)
  {
    if s != [] && s[|s| - 1] == ' ' then ReplaceTrailingSpaces(s[..|s| - 1], repl) else s + repl
  }

  /** The annotation a controller's class comment gets. */
  const UnrestrictedTail := " * @unrestricted\n "

  /**
   * A controller's class comment: the final ` ` line of the block becomes
   * ` * @unrestricted` followed by the closing ` ` line, so the block ends
   * with `\n * @unrestricted\n `.
   */
  lemma {:induction false} UnrestrictedBlock(parts: seq<string>)
    ensures var b := CommentBlockText(parts);
      ReplaceTrailingSpaces(b, UnrestrictedTail) == b[..|b| - 1] + UnrestrictedTail
    ensures EndsWith(ReplaceTrailingSpaces(CommentBlockText(parts), UnrestrictedTail), "\n" + UnrestrictedTail)
  {
    CommentBlockEnds(parts);
    TrailingSpaceAfterBreak(CommentBlockText(parts), UnrestrictedTail);
  }

  /** A block ends with the newline and the single space that indent the closing marker. */
  lemma CommentBlockEnds(parts: seq<string>)
    ensures EndsWith(CommentBlockText(parts), "\n ")
  {
    var lines := ["*"] + Stripped(parts) + [" "];
    JoinEndsWith(lines, "\n");
  }

  /** A text ending in a newline and one space gets `repl` in place of that space. */
  lemma TrailingSpaceAfterBreak(b: string, repl: string)
    requires EndsWith(b, "\n ")
    ensures ReplaceTrailingSpaces(b, repl) == b[..|b| - 1] + repl
    ensures EndsWith(ReplaceTrailingSpaces(b, repl), "\n" + repl)
  {
    var n := |b|;
    assert b[n - 2..] == "\n ";
    assert b[n - 1] == b[n - 2..][1] == ' ';
    assert b[n - 2] == b[n - 2..][0] == '\n';
    var c := b[..n - 1];
    assert c[|c| - 1] == '\n';
    assert ReplaceTrailingSpaces(b, repl) == ReplaceTrailingSpaces(c, repl);
    assert ReplaceTrailingSpaces(c, repl) == c + repl;
    assert c[|c| - 1..] == "\n";
    assert (c + repl)[|c| - 1..] == c[|c| - 1..] + repl;
  }


}
