/**
 * The name computations of `src/utils/classes.js`: the module name chosen
 * for an Angular UI module (`replaceUIModules`), the element tag of a
 * directive (`convertDirective`) and the namespace/name split of a
 * `goog.define` (`convertGoogDefine`).
 */
module ClassNames {
  import opened Wrappers
  import opened Strings

  /** `s.replace(/<suffix>$/, repl)`: the suffix at the very end of `s` replaced, otherwise `s` unchanged. */
  function ReplaceSuffix(s: string, suffix: string, repl: string): (r: string)
  {
    if EndsWith(s, suffix) then s[..|s| - |suffix|] + repl else s
  }

  lemma ReplaceSuffixOf(base: string, suffix: string, repl: string)
    ensures ReplaceSuffix(base + suffix, suffix, repl) == base + repl
  {
    var s := base + suffix;
    assert s[|s| - |suffix|..] == suffix;
    assert s[..|s| - |suffix|] == base;
  }

  const FixMeSuffix := "_FixMe"

  /** The name `replaceUIModules` settles on, and the warning it logs when it gives up. */
  datatype NameChoice = NameChoice(name: string, warning: Option<string>)

  /** The warning for a name that could not be made unique. */
  function NotUniqueWarning(name: string): string
  {
    "Couldn't create unique module name for " + name + ", please update."
  }

  /**
   * The naming part of `replaceUIModules`: the controller name with a final
   * `Ctrl` replaced by `UI`; if a dependency of that name exists, the same
   * name with a final `UI` dropped; if that exists too, `_FixMe` appended
   * and a warning. `taken` answers whether `getDependency` finds a module.
   */
  function UIModuleName(controllerName: string, taken: string -> bool): (r: NameChoice)
  {
    var first := ReplaceSuffix(controllerName, "Ctrl", "UI");
    if !taken(first) then NameChoice(first, None)
    else
      var second := ReplaceSuffix(first, "UI", "");
      if !taken(second) then NameChoice(second, None)
      else NameChoice(second + FixMeSuffix, Some(NotUniqueWarning(second + FixMeSuffix)))
  }

  /**
   * For a controller named `<base>Ctrl` the candidates are `<base>UI`, then
   * `<base>`, then `<base>_FixMe`: the first free one of the first two is
   * taken, and the warning is logged exactly when neither is free.
   */
  lemma UIModuleNameCandidates(base: string, taken: string -> bool)
    ensures var r := UIModuleName(base + "Ctrl", taken);
      (!taken(base + "UI") ==> r == NameChoice(base + "UI", None)) &&
      (taken(base + "UI") && !taken(base) ==> r == NameChoice(base, None)) &&
      (taken(base + "UI") && taken(base) ==>
        r == NameChoice(base + FixMeSuffix, Some(NotUniqueWarning(base + FixMeSuffix))))
  {
    ReplaceSuffixOf(base, "Ctrl", "UI");
    ReplaceSuffixOf(base, "UI", "");
    assert base + "" == base;
  }

  /** Whenever no warning is logged the chosen name is free; a warning means both candidates were taken. */
  lemma UIModuleNameFree(controllerName: string, taken: string -> bool)
    ensures var r := UIModuleName(controllerName, taken);
      (r.warning.None? ==> !taken(r.name)) &&
      (r.warning.Some? <==>
        taken(ReplaceSuffix(controllerName, "Ctrl", "UI")) &&
        taken(ReplaceSuffix(ReplaceSuffix(controllerName, "Ctrl", "UI"), "UI", ""))) &&
      (r.warning.Some? ==> EndsWith(r.name, FixMeSuffix))
  {
    var r := UIModuleName(controllerName, taken);
    if r.warning.Some? {
      var second := ReplaceSuffix(ReplaceSuffix(controllerName, "Ctrl", "UI"), "UI", "");
      assert r.name == second + FixMeSuffix;
      assert r.name[|r.name| - |FixMeSuffix|..] == FixMeSuffix;
    }
  }

  predicate IsUpper(c: char)
  {
    'A' <= c <= 'Z'
  }

  /** `s.replace(/([A-Z])/g, '-$1')`: a `-` before every capital letter. */
  function Hyphenate(s: string): (r: string)
  {
    if s == [] then [] else (if IsUpper(s[0]) then ['-', s[0]] else [s[0]]) + Hyphenate(s[1..])
  }

  /** The directive's element tag: hyphens before capitals, then lower case. */
  function DirectiveTag(name: string): string
  {
    ToLower(Hyphenate(name))
  }

  function UpperChar(c: char): char
  {
    if 'a' <= c <= 'z' then (c as int - 32) as char else c
  }

  /** The reading back of a tag: each `-` dropped and the letter after it made a capital. */
  function Camel(tag: string): string
    decreases |tag|
  {
    if tag == [] then []
    else if tag[0] == '-' && |tag| >= 2 then [UpperChar(tag[1])] + Camel(tag[2..])
    else [tag[0]] + Camel(tag[1..])
  }

  lemma {:induction false} ToLowerConcat(a: string, b: string)
    ensures ToLower(a + b) == ToLower(a) + ToLower(b)
  {
    var l, r := ToLower(a + b), ToLower(a) + ToLower(b);
    assert |l| == |r|;
    forall k | 0 <= k < |l|
      ensures l[k] == r[k]
    {
      if k < |a| {
        assert (a + b)[k] == a[k];
        assert r[k] == ToLower(a)[k];
      } else {
        assert (a + b)[k] == b[k - |a|];
        assert r[k] == ToLower(b)[k - |a|];
      }
    }
  }

  /** A tag holds no capital letter. */
  lemma DirectiveTagLower(name: string)
    ensures forall k :: 0 <= k < |DirectiveTag(name)| ==> !IsUpper(DirectiveTag(name)[k])
  {
  }

  /** The number of capital letters in `s`. */
  function Capitals(s: string): nat
  {
    if s == [] then 0 else (if IsUpper(s[0]) then 1 else 0) + Capitals(s[1..])
  }

  /** The tag is the name lengthened by one hyphen per capital letter. */
  lemma {:induction false} HyphenateLength(s: string)
    ensures |DirectiveTag(s)| == |s| + Capitals(s)
  {
    if s != [] {
      HyphenateLength(s[1..]);
    }
  }

  /**
   * When the directive name holds no hyphen, the tag determines it: reading
   * the tag back gives the name.
   */
  lemma {:induction false} CamelOfTag(name: string)
    requires '-' !in name
    ensures Camel(DirectiveTag(name)) == name
  {
    if name != [] {
      var c := name[0];
      var head: string := if IsUpper(c) then ['-', c] else [c];
      assert Hyphenate(name) == head + Hyphenate(name[1..]);
      ToLowerConcat(head, Hyphenate(name[1..]));
      assert '-' !in name[1..] by {
        assert forall x :: x in name[1..] ==> x in name;
      }
      CamelOfTag(name[1..]);
      var tail := DirectiveTag(name[1..]);
      if IsUpper(c) {
        assert DirectiveTag(name) == ['-', LowerChar(c)] + tail;
        assert UpperChar(LowerChar(c)) == c;
        assert (['-', LowerChar(c)] + tail)[2..] == tail;
      } else {
        assert c != '-';
        assert DirectiveTag(name) == [LowerChar(c)] + tail;
        assert LowerChar(c) == c;
        assert ([c] + tail)[1..] == tail;
      }
      assert [c] + name[1..] == name;
    }
  }

  /**
   * The split of a define's full name: `fullDefine.split('.')`, the last
   * part popped as the name and the rest joined back as the namespace.
   */
  function DefineSplit(fullDefine: string): (string, string)
  {
    var parts := Split(fullDefine, '.');
    (Join(parts[..|parts| - 1], "."), parts[|parts| - 1])
  }

  lemma {:induction false} JoinSnoc(init: seq<string>, last: string, sep: string)
    requires |init| >= 1
    ensures Join(init + [last], sep) == Join(init, sep) + sep + last
    decreases |init|
  {
    if |init| == 1 {
      assert (init + [last])[1..] == [last];
    } else {
      assert (init + [last])[1..] == init[1..] + [last];
      JoinSnoc(init[1..], last, sep);
    }
  }

  /**
   * The name holds no `.`; with a `.` in the full name, the namespace, a `.`
   * and the name give it back; without one, the namespace is empty and the
   * name is the whole of it.
   */
  lemma DefineSplitSpec(fullDefine: string)
    ensures var (ns, name) := DefineSplit(fullDefine);
      '.' !in name &&
      ('.' in fullDefine ==> ns + "." + name == fullDefine) &&
      ('.' !in fullDefine ==> ns == "" && name == fullDefine)
  {
    var parts := Split(fullDefine, '.');
    JoinSplit(fullDefine, '.');
    var init := parts[..|parts| - 1];
    var last := parts[|parts| - 1];
    assert parts == init + [last];
    if |parts| == 1 {
      assert Join(parts, ".") == last;
    } else {
      JoinSnoc(init, last, ".");
    }
  }
}
