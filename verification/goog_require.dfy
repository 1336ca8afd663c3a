/**
 * `src/utils/googrequire.js`: the older require helper. Its `add` has no
 * working duplicate check and assumes the file already has a require.
 */
module GoogRequire {
  import opened Wrappers
  import opened Ast
  import opened Sorting
  import opened Goog

  /**
   * The duplicate test of `add` compares the argument node with the name
   * string; a node is never strictly equal to a string, so no existing
   * require ever counts as a duplicate.
   */
  predicate ArgumentIsName(s: Node, toAdd: string)
  {
    false
  }

  /**
   * `add(root, toAdd)`: `goog.require('toAdd');` goes right after the
   * statement of the first require and the requires are sorted. With no
   * require in the file, reading `.parent` of the missing first path throws
   * and nothing changes.
   */
  method Add(p: Program, toAdd: string) returns (r: Outcome)
    modifies p
    requires NamedRequires(p.body)
    ensures NamedRequires(p.body)
    ensures FirstIndex(old(p.body), IsRequireStatement).None? ==> r.Fail? && p.body == old(p.body)
    ensures FirstIndex(old(p.body), IsRequireStatement).Some? ==>
      r.Pass? &&
      var inserted := InsertAfter(old(p.body), FirstIndex(old(p.body), IsRequireStatement).value, RequireStatement(toAdd));
      p.body == WithRequireNames(inserted, SortStrings(RequireNames(inserted))) &&
      multiset(RequireNames(p.body)) == multiset(RequireNames(old(p.body))) + multiset{toAdd} &&
      SortedBy(RequireNames(p.body), (x: string) => x)
  {
    var duplicate := exists i :: 0 <= i < |p.body| && IsRequireStatement(p.body[i]) && ArgumentIsName(p.body[i], toAdd);
    if !duplicate {
      var first := FirstIndex(p.body, IsRequireStatement);
      if first.None? {
        return Fail("Cannot read properties of undefined (reading 'parent')");
      }
      InsertedNames(p.body, first.value, RequireStatement(toAdd));
      InsertedWellNamed(p.body, first.value, toAdd);
      p.body := InsertAfter(p.body, first.value, RequireStatement(toAdd));
      Sort(p);
    }
    return Pass;
  }

  /** `sort(root)`: the same renaming as `sortRequires` of `src/utils/goog.js`. */
  method Sort(p: Program)
    modifies p
    requires NamedRequires(p.body)
    ensures NamedRequires(p.body)
    ensures p.body == WithRequireNames(old(p.body), SortStrings(RequireNames(old(p.body))))
    ensures SortedBy(RequireNames(p.body), (x: string) => x)
    ensures multiset(RequireNames(p.body)) == multiset(RequireNames(old(p.body)))
  {
    SortRequires(p);
  }

  /** Unlike `addRequire`, adding a name that is already required adds it again. */
  lemma AddDuplicates(before: seq<Node>, after: seq<Node>, toAdd: string)
    requires toAdd in RequireNames(before)
    requires multiset(RequireNames(after)) == multiset(RequireNames(before)) + multiset{toAdd}
    ensures multiset(RequireNames(after))[toAdd] >= 2
  {
  }
}
