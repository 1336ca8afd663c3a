/**
 * `src/utils/es6.js`: adding the exports of a converted module, either as a
 * default `exports = X` or as shorthand properties merged into an
 * `exports = {...}` object.
 */
module Es6 {
  import opened Wrappers
  import opened Ast
  import opened Goog
  import opened Seqs

  /** The `keys` argument: one name (a default export) or a list of names. */
  datatype ExportKeys = Single(name: string) | Names(names: seq<string>)

  /** `{key}`: the shorthand property `key: key`. */
  function Shorthand(key: string): Node
  {
    Property(Identifier(key), Identifier(key), true)
  }

  /** The properties built for a key list, in key order. */
  function ShorthandProperties(keys: seq<string>): (r: seq<Node>)
    ensures |r| == |keys|
    ensures forall i :: 0 <= i < |keys| ==> r[i] == Shorthand(keys[i])
  {
    seq(|keys|, i requires 0 <= i < |keys| => Shorthand(keys[i]))
  }

  /** The statement `exports = value;` */
  function ExportsStatement(value: Node): Node
  {
    ExpressionStatement(AssignmentExpression(Identifier("exports"), value), [])
  }

  /** A statement assigning an object literal to `exports`. */
  predicate IsExportsObject(s: Node)
  {
    s.ExpressionStatement? && s.expression.AssignmentExpression? &&
    s.expression.left == Identifier("exports") && s.expression.right.ObjectExpression?
  }

  /** The `exports = {...}` statement with `props` appended to its object. */
  function WithMoreProperties(s: Node, props: seq<Node>): (r: Node)
    requires IsExportsObject(s)
    ensures IsExportsObject(r)
    ensures r.expression.right.properties == s.expression.right.properties + props
  {
    var obj := s.expression.right;
    ExpressionStatement(AssignmentExpression(s.expression.left, ObjectExpression(obj.properties + props)), s.comments)
  }

  /** The program body after `addExports(root, program, keys)`. */
  function WithExports(body: seq<Node>, keys: ExportKeys): seq<Node>
  {
    match keys
    case Single(k) => body + [ExportsStatement(Identifier(k))]
    case Names(ks) =>
      var existing := FirstIndex(body, IsExportsObject);
      if existing.Some? then body[existing.value := WithMoreProperties(body[existing.value], ShorthandProperties(ks))]
      else body + [ExportsStatement(ObjectExpression(ShorthandProperties(ks)))]
  }

  /**
   * `addExports(root, program, keys)`: a string appends `exports = key`; a
   * list extends the first `exports = {...}` with shorthand properties, or
   * appends a new one when there is none.
   */
  method AddExports(p: Program, keys: ExportKeys)
    modifies p
    ensures p.body == WithExports(old(p.body), keys)
  {
    if keys.Single? {
      p.body := p.body + [ExportsStatement(Identifier(keys.name))];
    } else {
      var properties := ShorthandProperties(keys.names);
      var existing := FirstIndex(p.body, IsExportsObject);
      if existing.Some? {
        var i := existing.value;
        p.body := p.body[i := WithMoreProperties(p.body[i], properties)];
      } else {
        p.body := p.body + [ExportsStatement(ObjectExpression(properties))];
      }
    }
  }

  /** The names of a list of properties whose keys are identifiers. */
  function KeyNames(props: seq<Node>): (r: seq<string>)
    ensures |r| <= |props|
  {
    if props == [] then []
    else (if props[0].Property? && props[0].key.Identifier? then [props[0].key.name] else []) + KeyNames(props[1..])
  }

  /** The names the file's first `exports = {...}` exports (none without one). */
  function ExportedNames(body: seq<Node>): seq<string>
  {
    var existing := FirstIndex(body, IsExportsObject);
    if existing.Some? then KeyNames(body[existing.value].expression.right.properties) else []
  }

  lemma {:induction false} KeyNamesConcat(a: seq<Node>, b: seq<Node>)
    ensures KeyNames(a + b) == KeyNames(a) + KeyNames(b)
  {
    if a == [] {
      ConcatEmpty(b);
    } else {
      ConcatHead(a, b);
      KeyNamesConcat(a[1..], b);
    }
  }

  lemma {:induction false} KeyNamesOfShorthands(keys: seq<string>)
    ensures KeyNames(ShorthandProperties(keys)) == keys
  {
    if keys != [] {
      var props := ShorthandProperties(keys);
      assert props[1..] == ShorthandProperties(keys[1..]);
      KeyNamesOfShorthands(keys[1..]);
      assert keys == [keys[0]] + keys[1..];
    }
  }

  /** An appended statement does not change which statement comes first among the earlier ones. */
  lemma FirstIndexAppend(body: seq<Node>, s: Node, P: Node -> bool)
    requires FirstIndex(body, P).None? && P(s)
    ensures FirstIndex(body + [s], P) == Some(|body|)
  {
    var t := body + [s];
    assert t[|body|] == s;
    forall j | 0 <= j < |body|
      ensures !P(t[j])
    {
      assert t[j] == body[j];
    }
    FirstIndexUnique(t, P, |body|);
  }

  /**
   * A key list is exported after whatever the first exports object already
   * exported, in key order, without removing duplicates.
   */
  lemma NamesAppended(body: seq<Node>, keys: seq<string>)
    ensures ExportedNames(WithExports(body, Names(keys))) == ExportedNames(body) + keys
  {
    var r := WithExports(body, Names(keys));
    var props := ShorthandProperties(keys);
    KeyNamesOfShorthands(keys);
    var existing := FirstIndex(body, IsExportsObject);
    if existing.Some? {
      var i := existing.value;
      var s := WithMoreProperties(body[i], props);
      assert r == body[i := s];
      assert FirstIndex(r, IsExportsObject) == Some(i) by {
        assert r[i] == s;
      }
      KeyNamesConcat(body[i].expression.right.properties, props);
    } else {
      var s := ExportsStatement(ObjectExpression(props));
      FirstIndexAppend(body, s, IsExportsObject);
      assert KeyNames([]) == [];
    }
  }

  /**
   * Every form only adds: a single name or a new object appends exactly one
   * statement and keeps the others, and merging into an existing object
   * changes that one statement and nothing else.
   */
  lemma OnlyAdds(body: seq<Node>, keys: ExportKeys)
    ensures keys.Single? ==> WithExports(body, keys) == body + [ExportsStatement(Identifier(keys.name))]
    ensures keys.Names? && FirstIndex(body, IsExportsObject).None? ==>
      WithExports(body, keys) == body + [ExportsStatement(ObjectExpression(ShorthandProperties(keys.names)))]
    ensures keys.Names? && FirstIndex(body, IsExportsObject).Some? ==>
      |WithExports(body, keys)| == |body| &&
      forall j :: 0 <= j < |body| && j != FirstIndex(body, IsExportsObject).value ==> WithExports(body, keys)[j] == body[j]
  {
  }
}
