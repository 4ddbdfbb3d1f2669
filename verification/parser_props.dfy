/** What `parseTokens` guarantees about the nodes and edges it emits. */
module ParserProperties {
  import opened Wrappers
  import opened Strings
  import opened Json
  import opened Graph
  import opened TokenParser

  /** The number of `tokenNode`s in a node list. */
  function CountTokens(ns: seq<Node>): nat {
    if ns == [] then 0 else (if ns[0].kind == TokenNode then 1 else 0) + CountTokens(ns[1..])
  }

  lemma {:induction false} CountTokensConcat(a: seq<Node>, b: seq<Node>)
    ensures CountTokens(a + b) == CountTokens(a) + CountTokens(b)
    decreases |a|
  {
    if a != [] {
      assert (a + b)[1..] == a[1..] + b;
      CountTokensConcat(a[1..], b);
    } else {
      assert a + b == b;
    }
  }

  /** The alias edge a node stands for: one per token whose value is a `{...}` string. */
  function AliasEdgeOf(n: Node): seq<Edge> {
    if n.kind == TokenNode && n.data.TokenData? && AliasTarget(n.data.token.value).Some? then
      var source := AliasTarget(n.data.token.value).value;
      [Edge("e-" + source + "-" + n.id, source, n.id, true)]
    else []
  }

  /** The alias edges of a node list, in node order. */
  function AliasEdges(ns: seq<Node>): seq<Edge> {
    if ns == [] then [] else AliasEdgeOf(ns[0]) + AliasEdges(ns[1..])
  }

  lemma {:induction false} AliasEdgesConcat(a: seq<Node>, b: seq<Node>)
    ensures AliasEdges(a + b) == AliasEdges(a) + AliasEdges(b)
    decreases |a|
  {
    if a != [] {
      assert (a + b)[1..] == a[1..] + b;
      AliasEdgesConcat(a[1..], b);
    } else {
      assert a + b == b;
    }
  }

  /** The count invariant of a walk, and its edges are exactly the alias edges of its nodes. */
  predicate Counted(w: Walk) {
    && w.count == |w.tokens| == CountTokens(w.nodes)
    && w.edges == AliasEdges(w.nodes)
  }

  lemma ThenCounted(a: Walk, b: Walk)
    requires Counted(a) && Counted(b)
    ensures Counted(Then(a, b))
  {
    CountTokensConcat(a.nodes, b.nodes);
    AliasEdgesConcat(a.nodes, b.nodes);
  }

  /**
   * Count invariant, per turn of the loop: the walk of one member counts its
   * token nodes, lists one token per token node and one edge per alias.
   */
  lemma {:induction false} EntryCounted(m: Member, path: seq<string>, cat: Category)
    ensures Counted(EntryWalk(m, path, cat))
    decreases Size(m.value), 0
  {
    if IsMetaKey(m.key) {
    } else if IsTokenObject(m.value) {
      var w := LeafWalk(m.key, m.value.fields, path, cat);
      assert w.nodes[1..] == [];
    } else if IsGroupValue(m.value) {
      EntriesSmaller(m.value);
      var next := NextCategory(cat, m.key);
      TraverseCounted(ForInEntries(m.value), path + [m.key], next);
      var sub := TraverseEntries(ForInEntries(m.value), path + [m.key], next);
      var g := ContainerNode(m.key, path, next, sub);
      assert [g][1..] == [];
      CountTokensConcat(sub.nodes, [g]);
      AliasEdgesConcat(sub.nodes, [g]);
    }
  }

  /**
   * Count invariant: `traverse` returns as `count` the number of token nodes
   * it emitted, one `tokens` entry per token node, and exactly one edge per
   * token whose value is a string wrapped in braces, in the order of the
   * tokens.
   */
  lemma {:induction false} TraverseCounted(es: Fields, path: seq<string>, cat: Category)
    ensures Counted(TraverseEntries(es, path, cat))
    decreases FieldsSize(es), 1
  {
    if es != [] {
      EntryCounted(es[0], path, cat);
      TraverseCounted(es[1..], path, cat);
      ThenCounted(EntryWalk(es[0], path, cat), TraverseEntries(es[1..], path, cat));
    }
  }

  /** `parseTokens` emits exactly one edge per alias token, in token order, and nothing else. */
  lemma ParseEdgesAreAliases(doc: Json)
    ensures ParseTokens(doc).edges == AliasEdges(ParseTokens(doc).nodes)
  {
    TraverseCounted(ForInEntries(doc), [], Primitive);
  }

  /**
   * What every emitted node looks like: its label is not a `$` key, its id is
   * its parent's id and its label joined by `.` (just its label at top
   * level), `fullPath` is its id, a `tokenNode` has token data, a
   * `sectionNode` is exactly a container without parent, only containers
   * carry `draggable == selectable == (it is a groupNode)`, a container's
   * count is the length of its token list, and nothing is laid out yet.
   */
  predicate NodeShape(n: Node) {
    && !IsMetaKey(n.data.Label())
    && n.id == ChildId(n.parentId, n.data.Label())
    && n.data.FullPath() == n.id
    && (n.kind == TokenNode <==> n.data.TokenData?)
    && (n.kind == SectionNode <==> n.data.GroupData? && n.parentId.None?)
    && (n.data.TokenData? ==> n.draggable.None? && n.selectable.None? && n.data.badge == Badge(n.data.category))
    && (n.data.GroupData? ==> n.draggable == n.selectable == Some(n.kind == GroupNode))
    && (n.data.GroupData? ==> n.data.tokenCount == |n.data.tokens|)
    && n.position == Point(0, 0) && n.handles.None? && n.size.None?
  }

  /**
   * The nodes emitted below the object at a non-empty `path` have ids
   * extending `path.join('.') + '.'`, and their parent is that object or a
   * node below it.
   */
  predicate Under(n: Node, path: seq<string>) {
    path == [] ||
      (&& StartsWith(n.id, Join(path) + ".")
       && n.parentId.Some?
       && (n.parentId.value == Join(path) || StartsWith(n.parentId.value, Join(path) + ".")))
  }

  predicate Shaped(w: Walk, path: seq<string>) {
    forall n :: n in w.nodes ==> NodeShape(n) && Under(n, path)
  }

  /** The node for member `key` of the object at `path` lies under `path`. */
  lemma ChildUnder(path: seq<string>, key: string)
    ensures Join(path + [key]) == ChildId(PathId(path), key)
    ensures path != [] ==> StartsWith(Join(path + [key]), Join(path) + ".")
  {
    JoinSnoc(path, key);
    if path != [] {
      StartsWithSelf(Join(path) + ".", key);
    }
  }

  /** Whatever lies under `path + [key]` lies under `path`, and its parent is not the object at `path`. */
  lemma UnderParent(n: Node, path: seq<string>, key: string)
    requires Under(n, path + [key])
    ensures Under(n, path)
    ensures n.parentId != PathId(path)
  {
    JoinSnoc(path, key);
    ChildUnder(path, key);
    if path != [] {
      assert Join(path + [key]) + "." == (Join(path) + ".") + (key + ".");
      StartsWithConcat(n.id, Join(path) + ".", key + ".");
      var p := n.parentId.value;
      if p != Join(path + [key]) {
        StartsWithConcat(p, Join(path) + ".", key + ".");
        assert |p| > |Join(path + [key])|;
      }
    }
  }

  /** A node under a non-empty `path` is not the object at `path`. */
  lemma UnderIdDiffers(n: Node, path: seq<string>)
    requires path != [] && Under(n, path)
    ensures n.id != Join(path)
  {
  }

  lemma LeafShaped(key: string, fs: Fields, path: seq<string>, cat: Category)
    requires !IsMetaKey(key)
    ensures Shaped(LeafWalk(key, fs, path, cat), path)
  {
    ChildUnder(path, key);
    var n := LeafNode(key, fs, path, cat);
    assert NodeShape(n);
    assert Under(n, path);
  }

  lemma GroupShaped(key: string, path: seq<string>, cat: Category, sub: Walk)
    requires !IsMetaKey(key)
    requires Shaped(sub, path + [key]) && sub.count == |sub.tokens|
    ensures Shaped(GroupWalk(key, path, cat, sub), path)
  {
    ChildUnder(path, key);
    var g := ContainerNode(key, path, cat, sub);
    assert NodeShape(g);
    assert Under(g, path);
    forall n | n in sub.nodes
      ensures Under(n, path)
    {
      UnderParent(n, path, key);
    }
  }

  lemma {:induction false} EntryShaped(m: Member, path: seq<string>, cat: Category)
    ensures Shaped(EntryWalk(m, path, cat), path)
    decreases Size(m.value), 0
  {
    if IsMetaKey(m.key) {
    } else if IsTokenObject(m.value) {
      LeafShaped(m.key, m.value.fields, path, cat);
    } else if IsGroupValue(m.value) {
      EntriesSmaller(m.value);
      var next := NextCategory(cat, m.key);
      TraverseShaped(ForInEntries(m.value), path + [m.key], next);
      TraverseCounted(ForInEntries(m.value), path + [m.key], next);
      GroupShaped(m.key, path, next, TraverseEntries(ForInEntries(m.value), path + [m.key], next));
    }
  }

  /** Every node `traverse` emits below `path` has the shape of `NodeShape` and lies under `path`. */
  lemma {:induction false} TraverseShaped(es: Fields, path: seq<string>, cat: Category)
    ensures Shaped(TraverseEntries(es, path, cat), path)
    decreases FieldsSize(es), 1
  {
    if es != [] {
      EntryShaped(es[0], path, cat);
      TraverseShaped(es[1..], path, cat);
    }
  }

  /**
   * No node of the parse comes from a `$` key; each id is the parent's id
   * and the label joined by `.`, and `parentId` is missing exactly at top
   * level where the id is the label itself.
   */
  lemma ParsedNodesShaped(doc: Json)
    ensures forall n :: n in ParseTokens(doc).nodes ==> NodeShape(n)
  {
    TraverseShaped(ForInEntries(doc), [], Primitive);
  }

  /**
   * A name containing a component word makes its group a component even
   * when it also contains a decision word; a decision word alone makes a
   * decision; any other name inherits, and case does not matter.
   */
  lemma NextCategoryPrecedence(cat: Category, key: string)
    ensures ContainsAny(Lower(key), ["component", "theme", "semantic"]) ==> NextCategory(cat, key) == Component
    ensures !ContainsAny(Lower(key), ["component", "theme", "semantic"]) && ContainsAny(Lower(key), ["brand", "decision", "global"])
      ==> NextCategory(cat, key) == Decision
    ensures !ContainsAny(Lower(key), ["component", "theme", "semantic", "brand", "decision", "global"])
      ==> NextCategory(cat, key) == cat
  {
    var lower := Lower(key);
    if !ContainsAny(lower, ["component", "theme", "semantic", "brand", "decision", "global"]) {
      var all := ["component", "theme", "semantic", "brand", "decision", "global"];
      forall i | 0 <= i < 3
        ensures !Contains(lower, ["brand", "decision", "global"][i])
      {
        assert ["brand", "decision", "global"][i] == all[i + 3];
      }
      forall i | 0 <= i < 3
        ensures !Contains(lower, ["component", "theme", "semantic"][i])
      {
        assert ["component", "theme", "semantic"][i] == all[i];
      }
    }
  }

  // ---------------------------------------------------------------- one member

  /** `undefined` or `null`: what `??` skips. */
  predicate Nullish(v: Option<Json>) {
    v.None? || v.value == JNull
  }

  /**
   * A token object is one `tokenNode` and is not looked into: its value is
   * `$value`, or `value` when `$value` is nullish, kept as is when it is a
   * string, number or boolean and stored as JSON text when it is an object,
   * array or `null`; its type is `$type`, else `type`, else `color` for a
   * string value starting with `#` and `other` for anything else; it takes
   * the enclosing category, and it adds its alias edge, if any.
   */
  lemma TokenObjectIsLeaf(m: Member, path: seq<string>, cat: Category)
    requires !IsMetaKey(m.key) && IsTokenObject(m.value)
    ensures var w := EntryWalk(m, path, cat);
      var fs := m.value.fields;
      var raw := if !Nullish(Get(fs, "$value")) then Get(fs, "$value") else Get(fs, "value");
      && w.count == 1 && |w.tokens| == 1 && |w.nodes| == 1
      && var n := w.nodes[0];
      && n.kind == TokenNode && n.data.TokenData?
      && n.id == Join(path + [m.key]) && n.parentId == PathId(path)
      && n.data.category == cat && w.tokens[0] == n.data.token
      && (raw.Some? && raw.value.JStr? ==> n.data.token.value == Str(raw.value.s))
      && (raw.Some? && (raw.value.JObj? || raw.value.JArr? || raw.value.JNull?) ==> n.data.token.value == JsonText(raw.value))
      && (raw.Some? && raw.value.JNum? ==> n.data.token.value == Num(raw.value.n))
      && (raw.Some? && raw.value.JBool? ==> n.data.token.value == Bool(raw.value.b))
      && (raw.None? ==> n.data.token.value == Undefined)
      && w.edges == AliasEdgeOf(n)
      && (!Nullish(Get(fs, "$type")) ==> n.data.token.tokenType == Get(fs, "$type").value)
      && (Nullish(Get(fs, "$type")) && !Nullish(Get(fs, "type")) ==> n.data.token.tokenType == Get(fs, "type").value)
      && (Nullish(Get(fs, "$type")) && Nullish(Get(fs, "type")) ==>
            n.data.token.tokenType == if raw.Some? && raw.value.JStr? && StartsWith(raw.value.s, "#") then JStr("color") else JStr("other"))
  {
  }

  /** Bare strings, numbers, booleans and `null` produce no node, token or edge. */
  lemma ScalarsEmitNothing(m: Member, path: seq<string>, cat: Category)
    requires m.value.JStr? || m.value.JNum? || m.value.JBool? || m.value.JNull?
    ensures EntryWalk(m, path, cat) == NoWalk
  {
  }

  /** A `$` key is skipped with everything below it, token object or not. */
  lemma MetaKeysEmitNothing(m: Member, path: seq<string>, cat: Category)
    requires IsMetaKey(m.key)
    ensures EntryWalk(m, path, cat) == NoWalk
  {
  }
}
