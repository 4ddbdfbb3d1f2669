/**
 * `parseTokens`: a depth-first walk over a token document that emits one
 * node per token object and per nested object (containers after their
 * contents), one edge per alias, and aggregates token counts bottom-up.
 */
module TokenParser {
  import opened Wrappers
  import opened Strings
  import opened Json
  import opened Graph

  /** Keys starting with `$` are metadata and skipped at every depth. */
  predicate IsMetaKey(key: string) {
    StartsWith(key, "$")
  }

  /** An object carrying `$value` or `value` is a token: `'$value' in v || 'value' in v`. */
  predicate IsTokenObject(v: Json) {
    v.JObj? && ("$value" in Keys(v.fields) || "value" in Keys(v.fields))
  }

  /** Any other object or array (`typeof v === 'object' && v !== null`) is a group. */
  predicate IsGroupValue(v: Json) {
    (v.JObj? || v.JArr?) && !IsTokenObject(v)
  }

  /** `a ?? b` on possibly missing members: `a` unless it is missing or `null`. */
  function Coalesce(a: Option<Json>, b: Option<Json>): (r: Option<Json>)
    ensures a.Some? && a.value != JNull ==> r == a
    ensures (a.None? || a.value == JNull) ==> r == b
  {
    if a.Some? && a.value != JNull then a else b
  }

  /** `value.$value ?? value.value` (missing when both are, or `$value` is nullish and `value` missing). */
  function RawValue(fs: Fields): Option<Json> {
    Coalesce(Get(fs, "$value"), Get(fs, "value"))
  }

  /** `value.$type ?? value.type ?? (string starting with '#' ? 'color' : 'other')`. */
  function TokenTypeOf(fs: Fields, raw: Option<Json>): Json {
    var inferred := if raw.Some? && raw.value.JStr? && StartsWith(raw.value.s, "#") then JStr("color") else JStr("other");
    Coalesce(Coalesce(Get(fs, "$type"), Get(fs, "type")), Some(inferred)).value
  }

  /** The stored value: objects, arrays and `null` (`typeof 'object'`) become their JSON text. */
  function StoredValue(raw: Option<Json>): TokenValue {
    match raw
    case None => Undefined
    case Some(JStr(s)) => Str(s)
    case Some(JNum(n)) => Num(n)
    case Some(JBool(b)) => Bool(b)
    case Some(j) => JsonText(j)
  }

  /**
   * The referenced path of an alias: a string value that starts with `{`
   * and ends with `}`, without its braces.  Only raw strings are stored as
   * `Str`, so this is the source's `typeof tokenValue === 'string'` test.
   */
  function AliasTarget(v: TokenValue): (r: Option<string>)
    ensures r.Some? <==> v.Str? && StartsWith(v.s, "{") && EndsWith(v.s, "}")
    ensures r.Some? ==> v.s == "{" + r.value + "}"
  {
    if v.Str? && StartsWith(v.s, "{") && EndsWith(v.s, "}") then
      var s := v.s;
      assert |s| >= 2 by {
        assert s[0] == s[..1][0] == '{';
        assert s[|s| - 1] == s[|s| - 1..][0] == '}';
      }
      assert s == "{" + s[1..|s| - 1] + "}" by {
        assert s[0] == s[..1][0];
        assert s[|s| - 1] == s[|s| - 1..][0];
      }
      Some(s[1..|s| - 1])
    else None
  }

  /** The id under which the children of the object at `path` are emitted (`parentId`). */
  function PathId(path: seq<string>): Option<string> {
    if path == [] then None else Some(Join(path))
  }

  /** The id of a child named `key` of the node `parent` (or at top level). */
  function ChildId(parent: Option<string>, key: string): string {
    if parent.None? then key else parent.value + "." + key
  }

  /** The `badge` of a token: `'Options'` for primitives, `'Decisions'` otherwise. */
  function Badge(cat: Category): string {
    if cat == Primitive then "Options" else "Decisions"
  }

  predicate ContainsAny(s: string, words: seq<string>) {
    exists i :: 0 <= i < |words| && Contains(s, words[i])
  }

  /**
   * The category of a group named `key` inside a `cat` group: `decision` if
   * its lowercased name contains brand/decision/global, then `component` if
   * it contains component/theme/semantic, otherwise inherited.
   */
  function NextCategory(cat: Category, key: string): Category {
    var lower := Lower(key);
    var afterDecision := if ContainsAny(lower, ["brand", "decision", "global"]) then Decision else cat;
    if ContainsAny(lower, ["component", "theme", "semantic"]) then Component else afterDecision
  }

  /** What one call of `traverse` returns together with the nodes and edges it pushed, in order. */
  datatype Walk = Walk(count: nat, tokens: seq<TokenSummary>, nodes: seq<Node>, edges: seq<Edge>)

  const NoWalk := Walk(0, [], [], [])

  /** The walk of one entry followed by the walk of the next ones. */
  function Then(a: Walk, b: Walk): Walk {
    Walk(a.count + b.count, a.tokens + b.tokens, a.nodes + b.nodes, a.edges + b.edges)
  }

  /** The `tokenNode` of a token object named `key` under `path`. */
  function LeafNode(key: string, fs: Fields, path: seq<string>, cat: Category): Node {
    var raw := RawValue(fs);
    var id := Join(path + [key]);
    var token := TokenSummary(key, StoredValue(raw), TokenTypeOf(fs, raw), id);
    Node(id, PathId(path), TokenNode, TokenData(token, cat, Badge(cat)), Point(0, 0), None, None, None, None)
  }

  /** The walk of a token object: one node, one token, and its alias edge if it has one. */
  function LeafWalk(key: string, fs: Fields, path: seq<string>, cat: Category): Walk {
    var n := LeafNode(key, fs, path, cat);
    var alias := AliasTarget(n.data.token.value);
    var edges := if alias.Some? then [Edge("e-" + alias.value + "-" + n.id, alias.value, n.id, true)] else [];
    Walk(1, [n.data.token], [n], edges)
  }

  /** The `sectionNode` (top level) or `groupNode` of a group named `key` under `path`. */
  function ContainerNode(key: string, path: seq<string>, cat: Category, sub: Walk): Node {
    var id := Join(path + [key]);
    var nested := path != [];
    Node(id, PathId(path), if nested then GroupNode else SectionNode,
         GroupData(key, cat, sub.count, sub.tokens, id), Point(0, 0),
         Some(nested), Some(nested), None, None)
  }

  /** A group's walk: its contents' walk followed by its own container node. */
  function GroupWalk(key: string, path: seq<string>, cat: Category, sub: Walk): Walk {
    Walk(sub.count, sub.tokens, sub.nodes + [ContainerNode(key, path, cat, sub)], sub.edges)
  }

  /**
   * One turn of `traverse`'s loop: a `$` key is skipped, a token object
   * becomes a leaf, any other object or array is traversed and then becomes
   * a container; strings, numbers, booleans and `null` produce nothing.
   */
  function EntryWalk(m: Member, path: seq<string>, cat: Category): Walk
    decreases Size(m.value), 0
  {
    if IsMetaKey(m.key) then NoWalk
    else if IsTokenObject(m.value) then LeafWalk(m.key, m.value.fields, path, cat)
    else if IsGroupValue(m.value) then
      EntriesSmaller(m.value);
      var next := NextCategory(cat, m.key);
      GroupWalk(m.key, path, next, TraverseEntries(ForInEntries(m.value), path + [m.key], next))
    else NoWalk
  }

  /**
   * `traverse` over the members `es` of the object at `path` whose category
   * is `cat` (the source's `parentId` is `PathId(path)` and `depth` is `|path|`).
   */
  function TraverseEntries(es: Fields, path: seq<string>, cat: Category): Walk
    decreases FieldsSize(es), 1
  {
    if es == [] then NoWalk
    else Then(EntryWalk(es[0], path, cat), TraverseEntries(es[1..], path, cat))
  }

  /** The parser's result. */
  datatype Parsed = Parsed(nodes: seq<Node>, edges: seq<Edge>)

  /** `parseTokens(doc)`: `traverse(doc)` at top level with category `primitive`. */
  function ParseTokens(doc: Json): Parsed {
    var w := TraverseEntries(ForInEntries(doc), [], Primitive);
    Parsed(w.nodes, w.edges)
  }
}
