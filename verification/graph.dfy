/** The node and edge records the viewer passes between parsing, layout and rendering. */
module Graph {
  import opened Wrappers
  import opened Json

  /** The heuristic role of a token, derived from the names of its enclosing groups. */
  datatype Category = Primitive | Decision | Component

  /** The React Flow node type: `'tokenNode'`, `'groupNode'` or `'sectionNode'`. */
  datatype NodeKind = TokenNode | GroupNode | SectionNode

  /**
   * A leaf's displayed value: `undefined`, a string, number or boolean taken
   * as it is, or the `JSON.stringify` text of an object, array or `null`
   * (kept symbolic as the value it renders).
   */
  datatype TokenValue = Undefined | Str(s: string) | Num(n: real) | Bool(b: bool) | JsonText(doc: Json) {

    /** JavaScript truthiness; the JSON text of a value is never empty. */
    predicate Truthy() {
      match this
      case Undefined => false
      case Str(s) => s != ""
      case Num(n) => n != 0.0
      case Bool(b) => b
      case JsonText(_) => true
    }
  }

  /** The `tokenObj` record of a leaf: `label` (here `name`), displayed value, type and dotted path. */
  datatype TokenSummary = TokenSummary(name: string, value: TokenValue, tokenType: Json, fullPath: string)

  /** A node's `data`: a leaf's token fields, or a container's `label` (here `name`), count and flattened tokens. */
  datatype NodeData =
    | TokenData(token: TokenSummary, category: Category, badge: string)
    | GroupData(name: string, category: Category, tokenCount: nat, tokens: seq<TokenSummary>, fullPath: string)
  {
    /** `data.label` */
    function Label(): string {
      if TokenData? then token.name else name
    }

    function FullPath(): string {
      if TokenData? then token.fullPath else fullPath
    }

    /** `data.type`: only leaves carry a type. */
    function TokenType(): Option<Json> {
      if TokenData? then Some(token.tokenType) else None
    }

    /** `data.value`: only leaves carry a value. */
    function Value(): TokenValue {
      if TokenData? then token.value else Undefined
    }
  }

  datatype Point = Point(x: int, y: int)

  /** The side of a node an edge handle sits on. */
  datatype Side = Left | Right | Top | Bottom

  /** `targetPosition` and `sourcePosition` of a laid-out node. */
  datatype Handles = Handles(target: Side, source: Side)

  /** `style.width` and `style.height` of a resized group. */
  datatype Dim = Dim(width: int, height: int)

  /**
   * A React Flow node.  `draggable`/`selectable` are only set on containers,
   * `handles` and `size` only by the layout.
   */
  datatype Node = Node(
    id: string,
    parentId: Option<string>,
    kind: NodeKind,
    data: NodeData,
    position: Point,
    draggable: Option<bool>,
    selectable: Option<bool>,
    handles: Option<Handles>,
    size: Option<Dim>)

  /** A React Flow edge. */
  datatype Edge = Edge(id: string, source: string, target: string, animated: bool)

  /** The id of the first node at or after index `from` whose id is `id`. */
  function FirstIdFrom(ns: seq<Node>, id: string, from: nat): (r: Option<nat>)
    ensures r.Some? ==> from <= r.value < |ns| && ns[r.value].id == id
    ensures r.Some? ==> forall k :: from <= k < r.value ==> ns[k].id != id
    ensures r.None? ==> forall k :: from <= k < |ns| ==> ns[k].id != id
    decreases |ns| - from
  {
    if from >= |ns| then None
    else if ns[from].id == id then Some(from)
    else FirstIdFrom(ns, id, from + 1)
  }

  /** `nodes.find(n => n.id === id)`. */
  function Find(ns: seq<Node>, id: string): (r: Option<Node>)
    ensures r.Some? ==> r.value in ns && r.value.id == id
    ensures r.None? ==> forall k :: 0 <= k < |ns| ==> ns[k].id != id
  {
    match FirstIdFrom(ns, id, 0)
    case None => None
    case Some(k) => Some(ns[k])
  }

  /** No two nodes share an id. */
  predicate DistinctIds(ns: seq<Node>) {
    forall i, j :: 0 <= i < j < |ns| ==> ns[i].id != ns[j].id
  }

  /** Every node whose `parentId` names a node of the list comes before that node. */
  predicate ChildrenFirst(ns: seq<Node>) {
    forall c, p :: 0 <= c < |ns| && 0 <= p < |ns| && ns[c].parentId == Some(ns[p].id) ==> c < p
  }
}
