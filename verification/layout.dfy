/**
 * `getLayoutedElements`: every node is placed at the top-left corner of the
 * centre an external layout engine (dagre) gives its id, handles follow the
 * direction, and then every `groupNode` with children is wrapped around
 * them and its children's positions are made relative to it.
 *
 * The engine is a parameter `centre: string -> Point`; coordinates are
 * integers.
 */
module Layout {
  import opened Wrappers
  import opened Graph

  const NodeWidth: int := 172
  const NodeHeight: int := 64
  const Padding: int := 40
  const HeaderHeight: int := 40

  /** `targetPosition`/`sourcePosition`: left-to-right for `'LR'`, top-to-bottom for any other direction. */
  function HandlesFor(direction: string): Handles {
    if direction == "LR" then Handles(Left, Right) else Handles(Top, Bottom)
  }

  /** Everything but `position` and `style` (here `size`) is the same. */
  predicate SameButPlacement(a: Node, b: Node) {
    && a.id == b.id && a.parentId == b.parentId && a.kind == b.kind && a.data == b.data
    && a.draggable == b.draggable && a.selectable == b.selectable && a.handles == b.handles
  }

  /** Step 1: each node moved to the top-left corner of its centre, with handles set. */
  function PlaceAll(ns: seq<Node>, centre: string -> Point, direction: string): (r: seq<Node>)
    ensures |r| == |ns|
    ensures forall i :: 0 <= i < |ns| ==>
      && r[i].id == ns[i].id && r[i].parentId == ns[i].parentId && r[i].kind == ns[i].kind
      && r[i].data == ns[i].data && r[i].size == ns[i].size
      && r[i].draggable == ns[i].draggable && r[i].selectable == ns[i].selectable
    ensures forall i :: 0 <= i < |ns| ==>
      && r[i].position.x + NodeWidth / 2 == centre(ns[i].id).x
      && r[i].position.y + NodeHeight / 2 == centre(ns[i].id).y
    ensures forall i :: 0 <= i < |ns| ==>
      r[i].handles == Some(if direction == "LR" then Handles(Left, Right) else Handles(Top, Bottom))
  {
    seq(|ns|, i requires 0 <= i < |ns| =>
      var c := centre(ns[i].id);
      ns[i].(position := Point(c.x - NodeWidth / 2, c.y - NodeHeight / 2), handles := Some(HandlesFor(direction))))
  }

  /** The indices, from `from` on and in order, of the nodes whose `parentId` is `id`. */
  function ChildIndices(ns: seq<Node>, id: string, from: nat): (r: seq<nat>)
    ensures forall j :: 0 <= j < |r| ==> from <= r[j] < |ns| && ns[r[j]].parentId == Some(id)
    decreases |ns| - from
  {
    if from >= |ns| then []
    else if ns[from].parentId == Some(id) then [from] + ChildIndices(ns, id, from + 1)
    else ChildIndices(ns, id, from + 1)
  }

  /** `ChildIndices` lists every child exactly once, in increasing order. */
  lemma ChildIndicesComplete(ns: seq<Node>, id: string, from: nat)
    ensures var r := ChildIndices(ns, id, from);
      && (forall k :: from <= k < |ns| && ns[k].parentId == Some(id) ==> k in r)
      && (forall j, l :: 0 <= j < l < |r| ==> r[j] < r[l])
  {
    ChildIndicesHasAll(ns, id, from);
    ChildIndicesIncreasing(ns, id, from);
  }

  lemma {:induction false} ChildIndicesHasAll(ns: seq<Node>, id: string, from: nat)
    ensures forall k :: from <= k < |ns| && ns[k].parentId == Some(id) ==> k in ChildIndices(ns, id, from)
    decreases |ns| - from
  {
    if from < |ns| {
      ChildIndicesHasAll(ns, id, from + 1);
    }
  }

  lemma {:induction false} ChildIndicesIncreasing(ns: seq<Node>, id: string, from: nat)
    ensures forall j, l :: 0 <= j < l < |ChildIndices(ns, id, from)| ==>
      ChildIndices(ns, id, from)[j] < ChildIndices(ns, id, from)[l]
    decreases |ns| - from
  {
    if from < |ns| {
      ChildIndicesIncreasing(ns, id, from + 1);
    }
  }

  /** Child lists depend only on the `parentId`s. */
  lemma {:induction false} ChildIndicesLinks(a: seq<Node>, b: seq<Node>, id: string, from: nat)
    requires |a| == |b| && forall i :: 0 <= i < |a| ==> a[i].parentId == b[i].parentId
    ensures ChildIndices(a, id, from) == ChildIndices(b, id, from)
    decreases |a| - from
  {
    if from < |a| {
      ChildIndicesLinks(a, b, id, from + 1);
    }
  }

  /** When every child lies below `m`, the children of the whole list are those of its first `m` nodes. */
  lemma {:induction false} ChildIndicesPrefix(ns: seq<Node>, id: string, from: nat, m: nat)
    requires m <= |ns|
    requires forall k :: m <= k < |ns| ==> ns[k].parentId != Some(id)
    ensures ChildIndices(ns, id, from) == ChildIndices(ns[..m], id, from)
    decreases |ns| - from
  {
    if from < |ns| {
      ChildIndicesPrefix(ns, id, from + 1, m);
      if from < m {
        assert ns[..m][from] == ns[from];
      }
    }
  }

  /** The positions of the nodes at `idx`. */
  function PositionsAt(ns: seq<Node>, idx: seq<nat>): seq<Point>
    requires forall j :: 0 <= j < |idx| ==> idx[j] < |ns|
  {
    seq(|idx|, j requires 0 <= j < |idx| => ns[idx[j]].position)
  }

  /** The box `minX, minY, maxX, maxY` of a group's children. */
  datatype Bounds = Bounds(minX: int, minY: int, maxX: int, maxY: int)

  function Min(a: int, b: int): int {
    if a <= b then a else b
  }

  function Max(a: int, b: int): int {
    if a >= b then a else b
  }

  /**
   * The smallest box holding a `NodeWidth` by `NodeHeight` node at each of
   * `ps`: every node fits and each side touches one of them.
   */
  function Extent(ps: seq<Point>): (b: Bounds)
    requires |ps| > 0
    ensures forall j :: 0 <= j < |ps| ==>
      && b.minX <= ps[j].x && ps[j].x + NodeWidth <= b.maxX
      && b.minY <= ps[j].y && ps[j].y + NodeHeight <= b.maxY
    ensures exists j :: 0 <= j < |ps| && ps[j].x == b.minX
    ensures exists j :: 0 <= j < |ps| && ps[j].y == b.minY
    ensures exists j :: 0 <= j < |ps| && ps[j].x + NodeWidth == b.maxX
    ensures exists j :: 0 <= j < |ps| && ps[j].y + NodeHeight == b.maxY
  {
    var p := ps[|ps| - 1];
    if |ps| == 1 then Bounds(p.x, p.y, p.x + NodeWidth, p.y + NodeHeight)
    else
      var init := ps[..|ps| - 1];
      var b := Extent(init);
      assert forall j :: 0 <= j < |init| ==> ps[j] == init[j];
      Bounds(Min(b.minX, p.x), Min(b.minY, p.y), Max(b.maxX, p.x + NodeWidth), Max(b.maxY, p.y + NodeHeight))
  }

  /** `group.position`: the box's corner, less the padding and, vertically, the header. */
  function Corner(b: Bounds): Point {
    Point(b.minX - Padding, b.minY - Padding - HeaderHeight)
  }

  /** `group.style`'s width and height: the box plus padding on every side and the header on top. */
  function Frame(b: Bounds): Dim {
    Dim((b.maxX - b.minX) + Padding * 2, (b.maxY - b.minY) + Padding * 2 + HeaderHeight)
  }

  function Minus(p: Point, q: Point): Point {
    Point(p.x - q.x, p.y - q.y)
  }

  /** Inside a group of size `d`: `Padding` clear on the sides and bottom, `Padding + HeaderHeight` on top. */
  predicate Contained(p: Point, d: Dim) {
    Padding <= p.x && p.x + NodeWidth <= d.width - Padding &&
    Padding + HeaderHeight <= p.y && p.y + NodeHeight <= d.height - Padding
  }

  /** Relative to the corner, every child lies inside the frame, and the frame is as tight as the padding allows. */
  lemma ExtentFrames(ps: seq<Point>)
    requires |ps| > 0
    ensures forall j :: 0 <= j < |ps| ==> Contained(Minus(ps[j], Corner(Extent(ps))), Frame(Extent(ps)))
    ensures exists j :: 0 <= j < |ps| && Minus(ps[j], Corner(Extent(ps))).x == Padding
    ensures exists j :: 0 <= j < |ps| && Minus(ps[j], Corner(Extent(ps))).y == Padding + HeaderHeight
  {
    var b := Extent(ps);
    var jx :| 0 <= jx < |ps| && ps[jx].x == b.minX;
    assert Minus(ps[jx], Corner(b)).x == Padding;
    var jy :| 0 <= jy < |ps| && ps[jy].y == b.minY;
    assert Minus(ps[jy], Corner(b)).y == Padding + HeaderHeight;
  }

  /** The children's loop: each child at `kids` moves by the group's current position, read afresh each time. */
  function Rebase(ns: seq<Node>, g: nat, kids: seq<nat>): (r: seq<Node>)
    requires g < |ns| && forall j :: 0 <= j < |kids| ==> kids[j] < |ns|
    ensures |r| == |ns|
    decreases |kids|
  {
    if kids == [] then ns
    else
      var k := kids[0];
      Rebase(ns[k := ns[k].(position := Minus(ns[k].position, ns[g].position))], g, kids[1..])
  }

  /**
   * With distinct child indices that exclude the group itself, each child
   * moves by the group's position exactly once, and nothing else changes.
   */
  lemma {:induction false} RebaseMoves(ns: seq<Node>, g: nat, kids: seq<nat>)
    requires g < |ns| && forall j :: 0 <= j < |kids| ==> kids[j] < |ns| && kids[j] != g
    requires forall j, l :: 0 <= j < l < |kids| ==> kids[j] != kids[l]
    ensures forall i :: 0 <= i < |ns| ==>
      && SameButPlacement(Rebase(ns, g, kids)[i], ns[i])
      && Rebase(ns, g, kids)[i].size == ns[i].size
      && Rebase(ns, g, kids)[i].position == if i in kids then Minus(ns[i].position, ns[g].position) else ns[i].position
    decreases |kids|
  {
    if kids != [] {
      var k := kids[0];
      var next := ns[k := ns[k].(position := Minus(ns[k].position, ns[g].position))];
      RebaseMoves(next, g, kids[1..]);
      forall i | 0 <= i < |ns|
        ensures i in kids <==> i == k || i in kids[1..]
      {
        assert kids == [k] + kids[1..];
      }
      assert k !in kids[1..] by {
        forall l | 0 <= l < |kids[1..]|
          ensures kids[1..][l] != k
        {
          assert kids[1..][l] == kids[l + 1];
        }
      }
    }
  }

  /**
   * One turn of the groups' loop for the `groupNode` at `g`: a group without
   * children is left alone; otherwise it takes the box of its children's
   * current positions and they are made relative to it.
   */
  function ProcessGroup(ns: seq<Node>, g: nat): (r: seq<Node>)
    requires g < |ns|
    ensures |r| == |ns|
  {
    var kids := ChildIndices(ns, ns[g].id, 0);
    if kids == [] then ns
    else
      var b := Extent(PositionsAt(ns, kids));
      Rebase(ns[g := ns[g].(position := Corner(b), size := Some(Frame(b)))], g, kids)
  }

  /** One turn of the groups' loop at index `m`: only a `groupNode` is processed. */
  function Step(ns: seq<Node>, m: nat): (r: seq<Node>)
    requires m < |ns|
    ensures |r| == |ns|
  {
    if ns[m].kind == GroupNode then ProcessGroup(ns, m) else ns
  }

  /** The groups' loop from index `m` on, in array order. */
  function FinalizeFrom(ns: seq<Node>, m: nat): (r: seq<Node>)
    ensures |r| == |ns|
    decreases |ns| - m
  {
    if m >= |ns| then ns else FinalizeFrom(Step(ns, m), m + 1)
  }

  /** `finalizeNodes` */
  function Finalize(ns: seq<Node>): (r: seq<Node>)
    ensures |r| == |ns|
  {
    FinalizeFrom(ns, 0)
  }

  datatype Layouted = Layouted(nodes: seq<Node>, edges: seq<Edge>)

  /** `getLayoutedElements(nodes, edges, direction)` with the engine's centres given as `centre`. */
  function GetLayoutedElements(ns: seq<Node>, es: seq<Edge>, centre: string -> Point, direction: string): Layouted {
    Layouted(Finalize(PlaceAll(ns, centre, direction)), es)
  }

  // ---------------------------------------------------------------- what one step changes

  /** The children's loop changes positions only. */
  lemma {:induction false} RebaseKeeps(ns: seq<Node>, g: nat, kids: seq<nat>)
    requires g < |ns| && forall j :: 0 <= j < |kids| ==> kids[j] < |ns|
    ensures forall i :: 0 <= i < |ns| ==>
      SameButPlacement(Rebase(ns, g, kids)[i], ns[i]) && Rebase(ns, g, kids)[i].size == ns[i].size
    decreases |kids|
  {
    if kids != [] {
      var k := kids[0];
      RebaseKeeps(ns[k := ns[k].(position := Minus(ns[k].position, ns[g].position))], g, kids[1..]);
    }
  }

  /**
   * A group step resizes at most the group itself and changes nothing but
   * positions and sizes; a group without children is left exactly as it is.
   */
  lemma ProcessGroupKeeps(ns: seq<Node>, g: nat)
    requires g < |ns|
    ensures var r := ProcessGroup(ns, g);
      && (forall i :: 0 <= i < |ns| ==> SameButPlacement(r[i], ns[i]))
      && (forall i :: 0 <= i < |ns| && i != g ==> r[i].size == ns[i].size)
      && (ChildIndices(ns, ns[g].id, 0) == [] ==> r == ns)
  {
    var kids := ChildIndices(ns, ns[g].id, 0);
    if kids != [] {
      var b := Extent(PositionsAt(ns, kids));
      var placed := ns[g := ns[g].(position := Corner(b), size := Some(Frame(b)))];
      assert forall i :: 0 <= i < |ns| ==> SameButPlacement(placed[i], ns[i]);
      assert forall i :: 0 <= i < |ns| && i != g ==> placed[i].size == ns[i].size;
      RebaseKeeps(placed, g, kids);
    }
  }

  /** Indices that increase are distinct. */
  lemma IncreasingDistinct(kids: seq<nat>)
    requires forall j, l :: 0 <= j < l < |kids| ==> kids[j] < kids[l]
    ensures forall j, l :: 0 <= j < l < |kids| ==> kids[j] != kids[l]
  {
  }

  /**
   * A group step for a group that is not its own child: the group moves to
   * the corner of its children's box and takes its frame, each child moves
   * by that corner, and no other node moves.
   */
  lemma ProcessGroupMoves(ns: seq<Node>, g: nat)
    requires g < |ns| && ns[g].parentId != Some(ns[g].id)
    requires ChildIndices(ns, ns[g].id, 0) != []
    ensures var b := Extent(PositionsAt(ns, ChildIndices(ns, ns[g].id, 0)));
      var r := ProcessGroup(ns, g);
      && r[g].position == Corner(b) && r[g].size == Some(Frame(b))
      && forall i :: 0 <= i < |ns| && i != g ==>
           r[i].position == if ns[i].parentId == Some(ns[g].id) then Minus(ns[i].position, Corner(b)) else ns[i].position
  {
    var id := ns[g].id;
    var kids := ChildIndices(ns, id, 0);
    var b := Extent(PositionsAt(ns, kids));
    var placed := ns[g := ns[g].(position := Corner(b), size := Some(Frame(b)))];
    ChildIndicesComplete(ns, id, 0);
    IncreasingDistinct(kids);
    assert forall j :: 0 <= j < |kids| ==> kids[j] != g;
    RebaseMoves(placed, g, kids);
    var r := Rebase(placed, g, kids);
    assert r == ProcessGroup(ns, g);
    forall i | 0 <= i < |ns| && i != g
      ensures r[i].position == if ns[i].parentId == Some(id) then Minus(ns[i].position, Corner(b)) else ns[i].position
    {
      assert placed[i] == ns[i];
      assert i in kids <==> ns[i].parentId == Some(id);
    }
  }

  /** One child's place after its group's step, relative to the box of all the children. */
  lemma ChildFramed(ns: seq<Node>, g: nat, i: nat)
    requires g < |ns| && ns[g].parentId != Some(ns[g].id)
    requires i < |ns| && ns[i].parentId == Some(ns[g].id)
    ensures var kids := ChildIndices(ns, ns[g].id, 0);
      kids != [] &&
      var ps := PositionsAt(ns, kids);
      ProcessGroup(ns, g)[i].position == Minus(ns[i].position, Corner(Extent(ps))) &&
      Contained(ProcessGroup(ns, g)[i].position, Frame(Extent(ps)))
  {
    var id := ns[g].id;
    var kids := ChildIndices(ns, id, 0);
    ChildIndicesComplete(ns, id, 0);
    assert i in kids;
    var ps := PositionsAt(ns, kids);
    ProcessGroupMoves(ns, g);
    ExtentFrames(ps);
    var j :| 0 <= j < |kids| && kids[j] == i;
    assert ps[j] == ns[i].position;
  }

  /** After a step for a group that is not its own child, every child lies inside the group's frame. */
  lemma ProcessGroupFrames(ns: seq<Node>, g: nat)
    requires g < |ns| && ns[g].parentId != Some(ns[g].id)
    ensures var r := ProcessGroup(ns, g);
      forall i :: 0 <= i < |ns| && ns[i].parentId == Some(ns[g].id) ==>
        r[g].size.Some? && Contained(r[i].position, r[g].size.value)
  {
    var r := ProcessGroup(ns, g);
    forall i | 0 <= i < |ns| && ns[i].parentId == Some(ns[g].id)
      ensures r[g].size.Some? && Contained(r[i].position, r[g].size.value)
    {
      ChildFramed(ns, g, i);
      ProcessGroupMoves(ns, g);
    }
  }

  /** The frame is tight: some child sits exactly at the left padding, and some exactly below the header. */
  lemma ProcessGroupTight(ns: seq<Node>, g: nat)
    requires g < |ns| && ns[g].parentId != Some(ns[g].id)
    requires ChildIndices(ns, ns[g].id, 0) != []
    ensures var r := ProcessGroup(ns, g);
      && (exists i :: 0 <= i < |ns| && ns[i].parentId == Some(ns[g].id) && r[i].position.x == Padding)
      && (exists i :: 0 <= i < |ns| && ns[i].parentId == Some(ns[g].id) && r[i].position.y == Padding + HeaderHeight)
  {
    var kids := ChildIndices(ns, ns[g].id, 0);
    var ps := PositionsAt(ns, kids);
    ExtentFrames(ps);
    var jx :| 0 <= jx < |ps| && Minus(ps[jx], Corner(Extent(ps))).x == Padding;
    ChildFramed(ns, g, kids[jx]);
    var jy :| 0 <= jy < |ps| && Minus(ps[jy], Corner(Extent(ps))).y == Padding + HeaderHeight;
    ChildFramed(ns, g, kids[jy]);
  }

  /**
   * `r` differs from `ns` only in positions and sizes, and the only nodes
   * resized are `groupNode`s with children at index `m` or later.
   */
  predicate Keeps(ns: seq<Node>, r: seq<Node>, m: nat) {
    && |r| == |ns|
    && (forall i :: 0 <= i < |ns| ==> SameButPlacement(r[i], ns[i]))
    && (forall i :: 0 <= i < |ns| && (i < m || ns[i].kind != GroupNode || ChildIndices(ns, ns[i].id, 0) == []) ==>
          r[i].size == ns[i].size)
  }

  /** One step keeps everything but placement and resizes at most node `m`. */
  lemma StepKeeps(ns: seq<Node>, m: nat)
    requires m < |ns|
    ensures Keeps(ns, Step(ns, m), m)
  {
    if ns[m].kind == GroupNode {
      ProcessGroupKeeps(ns, m);
    }
  }

  /** Nodes that differ only in placement have the same children. */
  lemma PlacementKeepsChildren(a: seq<Node>, b: seq<Node>)
    requires |a| == |b| && forall i :: 0 <= i < |a| ==> SameButPlacement(a[i], b[i])
    ensures forall i :: 0 <= i < |a| ==> ChildIndices(a, a[i].id, 0) == ChildIndices(b, b[i].id, 0)
  {
    forall i | 0 <= i < |a|
      ensures ChildIndices(a, a[i].id, 0) == ChildIndices(b, b[i].id, 0)
    {
      ChildIndicesLinks(a, b, b[i].id, 0);
    }
  }

  lemma KeepsCompose(ns: seq<Node>, next: seq<Node>, r: seq<Node>, m: nat)
    requires Keeps(ns, next, m) && Keeps(next, r, m + 1)
    requires forall i :: 0 <= i < |ns| ==> ChildIndices(next, next[i].id, 0) == ChildIndices(ns, ns[i].id, 0)
    ensures Keeps(ns, r, m)
  {
  }

  /**
   * The groups' loop from `m` on changes nothing but positions and sizes,
   * and never resizes a node before `m` or one that is not a `groupNode`
   * with children.
   */
  lemma {:induction false} FinalizeFromKeeps(ns: seq<Node>, m: nat)
    ensures Keeps(ns, FinalizeFrom(ns, m), m)
    decreases |ns| - m
  {
    if m < |ns| {
      var next := Step(ns, m);
      StepKeeps(ns, m);
      PlacementKeepsChildren(next, ns);
      FinalizeFromKeeps(next, m + 1);
      KeepsCompose(ns, next, FinalizeFrom(next, m + 1), m);
    }
  }

  /** Only `groupNode`s with children are ever resized; `sectionNode`s and `tokenNode`s never are. */
  lemma FinalizeResizesOnlyGroups(ns: seq<Node>)
    ensures forall i :: 0 <= i < |ns| ==> SameButPlacement(Finalize(ns)[i], ns[i])
    ensures forall i :: 0 <= i < |ns| && (ns[i].kind != GroupNode || ChildIndices(ns, ns[i].id, 0) == []) ==>
      Finalize(ns)[i].size == ns[i].size
  {
    FinalizeFromKeeps(ns, 0);
  }

  // ---------------------------------------------------------------- the whole loop against a reference

  /** The children of node `i` that come before it in the list. */
  function EarlierChildren(ns: seq<Node>, i: nat): (r: seq<nat>)
    requires i < |ns|
    ensures forall j :: 0 <= j < |r| ==> r[j] < i && ns[r[j]].parentId == Some(ns[i].id)
  {
    var r := ChildIndices(ns[..i], ns[i].id, 0);
    assert forall j :: 0 <= j < |r| ==> ns[..i][r[j]] == ns[r[j]];
    r
  }

  /** A `groupNode` with children before it: the nodes the loop wraps when ids are unique and children come first. */
  predicate Wraps(ns: seq<Node>, i: nat)
    requires i < |ns|
  {
    ns[i].kind == GroupNode && EarlierChildren(ns, i) != []
  }

  /** The box of a wrapping group's children, each at its place in the page's frame. */
  function ChildBox(ns: seq<Node>, i: nat): Bounds
    requires i < |ns| && Wraps(ns, i)
    decreases i, 0
  {
    var kids := EarlierChildren(ns, i);
    Extent(seq(|kids|, j requires 0 <= j < |kids| => Absolute(ns, kids[j])))
  }

  /**
   * Reference placement: where node `i` sits in the page's frame once its
   * group is wrapped around its children's absolute places; any other node
   * stays where it was placed.
   */
  function Absolute(ns: seq<Node>, i: nat): Point
    requires i < |ns|
    decreases i, 1
  {
    if Wraps(ns, i) then Corner(ChildBox(ns, i)) else ns[i].position
  }

  /** Reference size: the frame of a wrapping group's children; any other node keeps its size. */
  function AbsoluteSize(ns: seq<Node>, i: nat): Option<Dim>
    requires i < |ns|
  {
    if Wraps(ns, i) then Some(Frame(ChildBox(ns, i))) else ns[i].size
  }

  /** The `groupNode` that is the first node carrying node `i`'s `parentId`, if that node is a `groupNode`. */
  function GroupParent(ns: seq<Node>, i: nat): (r: Option<nat>)
    requires i < |ns|
    ensures r.Some? ==> r.value < |ns| && ns[r.value].kind == GroupNode && ns[i].parentId == Some(ns[r.value].id)
  {
    if ns[i].parentId.None? then None
    else match FirstIdFrom(ns, ns[i].parentId.value, 0)
      case None => None
      case Some(p) => if ns[p].kind == GroupNode then Some(p) else None
  }

  /** With unique ids, a child of a `groupNode` has that node as its `GroupParent`. */
  lemma GroupParentOfChild(ns: seq<Node>, i: nat, g: nat)
    requires DistinctIds(ns) && i < |ns| && g < |ns|
    requires ns[g].kind == GroupNode && ns[i].parentId == Some(ns[g].id)
    ensures GroupParent(ns, i) == Some(g)
  {
    var q := FirstIdFrom(ns, ns[g].id, 0);
    assert q.Some? && q.value <= g;
    assert ns[q.value].id == ns[g].id;
  }

  /** The offset of node `i` once the groups before `m` are done: its group's absolute place, if that is done. */
  function Offset(ns: seq<Node>, i: nat, m: nat): Point
    requires i < |ns|
  {
    var p := GroupParent(ns, i);
    if p.Some? && p.value < m then Absolute(ns, p.value) else Point(0, 0)
  }

  /**
   * The state of the groups' loop over `ns0` before index `m`: nodes before
   * `m` are at their absolute place and size, later ones as placed, and each
   * is relative to its group once that group is done.
   */
  predicate Reached(ns0: seq<Node>, cur: seq<Node>, m: nat) {
    && |cur| == |ns0| && m <= |ns0|
    && (forall i {:trigger cur[i]} :: 0 <= i < |ns0| ==> SameButPlacement(cur[i], ns0[i]))
    && (forall i {:trigger cur[i]} :: 0 <= i < |ns0| ==> cur[i].size == if i < m then AbsoluteSize(ns0, i) else ns0[i].size)
    && (forall i {:trigger cur[i]} :: 0 <= i < |ns0| ==>
          cur[i].position == Minus(if i < m then Absolute(ns0, i) else ns0[i].position, Offset(ns0, i, m)))
  }

  /** In the loop, the group at `m` finds exactly its earlier children. */
  lemma StepChildren(ns0: seq<Node>, cur: seq<Node>, m: nat)
    requires Reached(ns0, cur, m) && m < |ns0| && ChildrenFirst(ns0)
    ensures ChildIndices(cur, cur[m].id, 0) == EarlierChildren(ns0, m)
  {
    ChildIndicesLinks(cur, ns0, ns0[m].id, 0);
    ChildIndicesPrefix(ns0, ns0[m].id, 0, m);
  }

  /** A node that is not wrapped is nobody's `GroupParent`. */
  lemma NotWrappedNoChildren(ns0: seq<Node>, m: nat, i: nat)
    requires m < |ns0| && i < |ns0| && ChildrenFirst(ns0) && !Wraps(ns0, m)
    ensures GroupParent(ns0, i) != Some(m)
  {
    if ns0[i].parentId == Some(ns0[m].id) {
      ChildIndicesComplete(ns0[..m], ns0[m].id, 0);
      assert ns0[..m][i] == ns0[i];
      assert i in EarlierChildren(ns0, m);
    }
  }

  /** Before the step for `m`, its children sit at their absolute places. */
  lemma StepBox(ns0: seq<Node>, cur: seq<Node>, m: nat)
    requires Reached(ns0, cur, m) && m < |ns0| && DistinctIds(ns0) && ChildrenFirst(ns0) && Wraps(ns0, m)
    ensures ChildIndices(cur, cur[m].id, 0) != []
    ensures Extent(PositionsAt(cur, ChildIndices(cur, cur[m].id, 0))) == ChildBox(ns0, m)
  {
    StepChildren(ns0, cur, m);
    var kids := EarlierChildren(ns0, m);
    forall j | 0 <= j < |kids|
      ensures cur[kids[j]].position == Absolute(ns0, kids[j])
    {
      GroupParentOfChild(ns0, kids[j], m);
    }
    assert PositionsAt(cur, kids) == seq(|kids|, j requires 0 <= j < |kids| => Absolute(ns0, kids[j]));
  }

  /** Offsets change at step `m` only for the children of the node at `m`. */
  lemma OffsetUnchanged(ns0: seq<Node>, i: nat, m: nat)
    requires i < |ns0| && GroupParent(ns0, i) != Some(m)
    ensures Offset(ns0, i, m + 1) == Offset(ns0, i, m)
  {
  }

  /** A node at or after `m` has no offset yet, even after step `m`. */
  lemma OffsetLater(ns0: seq<Node>, i: nat, m: nat)
    requires i < |ns0| && m <= i && ChildrenFirst(ns0)
    ensures Offset(ns0, i, m + 1) == Point(0, 0)
  {
    var p := GroupParent(ns0, i);
    assert p.Some? ==> i < p.value;
  }

  /** A child of the group at `m` takes that group's absolute place as its offset at step `m`. */
  lemma OffsetAtParent(ns0: seq<Node>, i: nat, m: nat)
    requires i < |ns0| && GroupParent(ns0, i) == Some(m)
    ensures Offset(ns0, i, m) == Point(0, 0)
    ensures Offset(ns0, i, m + 1) == Absolute(ns0, m)
  {
  }

  /** The loop step for a wrapping group, at the group itself. */
  lemma StepWrapsGroup(ns0: seq<Node>, cur: seq<Node>, m: nat)
    requires Reached(ns0, cur, m) && m < |ns0| && DistinctIds(ns0) && ChildrenFirst(ns0) && Wraps(ns0, m)
    ensures ProcessGroup(cur, m)[m].size == AbsoluteSize(ns0, m)
    ensures ProcessGroup(cur, m)[m].position == Minus(Absolute(ns0, m), Offset(ns0, m, m + 1))
  {
    StepBox(ns0, cur, m);
    ProcessGroupMoves(cur, m);
    OffsetLater(ns0, m, m);
  }

  /** The loop step for a wrapping group, at one of its children. */
  lemma StepWrapsChild(ns0: seq<Node>, cur: seq<Node>, m: nat, i: nat)
    requires Reached(ns0, cur, m) && m < |ns0| && DistinctIds(ns0) && ChildrenFirst(ns0) && Wraps(ns0, m)
    requires i < |ns0| && ns0[i].parentId == Some(ns0[m].id)
    ensures ProcessGroup(cur, m)[i].size == AbsoluteSize(ns0, i)
    ensures ProcessGroup(cur, m)[i].position == Minus(Absolute(ns0, i), Offset(ns0, i, m + 1))
  {
    GroupParentOfChild(ns0, i, m);
    assert i < m;
    ProcessGroupKeeps(cur, m);
    StepMovesChild(ns0, cur, m, i);
  }

  /** The child's move: from its absolute place (its group not yet done) to that place relative to its group's. */
  lemma StepMovesChild(ns0: seq<Node>, cur: seq<Node>, m: nat, i: nat)
    requires Reached(ns0, cur, m) && m < |ns0| && DistinctIds(ns0) && ChildrenFirst(ns0) && Wraps(ns0, m)
    requires i < m && GroupParent(ns0, i) == Some(m) && ns0[i].parentId == Some(ns0[m].id)
    ensures ProcessGroup(cur, m)[i].position == Minus(Absolute(ns0, i), Offset(ns0, i, m + 1))
  {
    OffsetAtParent(ns0, i, m);
    assert cur[i].position == Absolute(ns0, i);
    StepBox(ns0, cur, m);
    ProcessGroupMoves(cur, m);
  }

  /** The loop step for a wrapping group, at a node that is neither the group nor its child. */
  lemma StepWrapsOther(ns0: seq<Node>, cur: seq<Node>, m: nat, i: nat)
    requires Reached(ns0, cur, m) && m < |ns0| && ChildrenFirst(ns0) && Wraps(ns0, m)
    requires i < |ns0| && i != m && ns0[i].parentId != Some(ns0[m].id)
    ensures ProcessGroup(cur, m)[i].size == if i < m + 1 then AbsoluteSize(ns0, i) else ns0[i].size
    ensures ProcessGroup(cur, m)[i].position ==
      Minus(if i < m + 1 then Absolute(ns0, i) else ns0[i].position, Offset(ns0, i, m + 1))
  {
    StepChildren(ns0, cur, m);
    assert ns0[m].parentId != Some(ns0[m].id);
    ProcessGroupMoves(cur, m);
    ProcessGroupKeeps(cur, m);
    OffsetUnchanged(ns0, i, m);
  }

  /** The loop step for a wrapping group, at node `i`. */
  lemma StepWrapsAt(ns0: seq<Node>, cur: seq<Node>, m: nat, i: nat)
    requires Reached(ns0, cur, m) && m < |ns0| && DistinctIds(ns0) && ChildrenFirst(ns0) && Wraps(ns0, m)
    requires i < |ns0|
    ensures ProcessGroup(cur, m)[i].size == if i < m + 1 then AbsoluteSize(ns0, i) else ns0[i].size
    ensures ProcessGroup(cur, m)[i].position ==
      Minus(if i < m + 1 then Absolute(ns0, i) else ns0[i].position, Offset(ns0, i, m + 1))
  {
    if i == m {
      StepWrapsGroup(ns0, cur, m);
    } else if ns0[i].parentId == Some(ns0[m].id) {
      StepWrapsChild(ns0, cur, m, i);
      assert i < m;
    } else {
      StepWrapsOther(ns0, cur, m, i);
    }
  }

  /** The loop step for a wrapping group. */
  lemma StepWraps(ns0: seq<Node>, cur: seq<Node>, m: nat)
    requires Reached(ns0, cur, m) && m < |ns0| && DistinctIds(ns0) && ChildrenFirst(ns0) && Wraps(ns0, m)
    ensures Reached(ns0, ProcessGroup(cur, m), m + 1)
  {
    ProcessGroupKeeps(cur, m);
    forall i | 0 <= i < |ns0|
      ensures ProcessGroup(cur, m)[i].size == if i < m + 1 then AbsoluteSize(ns0, i) else ns0[i].size
      ensures ProcessGroup(cur, m)[i].position ==
        Minus(if i < m + 1 then Absolute(ns0, i) else ns0[i].position, Offset(ns0, i, m + 1))
    {
      StepWrapsAt(ns0, cur, m, i);
    }
  }

  /** A node that is not wrapped is left as it is by its step. */
  lemma StepSkipsSame(ns0: seq<Node>, cur: seq<Node>, m: nat)
    requires Reached(ns0, cur, m) && m < |ns0| && ChildrenFirst(ns0) && !Wraps(ns0, m)
    ensures Step(cur, m) == cur
  {
    if cur[m].kind == GroupNode {
      StepChildren(ns0, cur, m);
      ProcessGroupKeeps(cur, m);
    }
  }

  /** The loop step for any other node, at node `i`. */
  lemma StepSkipsAt(ns0: seq<Node>, cur: seq<Node>, m: nat, i: nat)
    requires Reached(ns0, cur, m) && m < |ns0| && ChildrenFirst(ns0) && !Wraps(ns0, m)
    requires i < |ns0|
    ensures cur[i].size == if i < m + 1 then AbsoluteSize(ns0, i) else ns0[i].size
    ensures cur[i].position == Minus(if i < m + 1 then Absolute(ns0, i) else ns0[i].position, Offset(ns0, i, m + 1))
  {
    NotWrappedNoChildren(ns0, m, i);
    OffsetUnchanged(ns0, i, m);
    if i == m {
      assert AbsoluteSize(ns0, m) == ns0[m].size;
      assert Absolute(ns0, m) == ns0[m].position;
    }
  }

  /** The loop step for any other node. */
  lemma StepSkips(ns0: seq<Node>, cur: seq<Node>, m: nat)
    requires Reached(ns0, cur, m) && m < |ns0| && ChildrenFirst(ns0) && !Wraps(ns0, m)
    ensures Reached(ns0, cur, m + 1)
  {
    forall i | 0 <= i < |ns0|
      ensures cur[i].size == if i < m + 1 then AbsoluteSize(ns0, i) else ns0[i].size
      ensures cur[i].position == Minus(if i < m + 1 then Absolute(ns0, i) else ns0[i].position, Offset(ns0, i, m + 1))
    {
      StepSkipsAt(ns0, cur, m, i);
    }
  }

  /** Each turn of the loop moves the state from before `m` to before `m + 1`. */
  lemma StepReached(ns0: seq<Node>, cur: seq<Node>, m: nat)
    requires Reached(ns0, cur, m) && m < |ns0| && DistinctIds(ns0) && ChildrenFirst(ns0)
    ensures Reached(ns0, Step(cur, m), m + 1)
  {
    if Wraps(ns0, m) {
      assert cur[m].kind == GroupNode;
      StepWraps(ns0, cur, m);
    } else {
      StepSkipsSame(ns0, cur, m);
      StepSkips(ns0, cur, m);
    }
  }

  /** A property of the loop state that every turn carries from before `k` to before `k + 1` holds after the loop. */
  lemma {:induction false} FinalizeFromInvariant(inv: (seq<Node>, nat) -> bool, cur: seq<Node>, m: nat)
    requires m <= |cur| && inv(cur, m)
    requires forall c: seq<Node>, k: nat :: k < |c| && inv(c, k) ==> inv(Step(c, k), k + 1)
    ensures inv(FinalizeFrom(cur, m), |cur|)
    decreases |cur| - m
  {
    if m < |cur| {
      FinalizeFromInvariant(inv, Step(cur, m), m + 1);
    }
  }

  /**
   * When ids are unique and children come before their parents, the loop
   * gives every wrapping group its reference size and place, and every node
   * its reference place made relative to its `groupNode` parent, if any:
   * each group's box comes from absolute child places and each node is
   * moved into its parent's frame exactly once.
   */
  lemma FinalizeMatchesReference(ns: seq<Node>)
    requires DistinctIds(ns) && ChildrenFirst(ns)
    ensures forall i :: 0 <= i < |ns| ==> Finalize(ns)[i].size == AbsoluteSize(ns, i)
    ensures forall i :: 0 <= i < |ns| ==>
      Finalize(ns)[i].position ==
        if GroupParent(ns, i).Some? then Minus(Absolute(ns, i), Absolute(ns, GroupParent(ns, i).value))
        else Absolute(ns, i)
  {
    var inv := (c: seq<Node>, k: nat) => Reached(ns, c, k);
    forall c: seq<Node>, k: nat | k < |c| && inv(c, k)
      ensures inv(Step(c, k), k + 1)
    {
      StepReached(ns, c, k);
    }
    assert inv(ns, 0);
    FinalizeFromInvariant(inv, ns, 0);
    assert Reached(ns, Finalize(ns), |ns|);
  }

  /**
   * When ids are unique and children come before their parents, every child
   * of a `groupNode` ends inside its parent's final frame.
   */
  lemma FinalizeFramesChildren(ns: seq<Node>)
    requires DistinctIds(ns) && ChildrenFirst(ns)
    ensures forall i :: 0 <= i < |ns| && GroupParent(ns, i).Some? ==>
      && Finalize(ns)[GroupParent(ns, i).value].size.Some?
      && Contained(Finalize(ns)[i].position, Finalize(ns)[GroupParent(ns, i).value].size.value)
  {
    FinalizeMatchesReference(ns);
    forall i | 0 <= i < |ns| && GroupParent(ns, i).Some?
      ensures Finalize(ns)[GroupParent(ns, i).value].size.Some?
      ensures Contained(Finalize(ns)[i].position, Finalize(ns)[GroupParent(ns, i).value].size.value)
    {
      var p := GroupParent(ns, i).value;
      assert i < p;
      var kids := EarlierChildren(ns, p);
      ChildIndicesComplete(ns[..p], ns[p].id, 0);
      assert ns[..p][i] == ns[i];
      assert i in kids;
      var ps := seq(|kids|, j requires 0 <= j < |kids| => Absolute(ns, kids[j]));
      ExtentFrames(ps);
      var j :| 0 <= j < |kids| && kids[j] == i;
      assert ps[j] == Absolute(ns, i);
    }
  }

  // ---------------------------------------------------------------- getLayoutedElements

  /** Same ids, parents and types position by position. */
  predicate SameLinks(a: seq<Node>, b: seq<Node>) {
    |a| == |b| && forall i :: 0 <= i < |a| ==> a[i].id == b[i].id && a[i].parentId == b[i].parentId && a[i].kind == b[i].kind
  }

  lemma {:induction false} FirstIdLinks(a: seq<Node>, b: seq<Node>, id: string, from: nat)
    requires SameLinks(a, b)
    ensures FirstIdFrom(a, id, from) == FirstIdFrom(b, id, from)
    decreases |a| - from
  {
    if from < |a| {
      FirstIdLinks(a, b, id, from + 1);
    }
  }

  /** Which nodes wrap and which group each node belongs to depend only on ids, parents and types. */
  lemma StructureLinks(a: seq<Node>, b: seq<Node>, i: nat)
    requires SameLinks(a, b) && i < |a|
    ensures Wraps(a, i) == Wraps(b, i)
    ensures GroupParent(a, i) == GroupParent(b, i)
  {
    ChildIndicesLinks(a[..i], b[..i], a[i].id, 0);
    if a[i].parentId.Some? {
      FirstIdLinks(a, b, a[i].parentId.value, 0);
    }
  }

  /**
   * The layout returns the edges unchanged and the nodes in the same order
   * with the same ids, parents, types and data, every one carrying the
   * direction's handles.
   */
  lemma LayoutKeepsNodes(ns: seq<Node>, es: seq<Edge>, centre: string -> Point, direction: string)
    ensures var out := GetLayoutedElements(ns, es, centre, direction);
      && out.edges == es && |out.nodes| == |ns|
      && forall i :: 0 <= i < |ns| ==>
           && out.nodes[i].id == ns[i].id && out.nodes[i].parentId == ns[i].parentId
           && out.nodes[i].kind == ns[i].kind && out.nodes[i].data == ns[i].data
           && out.nodes[i].handles == Some(if direction == "LR" then Handles(Left, Right) else Handles(Top, Bottom))
  {
    FinalizeResizesOnlyGroups(PlaceAll(ns, centre, direction));
  }

  /**
   * With unique ids and children before parents, a node that neither wraps
   * children nor belongs to a `groupNode` ends at the top-left corner of its
   * centre, i.e. 86 left and 32 above it.
   */
  lemma LayoutPlacesLooseNodes(ns: seq<Node>, es: seq<Edge>, centre: string -> Point, direction: string)
    requires DistinctIds(ns) && ChildrenFirst(ns)
    ensures var out := GetLayoutedElements(ns, es, centre, direction);
      forall i :: 0 <= i < |ns| && !Wraps(ns, i) && GroupParent(ns, i).None? ==>
        out.nodes[i].position == Point(centre(ns[i].id).x - 86, centre(ns[i].id).y - 32)
  {
    var placed := PlaceAll(ns, centre, direction);
    assert SameLinks(placed, ns);
    assert DistinctIds(placed);
    assert ChildrenFirst(placed);
    FinalizeMatchesReference(placed);
    forall i | 0 <= i < |ns| && !Wraps(ns, i) && GroupParent(ns, i).None?
      ensures Finalize(placed)[i].position == Point(centre(ns[i].id).x - 86, centre(ns[i].id).y - 32)
    {
      StructureLinks(placed, ns, i);
    }
  }
}
