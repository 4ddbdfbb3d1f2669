/**
 * The view projection of the viewer: which laid-out nodes are shown (no
 * collapsed ancestor), how each shown node is decorated (dimmed when it
 * fails the search or the type filter), which edges survive, and the set
 * toggles and reset that change the view state.
 */
module View {
  import opened Wrappers
  import opened Strings
  import opened Json
  import opened Graph

  /** `searchTerm`, `activeFilters`, `collapsedGroupIds` and `expandedNodeIds`. */
  datatype ViewState = ViewState(search: string, filters: set<string>, collapsed: set<string>, expanded: set<string>)

  // ---------------------------------------------------------------- toggles and reset

  /** Adds `x` when absent and removes it when present. */
  function Toggle(s: set<string>, x: string): (r: set<string>)
    ensures r == (s - {x}) + ({x} - s)
    ensures x in r <==> x !in s
  {
    if x in s then s - {x} else s + {x}
  }

  /** Toggling the same id twice restores the set. */
  lemma ToggleTwice(s: set<string>, x: string)
    ensures Toggle(Toggle(s, x), x) == s
  {
  }

  /** `toggleGroupCollapse(groupId)`: only the collapsed set changes. */
  function ToggleGroupCollapse(st: ViewState, groupId: string): (r: ViewState)
    ensures r.search == st.search && r.filters == st.filters && r.expanded == st.expanded
    ensures r.collapsed == Toggle(st.collapsed, groupId)
  {
    st.(collapsed := Toggle(st.collapsed, groupId))
  }

  /** `toggleNodeExpansion(nodeId)`: only the expanded set changes. */
  function ToggleNodeExpansion(st: ViewState, nodeId: string): (r: ViewState)
    ensures r.search == st.search && r.filters == st.filters && r.collapsed == st.collapsed
    ensures r.expanded == Toggle(st.expanded, nodeId)
  {
    st.(expanded := Toggle(st.expanded, nodeId))
  }

  /** `toggleFilter(type)`: only the filter set changes. */
  function ToggleFilter(st: ViewState, t: string): (r: ViewState)
    ensures r.search == st.search && r.collapsed == st.collapsed && r.expanded == st.expanded
    ensures r.filters == Toggle(st.filters, t)
  {
    st.(filters := Toggle(st.filters, t))
  }

  /** `handleResetAll`: clears the search and the filters, keeps collapse and expansion. */
  function ResetAll(st: ViewState): (r: ViewState)
    ensures r.search == "" && r.filters == {}
    ensures r.collapsed == st.collapsed && r.expanded == st.expanded
  {
    st.(search := "", filters := {})
  }

  /** `a` is `b` with some elements left out: what `Array.prototype.filter` returns. */
  predicate SubList<T(==)>(a: seq<T>, b: seq<T>)
    decreases |b|
  {
    if b == [] then a == []
    else (a != [] && a[0] == b[0] && SubList(a[1..], b[1..])) || SubList(a, b[1..])
  }

  // ---------------------------------------------------------------- hiding below collapsed groups

  /**
   * The `parentId` walk of `isAncestorCollapsed` from the id `cur`: it stops
   * with `false` at a missing or empty id or at an id no node carries, and
   * with `true` at the first collapsed id, resolved or not.  The source
   * walks without bound; `fuel` caps the number of ids looked at.
   */
  function AncestorWalk(ns: seq<Node>, collapsed: set<string>, cur: Option<string>, fuel: nat): bool
    decreases fuel
  {
    if fuel == 0 || cur.None? || cur.value == "" then false
    else if cur.value in collapsed then true
    else match Find(ns, cur.value)
      case None => false
      case Some(p) => AncestorWalk(ns, collapsed, p.parentId, fuel - 1)
  }

  /** `isAncestorCollapsed(node)` over the node list `ns`, the walk starting at the node's parent. */
  function AncestorCollapsed(ns: seq<Node>, collapsed: set<string>, n: Node): bool {
    AncestorWalk(ns, collapsed, n.parentId, |ns|)
  }

  /**
   * The ids the walk visits from node `k` when nothing is collapsed: the
   * parent's id, then that node's parent's id, and so on, ending at a
   * missing or empty id or with the first id no node carries.  When
   * children come before their parents every resolved parent lies further
   * down the list, which is why the chain is finite.
   */
  function AncestorIds(ns: seq<Node>, k: nat): seq<string>
    requires ChildrenFirst(ns) && k < |ns|
    decreases |ns| - k
  {
    match ns[k].parentId
    case None => []
    case Some(pid) =>
      if pid == "" then []
      else match FirstIdFrom(ns, pid, 0)
        case None => [pid]
        case Some(p) =>
          assert ns[k].parentId == Some(ns[p].id);
          [pid] + AncestorIds(ns, p)
  }

  /** Some id of `ids` is in `s`. */
  predicate AnyIn(ids: seq<string>, s: set<string>) {
    exists j :: 0 <= j < |ids| && ids[j] in s
  }

  lemma AnyInCons(x: string, ids: seq<string>, s: set<string>)
    ensures AnyIn([x] + ids, s) <==> x in s || AnyIn(ids, s)
  {
    if x in s {
      assert ([x] + ids)[0] == x;
    }
    if AnyIn(ids, s) {
      var j :| 0 <= j < |ids| && ids[j] in s;
      assert ([x] + ids)[j + 1] == ids[j];
    }
    if AnyIn([x] + ids, s) && x !in s {
      var j :| 0 <= j < |[x] + ids| && ([x] + ids)[j] in s;
      assert j > 0 && ids[j - 1] == ([x] + ids)[j];
    }
  }

  /** With enough fuel the walk from node `k` answers whether an id of its ancestor chain is collapsed. */
  lemma {:induction false} AncestorWalkChain(ns: seq<Node>, collapsed: set<string>, k: nat, fuel: nat)
    requires ChildrenFirst(ns) && k < |ns| && fuel >= |ns| - k
    ensures AncestorWalk(ns, collapsed, ns[k].parentId, fuel) <==> AnyIn(AncestorIds(ns, k), collapsed)
    decreases |ns| - k
  {
    var cur := ns[k].parentId;
    if cur.Some? && cur.value != "" {
      var pid := cur.value;
      match FirstIdFrom(ns, pid, 0)
      case None =>
        assert AncestorIds(ns, k) == [pid] + [];
        AnyInCons(pid, [], collapsed);
      case Some(p) =>
        assert ns[k].parentId == Some(ns[p].id);
        assert k < p;
        AncestorWalkChain(ns, collapsed, p, fuel - 1);
        AnyInCons(pid, AncestorIds(ns, p), collapsed);
    }
  }

  /**
   * When children come before their parents, a node is hidden exactly when
   * some id on its `parentId` chain (starting at the parent, not the node
   * itself) is collapsed; the fuel never cuts the walk short.
   */
  lemma HiddenIffCollapsedAncestor(ns: seq<Node>, collapsed: set<string>, k: nat)
    requires ChildrenFirst(ns) && k < |ns|
    ensures AncestorCollapsed(ns, collapsed, ns[k]) <==> AnyIn(AncestorIds(ns, k), collapsed)
  {
    AncestorWalkChain(ns, collapsed, k, |ns|);
  }

  /** A walk that meets an id of `c` also meets an id of every larger set, whatever the list. */
  lemma {:induction false} WalkMonotone(ns: seq<Node>, c: set<string>, d: set<string>, cur: Option<string>, fuel: nat)
    requires c <= d
    ensures AncestorWalk(ns, c, cur, fuel) ==> AncestorWalk(ns, d, cur, fuel)
    decreases fuel
  {
    if fuel > 0 && cur.Some? && cur.value != "" && cur.value !in d {
      match Find(ns, cur.value)
      case None =>
      case Some(p) => WalkMonotone(ns, c, d, p.parentId, fuel - 1);
    }
  }

  /** A walk meets an id of `c + d` exactly when it meets one of `c` or one of `d`, whatever the list. */
  lemma {:induction false} WalkUnion(ns: seq<Node>, c: set<string>, d: set<string>, cur: Option<string>, fuel: nat)
    ensures AncestorWalk(ns, c + d, cur, fuel) <==> AncestorWalk(ns, c, cur, fuel) || AncestorWalk(ns, d, cur, fuel)
    decreases fuel
  {
    if fuel > 0 && cur.Some? && cur.value != "" && cur.value !in c + d {
      match Find(ns, cur.value)
      case None =>
      case Some(p) => WalkUnion(ns, c, d, p.parentId, fuel - 1);
    }
  }

  /** Collapsing more groups hides at least as much, in any node list. */
  lemma CollapseMonotone(ns: seq<Node>, c: set<string>, d: set<string>, k: nat)
    requires k < |ns| && c <= d
    ensures AncestorCollapsed(ns, c, ns[k]) ==> AncestorCollapsed(ns, d, ns[k])
  {
    WalkMonotone(ns, c, d, ns[k].parentId, |ns|);
  }

  /** Collapsing the union of two sets hides what either one hides, and nothing more, in any node list. */
  lemma CollapseUnion(ns: seq<Node>, c: set<string>, d: set<string>, k: nat)
    requires k < |ns|
    ensures AncestorCollapsed(ns, c + d, ns[k]) <==> AncestorCollapsed(ns, c, ns[k]) || AncestorCollapsed(ns, d, ns[k])
  {
    WalkUnion(ns, c, d, ns[k].parentId, |ns|);
  }

  /** Without collapsed groups no walk answers `true`, whatever the list. */
  lemma {:induction false} NothingCollapsedWalk(ns: seq<Node>, cur: Option<string>, fuel: nat)
    ensures !AncestorWalk(ns, {}, cur, fuel)
    decreases fuel
  {
    if fuel > 0 && cur.Some? && cur.value != "" {
      match Find(ns, cur.value)
      case None =>
      case Some(p) => NothingCollapsedWalk(ns, p.parentId, fuel - 1);
    }
  }

  /** A node whose non-empty parent id is collapsed is hidden, whether or not that id resolves. */
  lemma CollapsedParentHides(ns: seq<Node>, collapsed: set<string>, k: nat)
    requires k < |ns| && ns[k].parentId.Some? && ns[k].parentId.value != ""
    requires ns[k].parentId.value in collapsed
    ensures AncestorCollapsed(ns, collapsed, ns[k])
  {
  }

  /** `nodes.filter(node => !isAncestorCollapsed(node))` over the part `part` of the list `ns`. */
  function Unhidden(ns: seq<Node>, collapsed: set<string>, part: seq<Node>): (r: seq<Node>)
    ensures SubList(r, part)
    ensures forall n :: n in r <==> n in part && !AncestorCollapsed(ns, collapsed, n)
    decreases |part|
  {
    if part == [] then []
    else
      var rest := Unhidden(ns, collapsed, part[1..]);
      assert forall n :: n in part <==> n == part[0] || n in part[1..];
      if AncestorCollapsed(ns, collapsed, part[0]) then rest
      else
        assert ([part[0]] + rest)[1..] == rest;
        [part[0]] + rest
  }

  /** Filtering distributes over concatenation, so the shown nodes keep their relative order. */
  lemma {:induction false} UnhiddenConcat(ns: seq<Node>, collapsed: set<string>, a: seq<Node>, b: seq<Node>)
    ensures Unhidden(ns, collapsed, a + b) == Unhidden(ns, collapsed, a) + Unhidden(ns, collapsed, b)
    decreases |a|
  {
    if a == [] {
      assert a + b == b;
    } else {
      assert (a + b)[0] == a[0];
      assert (a + b)[1..] == a[1..] + b;
      UnhiddenConcat(ns, collapsed, a[1..], b);
    }
  }

  /** With nothing collapsed every node is shown, in its place. */
  lemma {:induction false} NothingCollapsedShowsAll(ns: seq<Node>, part: seq<Node>)
    ensures Unhidden(ns, {}, part) == part
    decreases |part|
  {
    if part != [] {
      NothingCollapsedWalk(ns, part[0].parentId, |ns|);
      NothingCollapsedShowsAll(ns, part[1..]);
      assert [part[0]] + part[1..] == part;
    }
  }

  // ---------------------------------------------------------------- search and type filter

  /**
   * `String(node.data.value)`: a string is itself and a boolean prints as
   * `true`/`false`; the printing of numbers and the JSON text of objects are
   * given as `show`.
   */
  function ValueText(v: TokenValue, show: TokenValue -> string): string {
    match v
    case Str(s) => s
    case Bool(b) => if b then "true" else "false"
    case _ => show(v)
  }

  /**
   * `matchesSearch`: an empty term matches everything; otherwise the
   * lowercased term must occur in the lowercased label, full path, or
   * text of a truthy value.
   */
  predicate MatchesSearch(d: NodeData, term: string, show: TokenValue -> string) {
    var q := Lower(term);
    || term == ""
    || Contains(Lower(d.Label()), q)
    || Contains(Lower(d.FullPath()), q)
    || (d.Value().Truthy() && Contains(Lower(ValueText(d.Value(), show)), q))
  }

  /** Searching is case-insensitive: the term and its lowercase match the same nodes. */
  lemma SearchIgnoresCase(d: NodeData, term: string, show: TokenValue -> string)
    ensures MatchesSearch(d, term, show) == MatchesSearch(d, Lower(term), show)
  {
    LowerIdempotent(term);
  }

  /** Shortening the term to a piece of itself never dims a node that matched. */
  lemma SearchNarrowing(d: NodeData, term: string, piece: string, show: TokenValue -> string)
    requires Contains(term, piece) && MatchesSearch(d, term, show)
    ensures MatchesSearch(d, piece, show)
  {
    if piece != "" && term != "" {
      LowerPreservesContains(term, piece);
      var q := Lower(term);
      if Contains(Lower(d.Label()), q) {
        ContainsTransitive(Lower(d.Label()), q, Lower(piece));
      } else if Contains(Lower(d.FullPath()), q) {
        ContainsTransitive(Lower(d.FullPath()), q, Lower(piece));
      } else {
        ContainsTransitive(Lower(ValueText(d.Value(), show)), q, Lower(piece));
      }
    }
  }

  /** Searching for a node's own label, in any case, finds it. */
  lemma SearchFindsOwnLabel(d: NodeData, show: TokenValue -> string)
    ensures MatchesSearch(d, d.Label(), show)
  {
    ContainsSelf(Lower(d.Label()));
  }

  /**
   * `matchesFilter`: an empty filter set matches everything; otherwise the
   * node needs a truthy `data.type` that is one of the filter strings.
   */
  predicate MatchesFilter(d: NodeData, filters: set<string>) {
    || filters == {}
    || (&& d.TokenType().Some?
        && Truthy(d.TokenType().value)
        && d.TokenType().value.JStr?
        && d.TokenType().value.s in filters)
  }

  /** While a type filter is active no section or group matches it, since containers carry no type. */
  lemma ContainersFailFilter(d: NodeData, filters: set<string>)
    requires filters != {} && d.GroupData?
    ensures !MatchesFilter(d, filters)
  {
  }

  /** A token matches an active filter exactly when its type is a string among the filters. */
  lemma FilterMatchesTokenType(d: NodeData, filters: set<string>)
    requires filters != {} && d.TokenData?
    ensures MatchesFilter(d, filters) <==> d.token.tokenType.JStr? && d.token.tokenType.s in filters && d.token.tokenType.s != ""
  {
  }

  /** Adding filters to an active filter set only lets more nodes through. */
  lemma FilterMonotone(d: NodeData, f: set<string>, g: set<string>)
    requires f != {} && f <= g && MatchesFilter(d, f)
    ensures MatchesFilter(d, g)
  {
  }

  // ---------------------------------------------------------------- decoration

  /** `style.pointerEvents`. */
  datatype PointerEvents = AllEvents | NoEvents

  /**
   * A shown node: the laid-out node with its `data` flags and `style`
   * fields set (`isHighlighted`, `isDimmed`, `isCollapsed`, `isExpanded`,
   * `opacity`, `pointerEvents`); everything else is the node's own.
   */
  datatype Shown = Shown(
    node: Node,
    highlighted: bool,
    dimmed: bool,
    collapsed: bool,
    expanded: bool,
    opacity: real,
    pointerEvents: PointerEvents)

  /** The decoration `processedNodes` gives one surviving node. */
  function Decorate(n: Node, st: ViewState, show: TokenValue -> string): (r: Shown)
    ensures r.node == n && !r.highlighted
    ensures r.dimmed <==> !(MatchesSearch(n.data, st.search, show) && MatchesFilter(n.data, st.filters))
    ensures r.opacity == (if r.dimmed then 0.1 else 1.0)
    ensures r.pointerEvents == (if r.dimmed then NoEvents else AllEvents)
    ensures r.collapsed <==> n.id in st.collapsed
    ensures r.expanded <==> n.id in st.expanded
  {
    var visible := MatchesSearch(n.data, st.search, show) && MatchesFilter(n.data, st.filters);
    Shown(n, false, !visible, n.id in st.collapsed, n.id in st.expanded,
          if visible then 1.0 else 0.1, if visible then AllEvents else NoEvents)
  }

  /** `processedNodes`: the nodes without a collapsed ancestor, each decorated. */
  function ProcessNodes(ns: seq<Node>, st: ViewState, show: TokenValue -> string): (r: seq<Shown>)
    ensures |r| == |Unhidden(ns, st.collapsed, ns)|
    ensures forall i :: 0 <= i < |r| ==> r[i] == Decorate(Unhidden(ns, st.collapsed, ns)[i], st, show)
  {
    var kept := Unhidden(ns, st.collapsed, ns);
    seq(|kept|, i requires 0 <= i < |kept| => Decorate(kept[i], st, show))
  }

  /** A node is shown exactly when it has no collapsed ancestor; it keeps all its own fields. */
  lemma ShownIffNotHidden(ns: seq<Node>, st: ViewState, show: TokenValue -> string, n: Node)
    ensures (exists i :: 0 <= i < |ProcessNodes(ns, st, show)| && ProcessNodes(ns, st, show)[i].node == n)
      <==> n in ns && !AncestorCollapsed(ns, st.collapsed, n)
  {
    var kept := Unhidden(ns, st.collapsed, ns);
    var r := ProcessNodes(ns, st, show);
    if n in kept {
      var i :| 0 <= i < |kept| && kept[i] == n;
      assert r[i].node == n;
    }
  }

  /** The laid-out nodes behind a list of shown nodes. */
  function NodesOf(r: seq<Shown>): seq<Node> {
    seq(|r|, i requires 0 <= i < |r| => r[i].node)
  }

  /**
   * The shown nodes are the graph's nodes in their order with some left
   * out, and every node left out has a collapsed ancestor.
   */
  lemma ShownInOrder(ns: seq<Node>, st: ViewState, show: TokenValue -> string)
    ensures SubList(NodesOf(ProcessNodes(ns, st, show)), ns)
    ensures forall n :: n in ns && n !in NodesOf(ProcessNodes(ns, st, show)) ==> AncestorCollapsed(ns, st.collapsed, n)
  {
    assert NodesOf(ProcessNodes(ns, st, show)) == Unhidden(ns, st.collapsed, ns);
  }

  /**
   * Search, filters and expansion only dim or flag nodes: two view states
   * with the same collapsed set show the same nodes, so a reset never
   * brings back or hides a node.
   */
  lemma DimmingNeverHides(ns: seq<Node>, st: ViewState, st': ViewState, show: TokenValue -> string)
    requires st.collapsed == st'.collapsed
    ensures NodesOf(ProcessNodes(ns, st, show)) == NodesOf(ProcessNodes(ns, st', show))
  {
    assert NodesOf(ProcessNodes(ns, st, show)) == Unhidden(ns, st.collapsed, ns);
    assert NodesOf(ProcessNodes(ns, st', show)) == Unhidden(ns, st'.collapsed, ns);
  }

  /** Collapsing a group and collapsing it again restores the whole view state. */
  lemma CollapseRoundTrip(st: ViewState, g: string)
    ensures ToggleGroupCollapse(ToggleGroupCollapse(st, g), g) == st
  {
    ToggleTwice(st.collapsed, g);
  }

  /** Expanding a node and expanding it again restores the whole view state. */
  lemma ExpansionRoundTrip(st: ViewState, id: string)
    ensures ToggleNodeExpansion(ToggleNodeExpansion(st, id), id) == st
  {
    ToggleTwice(st.expanded, id);
  }

  /** Clicking a filter chip twice restores the whole view state. */
  lemma FilterRoundTrip(st: ViewState, t: string)
    ensures ToggleFilter(ToggleFilter(st, t), t) == st
  {
    ToggleTwice(st.filters, t);
  }

  /**
   * Collapsing a group that was open hides every node whose parent id is
   * that group, and keeps hidden every node that was hidden already.
   */
  lemma CollapseHidesChildren(ns: seq<Node>, st: ViewState, g: string, show: TokenValue -> string, n: Node)
    requires g != "" && g !in st.collapsed && n in ns && n.parentId == Some(g)
    ensures n !in NodesOf(ProcessNodes(ns, ToggleGroupCollapse(st, g), show))
    ensures forall m :: m in ns && AncestorCollapsed(ns, st.collapsed, m) ==>
      m !in NodesOf(ProcessNodes(ns, ToggleGroupCollapse(st, g), show))
  {
    var c := ToggleGroupCollapse(st, g).collapsed;
    ShownInOrder(ns, ToggleGroupCollapse(st, g), show);
    assert NodesOf(ProcessNodes(ns, ToggleGroupCollapse(st, g), show)) == Unhidden(ns, c, ns);
    forall m | m in ns && AncestorCollapsed(ns, st.collapsed, m)
      ensures AncestorCollapsed(ns, c, m)
    {
      WalkMonotone(ns, st.collapsed, c, m.parentId, |ns|);
    }
  }

  /**
   * Switching on the first filter chip `t` lets a token through exactly
   * when its type is the string `t` (and `t` is not empty).
   */
  lemma FirstFilterSelectsType(d: NodeData, st: ViewState, t: string)
    requires st.filters == {} && d.TokenData?
    ensures MatchesFilter(d, ToggleFilter(st, t).filters) <==> d.token.tokenType == JStr(t) && t != ""
  {
    assert ToggleFilter(st, t).filters == {t};
  }

  /** After a reset nothing shown is dimmed: every node is opaque and takes pointer events. */
  lemma ResetUndims(ns: seq<Node>, st: ViewState, show: TokenValue -> string)
    ensures forall i :: 0 <= i < |ProcessNodes(ns, ResetAll(st), show)| ==>
      var s := ProcessNodes(ns, ResetAll(st), show)[i];
      !s.dimmed && s.opacity == 1.0 && s.pointerEvents == AllEvents
  {
  }

  /** While a type filter is active every shown section and group is dimmed. */
  lemma FilterDimsContainers(ns: seq<Node>, st: ViewState, show: TokenValue -> string)
    requires st.filters != {}
    ensures forall i :: 0 <= i < |ProcessNodes(ns, st, show)| && ProcessNodes(ns, st, show)[i].node.data.GroupData? ==>
      ProcessNodes(ns, st, show)[i].dimmed
  {
  }

  /** The expanded set changes nothing but the `isExpanded` flags. */
  lemma ExpansionOnlyFlags(ns: seq<Node>, st: ViewState, expanded: set<string>, show: TokenValue -> string)
    ensures var a := ProcessNodes(ns, st, show);
            var b := ProcessNodes(ns, st.(expanded := expanded), show);
      && |a| == |b|
      && forall i :: 0 <= i < |a| ==> a[i].(expanded := false) == b[i].(expanded := false)
  {
  }

  // ---------------------------------------------------------------- edges

  /** An edge survives when both ends resolve and neither end has a collapsed ancestor. */
  predicate KeepEdge(ns: seq<Node>, collapsed: set<string>, e: Edge) {
    && Find(ns, e.source).Some?
    && Find(ns, e.target).Some?
    && !AncestorCollapsed(ns, collapsed, Find(ns, e.source).value)
    && !AncestorCollapsed(ns, collapsed, Find(ns, e.target).value)
  }

  /** `filteredEdges` over the edge list `es`. */
  function FilterEdges(ns: seq<Node>, collapsed: set<string>, es: seq<Edge>): (r: seq<Edge>)
    ensures SubList(r, es)
    ensures forall e :: e in r ==> e in es
    decreases |es|
  {
    if es == [] then []
    else
      var rest := FilterEdges(ns, collapsed, es[1..]);
      if KeepEdge(ns, collapsed, es[0]) then
        assert ([es[0]] + rest)[1..] == rest;
        [es[0]] + rest
      else rest
  }

  /** The surviving edges are exactly those whose ends resolve to shown nodes. */
  lemma {:induction false} EdgesJoinShownNodes(ns: seq<Node>, collapsed: set<string>, es: seq<Edge>, e: Edge)
    ensures e in FilterEdges(ns, collapsed, es) <==>
      && e in es
      && Find(ns, e.source).Some? && Find(ns, e.source).value in Unhidden(ns, collapsed, ns)
      && Find(ns, e.target).Some? && Find(ns, e.target).value in Unhidden(ns, collapsed, ns)
    decreases |es|
  {
    if es != [] {
      EdgesJoinShownNodes(ns, collapsed, es[1..], e);
      assert e in es <==> e == es[0] || e in es[1..];
    }
  }

  /** An edge whose source or target names no node is dropped, collapsed groups or not. */
  lemma DanglingEdgesDropped(ns: seq<Node>, collapsed: set<string>, es: seq<Edge>, e: Edge)
    requires Find(ns, e.source).None? || Find(ns, e.target).None?
    ensures e !in FilterEdges(ns, collapsed, es)
  {
    EdgesJoinShownNodes(ns, collapsed, es, e);
  }

  /** Edge filtering distributes over concatenation, so surviving edges keep their order. */
  lemma {:induction false} FilterEdgesConcat(ns: seq<Node>, collapsed: set<string>, a: seq<Edge>, b: seq<Edge>)
    ensures FilterEdges(ns, collapsed, a + b) == FilterEdges(ns, collapsed, a) + FilterEdges(ns, collapsed, b)
    decreases |a|
  {
    if a == [] {
      assert a + b == b;
    } else {
      assert (a + b)[0] == a[0];
      assert (a + b)[1..] == a[1..] + b;
      FilterEdgesConcat(ns, collapsed, a[1..], b);
    }
  }
}
