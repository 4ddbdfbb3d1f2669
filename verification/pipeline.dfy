/**
 * The viewer's pipeline end to end: a token document is parsed, laid out
 * and projected.  What the parser guarantees about node order is what the
 * layout and the view projection need to behave as intended.
 */
module Pipeline {
  import opened Wrappers
  import opened Json
  import opened Graph
  import opened TokenParser
  import opened ParserStructure
  import opened Layout
  import opened View

  /** The laid-out map of a document: `parseTokens`, then `getLayoutedElements`. */
  function MapOf(doc: Json, centre: string -> Point, direction: string): Layouted {
    var parsed := ParseTokens(doc);
    GetLayoutedElements(parsed.nodes, parsed.edges, centre, direction)
  }

  /**
   * `updateLayout(currentJson, currentDir)`: a falsy document (`null`,
   * `false`, `0`, `""`) returns early, leaving the node and edge state `prev`
   * unchanged (the home page is shown then, since the stored tokens are
   * falsy); any other document replaces that state with its laid-out map.
   */
  function UpdateLayout(prev: Layouted, doc: Json, centre: string -> Point, direction: string): Layouted {
    if !Truthy(doc) then prev else MapOf(doc, centre, direction)
  }

  /**
   * After an update with a truthy document the node state holds its parsed
   * nodes, in order and with their ids and parent links, and the edge state
   * its alias edges.  A falsy document leaves the node and edge state as it
   * was, although parsing it would have given no nodes.
   */
  lemma UpdateLayoutShows(prev: Layouted, doc: Json, centre: string -> Point, direction: string)
    ensures Truthy(doc) ==> SameLinks(UpdateLayout(prev, doc, centre, direction).nodes, ParseTokens(doc).nodes)
    ensures Truthy(doc) ==> UpdateLayout(prev, doc, centre, direction).edges == ParseTokens(doc).edges
    ensures !Truthy(doc) ==> UpdateLayout(prev, doc, centre, direction) == prev && ParseTokens(doc).nodes == []
  {
    var parsed := ParseTokens(doc);
    LayoutKeepsNodes(parsed.nodes, parsed.edges, centre, direction);
    if !Truthy(doc) {
      assert ForInEntries(doc) == [];
    }
  }

  /** The laid-out nodes have the ids and parent links of the parsed ones, in the same order. */
  lemma MapKeepsLinks(doc: Json, centre: string -> Point, direction: string)
    ensures SameLinks(MapOf(doc, centre, direction).nodes, ParseTokens(doc).nodes)
    ensures SameLinks(MapOf(doc, centre, direction).nodes, PlaceAll(ParseTokens(doc).nodes, centre, direction))
  {
    var parsed := ParseTokens(doc);
    LayoutKeepsNodes(parsed.nodes, parsed.edges, centre, direction);
  }

  /**
   * When no two parsed nodes share an id, the laid-out map still lists
   * children before parents, and every node inside a `groupNode` ends
   * inside that group's padded box, relative to it.
   */
  lemma ParsedMapFramesChildren(doc: Json, centre: string -> Point, direction: string)
    requires DistinctIds(ParseTokens(doc).nodes)
    ensures var out := MapOf(doc, centre, direction).nodes;
      && DistinctIds(out) && ChildrenFirst(out)
      && forall i :: 0 <= i < |out| && GroupParent(out, i).Some? ==>
           && out[GroupParent(out, i).value].size.Some?
           && Contained(out[i].position, out[GroupParent(out, i).value].size.value)
  {
    var parsed := ParseTokens(doc).nodes;
    var placed := PlaceAll(parsed, centre, direction);
    var out := MapOf(doc, centre, direction).nodes;
    ChildrenBeforeParents(doc);
    MapKeepsLinks(doc, centre, direction);
    assert DistinctIds(placed) && ChildrenFirst(placed);
    FinalizeFramesChildren(placed);
    forall i | 0 <= i < |out| && GroupParent(out, i).Some?
      ensures out[GroupParent(out, i).value].size.Some?
      ensures Contained(out[i].position, out[GroupParent(out, i).value].size.value)
    {
      StructureLinks(out, placed, i);
    }
  }

  /**
   * On the map of a document without shared ids, a node is hidden exactly
   * when an id on its ancestor chain is collapsed.
   */
  lemma ParsedMapHidesExactly(doc: Json, centre: string -> Point, direction: string, collapsed: set<string>, k: nat)
    requires DistinctIds(ParseTokens(doc).nodes)
    requires k < |MapOf(doc, centre, direction).nodes|
    ensures var out := MapOf(doc, centre, direction).nodes;
      ChildrenFirst(out) && (AncestorCollapsed(out, collapsed, out[k]) <==> AnyIn(AncestorIds(out, k), collapsed))
  {
    ParsedMapFramesChildren(doc, centre, direction);
    HiddenIffCollapsedAncestor(MapOf(doc, centre, direction).nodes, collapsed, k);
  }
}
