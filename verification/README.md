# TokenMap core, modelled in Dafny

TokenMap is a browser viewer for design tokens. A user uploads one JSON token
file, or a zip of them. The viewer parses the token tree into a graph of
section, group and token nodes, plus alias edges. It lays the graph out,
packs each group's children into a padded box, and shows it with collapse,
expand, search and token-type filters.

This project models that core as pure Dafny functions over immutable data,
and proves the properties the code relies on or promises:

- `json.dfy`: JSON values with ordered member lists. A key lookup takes the
  first match. An assignment to an existing key keeps its position and adds a
  new key at the end, as JavaScript objects do. `for…in` over arrays and
  strings enumerates decimal index keys.
- `fileutils.dfy`: `deepMerge` (module `FileUtils`), and in module
  `ArchiveLoading`:
  - `processTokenFile`: `.json` uploads, the zip fold, and the unsupported
    format error;
  - `JSON.parse` is a parameter `parse: string -> Option<Json>`;
  - the inflated archive is an optional list of entries.
- `parser.dfy`: `parseTokens` and its inner `traverse` (module `TokenParser`).
  It returns the nodes and edges in the order the code pushes them.
  `parser_props.dfy` and `parser_structure.dfy` prove what that output looks
  like:
  - token counts;
  - alias edges;
  - id and parent-link shape;
  - children before parents;
  - how categories flow down.
- `layout.dfy`: `getLayoutedElements` and `finalizeNodes` (module `Layout`).
  - dagre is an oracle `centre: string -> Point` from node id to its
    computed centre.
  - `finalizeNodes` is a fold of one step per node index.
  - It is proved equal to an independent recursive definition of each
    node's absolute position and box.
- `view.dfy`: what `App.tsx` derives from its state (module `View`):
  - `isAncestorCollapsed`;
  - `processedNodes`, with search and type-filter dimming;
  - `filteredEdges`;
  - the three set toggles and `handleResetAll`.
- `pipeline.dfy`: `updateLayout` end to end. When a parsed document has no
  shared ids, its laid-out map frames every child inside its group. The view
  then hides exactly the nodes that have a collapsed ancestor.
- `wrappers.dfy`, `strings.dfy` and `graph.dfy` hold shared helpers.
  - `wrappers.dfy`: `Option` and `Result`.
  - `strings.dfy`: ASCII lower-casing, substring search and dotted joins.
  - `graph.dfy`: the node and edge records of the graph.

Some behaviour of the code that the model keeps:

- A zip with no readable `.json` document yields the empty object `{}`
  (src/utils/fileUtils.ts:33-47).
- Zip entries are selected by the `.json` suffix of their path alone
  (src/utils/fileUtils.ts:35).
- A bare string, number, boolean or `null` under a key is neither a token nor
  a group, and produces nothing (src/utils/tokenParser.ts:20-57).
- For a falsy document the node and edge state is left unchanged
  (src/App.tsx:20). The home page is shown instead of the map, since the
  stored tokens are falsy (src/App.tsx:165-167).
- Node ids are dotted key paths, and they need not be unique: the keys
  `"a.b"` and `"a"`→`"b"` give the same id.
  - Most parser theorems hold for every document. `ChildrenBeforeParents`
    assumes distinct ids.
  - So do the layout theorems about finalized boxes and placement, and the
    pipeline theorems `ParsedMapFramesChildren` and `ParsedMapHidesExactly`.
  - The exact-ancestor visibility theorem assumes that children precede
    their parents. The parser gives that order for distinct ids.
  - The other visibility lemmas hold for every node list.
- `JSON.parse` never returns an object with a repeated key. The `parse`
  parameter is assumed to do the same: lemmas that read a member by key
  require distinct keys (`DistinctKeys`).

## Model

| member | source | states |
|---|---|---|
| `FileUtils.DeepMerge` | src/utils/fileUtils.ts:6-23 | `deepMerge` itself: a copy of the target, then an assignment for each source key in order. Its behaviour is stated by the `DeepMergeKeys`, `TargetOnlyKept`, `ObjectsMergeRecursively`, `SourceWins`, `TargetOrderKept` and `MergeIdentity` rows. |
| `FileUtils.MergeMembers` | src/utils/fileUtils.ts:8-21 | The `for…in` loop of `deepMerge`, one source member per step. Stated by the `MergeMembers…` rows. |
| `FileUtils.DeepMergeKeys` | src/utils/fileUtils.ts:6-23 | The merged object has exactly the keys of the target and of the source. |
| `FileUtils.MergeMembersKeys` | src/utils/fileUtils.ts:8-21 | Each loop step over the source's keys adds exactly that key to the result's keys. |
| `FileUtils.TargetOnlyKept` | src/utils/fileUtils.ts:7 | A key the source lacks keeps the target's value, copied by the spread. |
| `FileUtils.MergeMembersUntouched` | src/utils/fileUtils.ts:8-21 | The loop never changes a key that the source does not enumerate. |
| `FileUtils.MergeMembersAssigned` | src/utils/fileUtils.ts:9-20 | After the loop, each source key holds the recursive merge when both sides are plain objects, and the source's value otherwise. |
| `FileUtils.ObjectsMergeRecursively` | src/utils/fileUtils.ts:9-17 | When both sides hold non-array objects under a key, the result under that key is their deep merge. |
| `FileUtils.SourceWins` | src/utils/fileUtils.ts:18-20 | When the two values under a key are not both plain objects, the source's value replaces the target's. This covers arrays, null and scalars. |
| `FileUtils.TargetOrderKept` | src/utils/fileUtils.ts:7-8 | The target's keys keep their order as a prefix of the result, and new source keys follow. |
| `FileUtils.MergeMembersPrefix` | src/utils/fileUtils.ts:8-21 | Loop form of the order property: the accumulated keys stay a prefix of the result. |
| `FileUtils.MergeMembersDistinct` | src/utils/fileUtils.ts:8-21 | The result never lists a key twice. |
| `FileUtils.MergeMembersFresh` | src/utils/fileUtils.ts:8-21 | When no source key is already present, the loop appends the source's members unchanged. |
| `FileUtils.MergeIdentity` | src/utils/fileUtils.ts:6-23 | Merging an empty source returns the target. Merging into `{}` returns the source. |
| `ArchiveLoading.MergeArchive` | src/utils/fileUtils.ts:37-45 | The only way the zip loop can fail is an entry that cannot be inflated. A parse failure never stops it. |
| `ArchiveLoading.ArchiveIsFold` | src/utils/fileUtils.ts:33-47 | When every `.json` entry inflates, the archive yields the left fold of `deepMerge` over the parsed documents in order, starting from `{}`. Otherwise it fails with an archive error. |
| `ArchiveLoading.InflatableSnoc` | src/utils/fileUtils.ts:35-38 | An archive can be read entry by entry exactly when its front can be and its last `.json` entry inflates. |
| `ArchiveLoading.FoldMergeSnoc` | src/utils/fileUtils.ts:41 | Folding one more document merges its enumerable entries into the running result. |
| `ArchiveLoading.EmptyArchiveYieldsEmptyObject` | src/utils/fileUtils.ts:33-47 | An archive with no parsable `.json` document yields the empty object, not an error. |
| `ArchiveLoading.FoldMergeKeys` | src/utils/fileUtils.ts:37-45 | The merged archive has exactly the union of the documents' top-level keys. |
| `ArchiveLoading.SingleDocumentArchive` | src/utils/fileUtils.ts:33-47 | A zip holding one `.json` object file yields that object. |
| `ArchiveLoading.ProcessTokenFile` | src/utils/fileUtils.ts:25-51 | The result for each kind of upload: <br>• the unsupported-format error exactly when the name ends in neither `.json` nor `.zip`; <br>• a `.json` upload succeeds exactly when its text parses, and then yields the parsed value; <br>• a zip upload that succeeds yields an object; <br>• a zip upload that cannot be opened fails. |
| `ArchiveLoading.ZipNeverFailsOnParseErrors` | src/utils/fileUtils.ts:31-48 | A readable zip always yields the fold of the documents that parse. Documents that fail to parse are skipped. |
| `TokenParser.ParseTokens` | src/utils/tokenParser.ts:3-90 | `parseTokens`: the traversal of the document's top-level entries, returning the pushed nodes and edges. Stated by the `ParserProperties` and `ParserStructure` rows. |
| `TokenParser.TraverseEntries` | src/utils/tokenParser.ts:8-85 | `traverse` over one object's entries in order, with the running count and token list. Stated by `TraverseCounted` and `TraverseShaped`. |
| `TokenParser.EntryWalk` | src/utils/tokenParser.ts:12-83 | The loop body for one key: the `$` skip, the token case, the group case, and nothing for anything else. Stated by `TokenObjectIsLeaf`, `ScalarsEmitNothing`, `MetaKeysEmitNothing`, `EntryCounted` and `EntryShaped`. |
| `TokenParser.AliasTarget` | src/utils/tokenParser.ts:46-47 | A value is an alias exactly when it is a string wrapped in braces. The target is the text between the braces. |
| `ParserProperties.TokenObjectIsLeaf` | src/utils/tokenParser.ts:20-44 | An object member with `$value` or `value` is one token node. <br>• It is not descended into. <br>• Its id is the dotted path, and its parent is the enclosing path. <br>• It takes the enclosing category. <br>• Its stored value is `$value ?? value`, kept as JSON text when it is an object or null. <br>• Its type is `$type ?? type`, otherwise `color` for strings starting with `#` and `other` for anything else. |
| `ParserProperties.ScalarsEmitNothing` | src/utils/tokenParser.ts:20-57 | A bare string, number, boolean or null member produces no node, token or edge. |
| `ParserProperties.MetaKeysEmitNothing` | src/utils/tokenParser.ts:13 | A key starting with `$` is skipped together with everything beneath it. |
| `ParserProperties.NextCategoryPrecedence` | src/utils/tokenParser.ts:58-61 | Keys containing component/theme/semantic give `component`. Otherwise brand/decision/global give `decision`. Otherwise the category is inherited. The match ignores case. |
| `ParserProperties.EntryCounted` | src/utils/tokenParser.ts:43-82 | For every member, the reported count equals the number of tokens collected, and equals the number of token nodes emitted. |
| `ParserProperties.TraverseCounted` | src/utils/tokenParser.ts:8-85 | A traversal's count equals the length of its token list, and equals the number of token nodes it emits. |
| `ParserProperties.ThenCounted` | src/utils/tokenParser.ts:81-82 | Concatenating two sibling results keeps counts and token lists in step. |
| `ParserProperties.ParseEdgesAreAliases` | src/utils/tokenParser.ts:46-54 | The edge list is exactly one animated `e-<alias>-<id>` edge per aliasing token, in node order, from the alias target to the token. |
| `ParserProperties.EntryShaped` | src/utils/tokenParser.ts:15-79 | Every node emitted under a path: <br>• has an id extending that path; <br>• has as parent the id of the path one shorter, or none at the top; <br>• is a token node carrying token data, or a container carrying group data. |
| `ParserProperties.TraverseShaped` | src/utils/tokenParser.ts:8-85 | The same shape holds for a whole traversal. |
| `ParserProperties.ParsedNodesShaped` | src/utils/tokenParser.ts:3-90 | Every parsed node: <br>• has an id equal to its full path, which is its parent's id, a dot, and its own key; <br>• is a token node exactly when it carries token data; <br>• if it is a container, is a non-draggable section node exactly when it has no parent, and a draggable, selectable group node otherwise; <br>• if it is a token, carries the badge of its category; <br>• if it is a container, has a `tokenCount` equal to the length of its token list; <br>• starts at (0, 0) with no size. |
| `ParserProperties.ChildUnder` | src/utils/tokenParser.ts:15-17 | A child's id is its parent's id, a dot, and its key. |
| `ParserStructure.ParentsFollowChildren` | src/utils/tokenParser.ts:63-65 | Every node with a parent id has, later in the list, a container with that id. The container is pushed after its subtree. |
| `ParserStructure.TokenCountsAggregate` | src/utils/tokenParser.ts:71-81 | Each container's `tokenCount` equals its direct token children plus the counts of its direct container children. |
| `ParserStructure.CategoriesFlowDown` | src/utils/tokenParser.ts:35-70 | Top-level nodes start from `primitive`. A token takes the category of its parent container. A container takes its parent's category, refined by its own key. |
| `ParserStructure.ChildrenBeforeParents` | src/utils/tokenParser.ts:30-79 | With distinct ids, every child precedes its parent in the node list. |
| `ParserStructure.ColorStaysPrimitive` | src/utils/tokenParser.ts:58-61 | The key `color` stays `primitive`, as the worked document needs. The general rule is the third clause of `NextCategoryPrecedence`. |
| `ParserStructure.AliasDocument` | src/utils/tokenParser.ts:3-90 | A worked document: a `color` group holding a hex token and an alias to it. It yields the two tokens, then the section node with count 2, then one edge from the target to the alias. |
| `Layout.GetLayoutedElements` | src/utils/layout.ts:10-87 | `getLayoutedElements`: placement from the engine's centres, then `finalizeNodes`. Stated by `LayoutKeepsNodes`, `LayoutPlacesLooseNodes` and `FinalizeMatchesReference`. |
| `Layout.Finalize` | src/utils/layout.ts:46-84 | `finalizeNodes`: each group node is processed in list order over the current positions, and the list keeps its length. Stated by `FinalizeMatchesReference`, `FinalizeFramesChildren` and `FinalizeFromKeeps`. |
| `Layout.PlaceAll` | src/utils/layout.ts:27-42 | Each node moves so that dagre's centre becomes the centre of a 172×64 box. Handles are left/right for `LR` and top/bottom otherwise. Nothing else changes. |
| `Layout.ChildIndices` | src/utils/layout.ts:51 | Every listed index is a node whose parent id is the group's id. |
| `Layout.ChildIndicesComplete` | src/utils/layout.ts:51 | Every child of the group is listed, and in list order. |
| `Layout.Extent` | src/utils/layout.ts:55-61 | The bounds enclose every child's box, and each of the four edges is touched by some child. |
| `Layout.ExtentFrames` | src/utils/layout.ts:63-72 | Relative to the group's corner, every child lies inside the padded frame with the header. The tightest child sits exactly at the padding and at the padding plus header. |
| `Layout.Rebase` | src/utils/layout.ts:75-80 | The loop that makes each child relative to the group, keeping the list's length. Stated by `RebaseMoves`. |
| `Layout.RebaseMoves` | src/utils/layout.ts:75-80 | Only the listed children move, each by minus the group's new corner. |
| `Layout.ProcessGroup` | src/utils/layout.ts:50-81 | One group of `groupNodes.forEach`, keeping the list's length. Stated by `ProcessGroupMoves`, `ProcessGroupFrames` and `ProcessGroupTight`. |
| `Layout.ProcessGroupMoves` | src/utils/layout.ts:50-81 | A group with children gets the corner and the padded size of its children's bounds. Its direct children become relative to it, and no other node moves. |
| `Layout.ProcessGroupFrames` | src/utils/layout.ts:50-81 | After a group is processed, each of its direct children lies inside the group's size. |
| `Layout.ProcessGroupTight` | src/utils/layout.ts:63-72 | The group's box is as small as the padding allows: some child touches the left padding, and some child touches the header. |
| `Layout.FinalizeFromKeeps` | src/utils/layout.ts:46-84 | Finalizing keeps ids, parents, kinds and data. It sets sizes only on group nodes that have children. |
| `Layout.FinalizeResizesOnlyGroups` | src/utils/layout.ts:48-52 | Finalizing never resizes a section, a token, or a childless group. |
| `Layout.GroupParent` | src/utils/layout.ts:48-51 | The parent a node is rebased against is a group node whose id is the node's parent id. |
| `Layout.StepReached` | src/utils/layout.ts:50-81 | Processing the next node in order keeps the fold in agreement with the reference definition of absolute positions and boxes. |
| `Layout.FinalizeMatchesReference` | src/utils/layout.ts:46-84 | Assume distinct ids and children listed before parents. Then each final size is the reference box of the node's children, and each final position is the node's reference absolute position, made relative to its group parent when it has one. |
| `Layout.FinalizeFramesChildren` | src/utils/layout.ts:46-84 | Under the same assumptions, every node inside a group ends inside that group's box. |
| `Layout.LayoutKeepsNodes` | src/utils/layout.ts:10-87 | The layout returns the edges untouched and the nodes in order, with the same ids, parents, kinds and data, and with handles for the direction. |
| `Layout.LayoutPlacesLooseNodes` | src/utils/layout.ts:27-42 | Assume distinct ids, and children listed before parents. Then a node that is neither a group with children nor inside a group keeps its dagre placement: its centre minus (86, 32). |
| `Layout.StructureLinks` | src/utils/layout.ts:48-51 | Two node lists that agree on ids, parents and kinds make the same nodes wrap children, and give every node the same group parent. |
| `View.Toggle` | src/App.tsx:29-32 | The toggled set holds the element exactly when the old set did not. No other element changes. |
| `View.ToggleTwice` | src/App.tsx:27-43 | Toggling the same id twice restores the set. |
| `View.AncestorWalk` | src/App.tsx:92-98 | The `while (currentId)` loop of `isAncestorCollapsed`, with fuel bounding the steps. Stated by `AncestorWalkChain`, `WalkMonotone` and `WalkUnion`. |
| `View.AncestorCollapsed` | src/App.tsx:91-99 | `isAncestorCollapsed(node)`: the walk from the node's parent id, with fuel equal to the node count. Stated by `HiddenIffCollapsedAncestor`, `CollapsedParentHides`, `CollapseMonotone` and `CollapseUnion`. |
| `View.HiddenIffCollapsedAncestor` | src/App.tsx:91-99 | When children precede parents, a node is hidden exactly when some id on its chain of parent links is collapsed. |
| `View.AncestorWalkChain` | src/App.tsx:92-97 | Each loop step checks the current id and then moves to the found parent's parent id, visiting exactly the ancestor chain. |
| `View.CollapsedParentHides` | src/App.tsx:93-94 | A node whose direct parent is collapsed is hidden, whatever the list order. |
| `View.WalkMonotone` | src/App.tsx:92-98 | From any starting id, a walk that stops at a collapsed id of a set also stops at one of every larger set. |
| `View.WalkUnion` | src/App.tsx:92-98 | From any starting id, the walk against a union of sets answers true exactly when the walk against one of the sets does. |
| `View.CollapseMonotone` | src/App.tsx:91-99 | Collapsing more groups never reveals a node, in any node list. |
| `View.CollapseUnion` | src/App.tsx:91-99 | A node is hidden by the union of two collapsed sets exactly when one of the sets hides it, in any node list. |
| `View.NothingCollapsedWalk` | src/App.tsx:91-99 | With nothing collapsed, no node is hidden. |
| `View.Unhidden` | src/App.tsx:101-102 | The filter keeps exactly the nodes with no collapsed ancestor. |
| `View.NothingCollapsedShowsAll` | src/App.tsx:101-102 | With nothing collapsed, every node is shown, in order. |
| `View.MatchesSearch` | src/App.tsx:104-107 | `matchesSearch` for one node. Stated by `SearchIgnoresCase`, `SearchNarrowing` and `SearchFindsOwnLabel`. |
| `View.SearchIgnoresCase` | src/App.tsx:104-107 | Matching ignores the case of the search term. |
| `View.SearchNarrowing` | src/App.tsx:104-107 | A node matching a term also matches every piece of that term. |
| `View.SearchFindsOwnLabel` | src/App.tsx:104-105 | Searching for a node's own label finds it. |
| `View.MatchesFilter` | src/App.tsx:109-110 | `matchesFilter` for one node. Stated by `ContainersFailFilter`, `FilterMatchesTokenType`, `FilterMonotone` and `FirstFilterSelectsType`. |
| `View.ContainersFailFilter` | src/App.tsx:109-110 | While a filter is active, a section or group never passes, since it has no type. |
| `View.FilterMatchesTokenType` | src/App.tsx:109-110 | While a filter is active, a token passes exactly when its type is a non-empty string in the active set. |
| `View.FilterMonotone` | src/App.tsx:109-110 | Adding filters never fails a node that passed. |
| `View.FirstFilterSelectsType` | src/App.tsx:81-88 | Switching on the first filter chip lets a token through exactly when its type is that non-empty string. |
| `View.ShownInOrder` | src/App.tsx:101-102 | The processed nodes are the graph's nodes, in order, with some left out. Every node left out has a collapsed ancestor. |
| `View.DimmingNeverHides` | src/App.tsx:103-131 | Search, filters and expansion never change which nodes are shown, only how they are drawn. Two view states with the same collapsed set show the same nodes, so a reset neither hides nor reveals one. |
| `View.ShownIffNotHidden` | src/App.tsx:101-131 | A node appears in the processed list exactly when it is in the graph and has no collapsed ancestor. |
| `View.ResetUndims` | src/App.tsx:154-157 | After a reset, no shown node is dimmed: all are opaque and take pointer events. |
| `View.FilterDimsContainers` | src/App.tsx:109-112 | While a filter is active every shown container is dimmed. |
| `View.ExpansionOnlyFlags` | src/App.tsx:121 | The expanded set affects nothing but the expanded flags. |
| `View.CollapseRoundTrip` | src/App.tsx:27-34 | Collapsing a group twice gives back the whole view state. |
| `View.ExpansionRoundTrip` | src/App.tsx:36-43 | Expanding a node twice gives back the whole view state. |
| `View.FilterRoundTrip` | src/App.tsx:81-88 | Clicking a filter chip twice gives back the whole view state. |
| `View.CollapseHidesChildren` | src/App.tsx:27-34 | Collapsing an open group hides every node whose parent id is that group. Every node that was hidden stays hidden. |
| `View.FilterEdges` | src/App.tsx:134-152 | The filtered edges are the edges in their order, with some left out. |
| `View.EdgesJoinShownNodes` | src/App.tsx:134-151 | An edge survives exactly when each of its ends names a node, and the first node carrying that id (as `nodes.find` picks it) is unhidden. |
| `View.DanglingEdgesDropped` | src/App.tsx:136-138 | An edge with an end that names no node is dropped. |
| `View.FilterEdgesConcat` | src/App.tsx:135 | Edges are filtered one at a time, independently, in order. |
| `Pipeline.MapOf` | src/App.tsx:21-22 | The parse-then-layout of a document. Stated by `MapKeepsLinks` and `ParsedMapFramesChildren`. |
| `Pipeline.UpdateLayoutShows` | src/App.tsx:19-25 | A truthy document replaces the node and edge state with its parsed nodes, in order with their ids and parent links, and with its alias edges. A falsy document leaves that state unchanged, although parsing it would give no nodes. The home page shows then, which is not modelled. |
| `Pipeline.MapKeepsLinks` | src/App.tsx:21-22 | The map of a document shows its parsed nodes in order, with their ids and parent links. |
| `Pipeline.ParsedMapFramesChildren` | src/App.tsx:21-22 | When a document's node ids are distinct, its laid-out map lists children first. Every node inside a group lies inside that group's box. |
| `Pipeline.ParsedMapHidesExactly` | src/App.tsx:91-102 | On such a map, a node is hidden exactly when one of its ancestors is collapsed. |

## Left out

- The React components, hooks and rendering are view code only: the sidebar,
  the header, the canvas, the home page, `handleNewMap`, and the `stats` and
  `tokenTypes` memos with their fallback numbers.
- `handleFileUpload` is left out. Its `alert` is I/O, and its resets of the collapsed and expanded sets are state updates of the upload handler.
- `File.text`, `JSZip` and `JSON.parse` are foreign code. The model takes the
  parse as a parameter and the inflated archive as an optional entry list. An
  entry whose content cannot be read makes the whole load fail.
- `console.error` for skipped zip entries is logging only.
- dagre's layout algorithm and the module-level `dagreGraph` that persists
  between calls are foreign code. Their result is the `centre` parameter, so
  nothing is claimed about positions left over from an earlier call.
- Floating point:
  - coordinates are integers, so dagre's fractional centres are not modelled;
  - opacity is a real;
  - JSON numbers are reals.
- Formatting of text:
  - the search text of numbers and `JSON.stringify` output is the `show`
    parameter;
  - lower-casing is ASCII only.
- The `tokenMap` built by the parser is written but never read.
- JavaScript's enumeration order is not modelled. It puts integer-like keys
  first; the model enumerates members in the order they appear. The special
  key `__proto__` is treated as an ordinary key.
- The React Flow `onToggle` closures are not modelled; they call the modelled
  toggles. `isHighlighted` is always false.
- `ParserProperties.TokenObjectIsLeaf` compares a `$type` that is an object by
  structure, not by reference. Tokens share no objects, so nothing observable
  changes.
- `View.HiddenIffCollapsedAncestor`: the ancestor walk uses fuel equal to the
  node count.
  - On a cycle of parent ids where no id is collapsed, the code loops
    forever and the model answers false.
  - When the walk reaches a collapsed id, the code and the model both answer
    true.
  - The exact-ancestor statement is proved only when children precede their
    parents.
- `View.FilterMatchesTokenType`: the filter set holds strings.
  - The app offers any truthy `data.type` as a filter chip
    (src/App.tsx:73-79), including a number or an object from `$type`.
  - `activeFilters.has` then matches that type.
  - The model's filters cannot hold such a type, so a token with a
    non-string type never passes an active filter.
- `FileUtils.DeepMergeKeys`: `deepMerge` copies rather than mutates. The model
  is pure, so "the inputs are unchanged" holds by construction and is not
  stated.
- `ParserStructure.ChildrenBeforeParents`: assumes that no two parsed nodes
  share an id. With a shared id, a child can resolve to a later or earlier
  node of that id.
- `Layout.FinalizeMatchesReference`: assumes distinct ids, and children
  listed before parents.
- `Layout.FinalizeFramesChildren`: assumes distinct ids, and children listed
  before parents.
- `Layout.LayoutPlacesLooseNodes`: assumes distinct ids, and children listed
  before parents.
  - A group listed before its children is still resized and moved.
  - When two groups share an id, each one rebases the children of both.
- `Pipeline.ParsedMapFramesChildren`: assumes that the document's parsed node
  ids are distinct.
- `Pipeline.ParsedMapHidesExactly`: assumes that the document's parsed node
  ids are distinct.
