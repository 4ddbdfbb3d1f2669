/**
 * The flat node list `parseTokens` returns read as a tree: a node's parent
 * is the first later node whose id is its `parentId`.  Reading it that way,
 * every child precedes its container, a container's `tokenCount` is the sum
 * over its direct children, and categories flow from parent to child.  None
 * of this needs ids to be unique.
 */
module ParserStructure {
  import opened Wrappers
  import opened Strings
  import opened Json
  import opened Graph
  import opened TokenParser
  import opened ParserProperties

  function Shift(o: Option<nat>, d: nat): Option<nat> {
    if o.None? then None else Some(o.value + d)
  }

  /** Where the parent of node `i` sits: the first later node whose id is its `parentId`. */
  function ParentPos(ns: seq<Node>, i: nat): (r: Option<nat>)
    requires i < |ns|
    ensures r.Some? ==> i < r.value < |ns| && ns[i].parentId == Some(ns[r.value].id)
  {
    if ns[i].parentId.None? then None else FirstIdFrom(ns, ns[i].parentId.value, i + 1)
  }

  /** When no parent is found, no later node carries the `parentId`. */
  lemma ParentPosNone(ns: seq<Node>, i: nat)
    requires i < |ns| && ParentPos(ns, i).None? && ns[i].parentId.Some?
    ensures forall k :: i < k < |ns| ==> ns[k].id != ns[i].parentId.value
  {
  }

  lemma {:induction false} FirstIdShift(a: seq<Node>, b: seq<Node>, id: string, from: nat)
    ensures FirstIdFrom(a + b, id, |a| + from) == Shift(FirstIdFrom(b, id, from), |a|)
    decreases |b| - from
  {
    if from < |b| {
      assert (a + b)[|a| + from] == b[from];
      if b[from].id != id {
        FirstIdShift(a, b, id, from + 1);
      }
    }
  }

  /** Searching `a + b` from inside `a` finds the match in `a`, or else the first one in `b`. */
  lemma {:induction false} FirstIdConcat(a: seq<Node>, b: seq<Node>, id: string, from: nat)
    requires from <= |a|
    ensures FirstIdFrom(a + b, id, from) ==
      if FirstIdFrom(a, id, from).Some? then FirstIdFrom(a, id, from) else Shift(FirstIdFrom(b, id, 0), |a|)
    decreases |a| - from
  {
    if from == |a| {
      FirstIdShift(a, b, id, 0);
    } else {
      assert (a + b)[from] == a[from];
      if a[from].id != id {
        FirstIdConcat(a, b, id, from + 1);
      }
    }
  }

  /** Appending nodes keeps the parents found in `a`; the others are found in the appended part, if at all. */
  lemma ParentPosPrefix(a: seq<Node>, b: seq<Node>, i: nat)
    requires i < |a|
    ensures ParentPos(a, i).Some? ==> ParentPos(a + b, i) == ParentPos(a, i)
    ensures ParentPos(a, i).None? ==> ParentPos(a + b, i).None? || ParentPos(a + b, i).value >= |a|
  {
    assert (a + b)[i] == a[i];
    if a[i].parentId.Some? {
      FirstIdConcat(a, b, a[i].parentId.value, i + 1);
    }
  }

  /** Prepending nodes shifts the parents found in `b`. */
  lemma ParentPosSuffix(a: seq<Node>, b: seq<Node>, i: nat)
    requires i < |b|
    ensures ParentPos(a + b, |a| + i) == Shift(ParentPos(b, i), |a|)
  {
    assert (a + b)[|a| + i] == b[i];
    if b[i].parentId.Some? {
      FirstIdShift(a, b, b[i].parentId.value, i + 1);
    }
  }

  /** No node of `ns` carries the id `top`. */
  predicate IdFree(ns: seq<Node>, top: Option<string>) {
    top.Some? ==> forall k :: 0 <= k < |ns| ==> ns[k].id != top.value
  }

  lemma ShapedIdFree(w: Walk, path: seq<string>)
    requires Shaped(w, path)
    ensures IdFree(w.nodes, PathId(path))
  {
    if path != [] {
      forall k | 0 <= k < |w.nodes|
        ensures w.nodes[k].id != Join(path)
      {
        UnderIdDiffers(w.nodes[k], path);
      }
    }
  }

  /** A direct child (`parentId == top`) of `a` finds no parent in `a + b` when neither part holds `top`. */
  lemma DirectStaysTop(a: seq<Node>, b: seq<Node>, top: Option<string>, i: nat)
    requires i < |a| && a[i].parentId == top
    requires IdFree(a, top) && IdFree(b, top)
    ensures ParentPos(a + b, i).None?
  {
    assert (a + b)[i] == a[i];
    if top.Some? {
      FirstIdConcat(a, b, top.value, i + 1);
    }
  }

  /** A direct child of `sub` finds its parent in the node `g` appended after it. */
  lemma DirectFindsGroup(sub: seq<Node>, g: Node, i: nat)
    requires i < |sub| && sub[i].parentId == Some(g.id)
    requires IdFree(sub, Some(g.id))
    ensures ParentPos(sub + [g], i) == Some(|sub|)
  {
    assert (sub + [g])[i] == sub[i];
    FirstIdConcat(sub, [g], g.id, i + 1);
  }

  // ---------------------------------------------------------------- nesting

  /**
   * Every node is a direct child of the object the list was emitted for
   * (`parentId == top`) or finds its parent later in the list, and that
   * parent is a container.
   */
  predicate Nested(ns: seq<Node>, top: Option<string>) {
    forall i {:trigger ParentPos(ns, i)} :: 0 <= i < |ns| ==>
      ns[i].parentId == top || (ParentPos(ns, i).Some? && ns[ParentPos(ns, i).value].data.GroupData?)
  }

  lemma NestedThen(a: seq<Node>, b: seq<Node>, top: Option<string>)
    requires Nested(a, top) && Nested(b, top)
    ensures Nested(a + b, top)
  {
    var ab := a + b;
    forall i | 0 <= i < |ab|
      ensures ab[i].parentId == top || (ParentPos(ab, i).Some? && ab[ParentPos(ab, i).value].data.GroupData?)
    {
      if i < |a| {
        assert ab[i] == a[i];
        ParentPosPrefix(a, b, i);
        if a[i].parentId != top {
          assert ab[ParentPos(a, i).value] == a[ParentPos(a, i).value];
        }
      } else {
        assert ab[i] == b[i - |a|];
        ParentPosSuffix(a, b, i - |a|);
        if b[i - |a|].parentId != top {
          assert ab[ParentPos(ab, i).value] == b[ParentPos(b, i - |a|).value];
        }
      }
    }
  }

  lemma NestedGroup(sub: seq<Node>, g: Node, top: Option<string>)
    requires Nested(sub, Some(g.id)) && IdFree(sub, Some(g.id))
    requires g.data.GroupData? && g.parentId == top
    ensures Nested(sub + [g], top)
  {
    var ns := sub + [g];
    forall i | 0 <= i < |ns|
      ensures ns[i].parentId == top || (ParentPos(ns, i).Some? && ns[ParentPos(ns, i).value].data.GroupData?)
    {
      if i < |sub| {
        assert ns[i] == sub[i];
        if sub[i].parentId == Some(g.id) {
          DirectFindsGroup(sub, g, i);
        } else {
          ParentPosPrefix(sub, [g], i);
          assert ns[ParentPos(sub, i).value] == sub[ParentPos(sub, i).value];
        }
      }
    }
  }

  // ---------------------------------------------------------------- counts

  function Sum(xs: seq<nat>): nat {
    if xs == [] then 0 else xs[0] + Sum(xs[1..])
  }

  lemma {:induction false} SumConcat(xs: seq<nat>, ys: seq<nat>)
    ensures Sum(xs + ys) == Sum(xs) + Sum(ys)
  {
    if xs == [] {
      assert xs + ys == ys;
    } else {
      assert (xs + ys)[1..] == xs[1..] + ys;
      SumConcat(xs[1..], ys);
    }
  }

  lemma {:induction false} SumZero(xs: seq<nat>)
    requires forall k :: 0 <= k < |xs| ==> xs[k] == 0
    ensures Sum(xs) == 0
  {
    if xs != [] {
      SumZero(xs[1..]);
    }
  }

  /** What a child adds to its container's `tokenCount`: one for a token, its own count for a container. */
  function Weight(n: Node): nat {
    if n.data.TokenData? then 1 else n.data.tokenCount
  }

  /** The weights of the direct children (`parentId == top`) of the object a list was emitted for. */
  function DirectTerms(ns: seq<Node>, top: Option<string>): seq<nat> {
    seq(|ns|, i requires 0 <= i < |ns| => if ns[i].parentId == top then Weight(ns[i]) else 0)
  }

  /** The weights of the nodes whose parent is node `j`. */
  function ChildTerms(ns: seq<Node>, j: nat): seq<nat>
    requires j <= |ns|
  {
    seq(j, i requires 0 <= i < j => if ParentPos(ns, i) == Some(j) then Weight(ns[i]) else 0)
  }

  lemma ChildTermAt(ns: seq<Node>, j: nat, i: nat)
    requires i < j <= |ns|
    ensures ChildTerms(ns, j)[i] == if ParentPos(ns, i) == Some(j) then Weight(ns[i]) else 0
  {
  }

  /** Every container's `tokenCount` is the sum of the weights of its children. */
  predicate Aggregated(ns: seq<Node>) {
    forall j {:trigger ChildTerms(ns, j)} :: 0 <= j < |ns| && ns[j].data.GroupData? ==>
      ns[j].data.tokenCount == Sum(ChildTerms(ns, j))
  }

  lemma ChildTermsPrefix(a: seq<Node>, b: seq<Node>, j: nat)
    requires j < |a|
    ensures ChildTerms(a + b, j) == ChildTerms(a, j)
  {
    forall i | 0 <= i < j
      ensures ChildTerms(a + b, j)[i] == ChildTerms(a, j)[i]
    {
      assert (a + b)[i] == a[i];
      ParentPosPrefix(a, b, i);
    }
  }

  /** No node of `a` finds its parent in `b`. */
  predicate ParentsWithin(a: seq<Node>, b: seq<Node>) {
    forall i :: 0 <= i < |a| ==> ParentPos(a + b, i).None? || ParentPos(a + b, i).value < |a|
  }

  /** No node before position `d` finds its parent at `d` or later. */
  predicate ParentsBelow(ns: seq<Node>, d: nat) {
    forall i :: 0 <= i < d && i < |ns| ==> ParentPos(ns, i).None? || ParentPos(ns, i).value < d
  }

  lemma ChildTermsHeadZero(ns: seq<Node>, d: nat, j: nat, c: seq<nat>)
    requires d + j < |ns| && ParentsBelow(ns, d) && c == ChildTerms(ns, d + j)
    ensures forall i :: 0 <= i < d ==> c[i] == 0
  {
  }

  /** `b` sits in `ns` from position `d` to the end. */
  predicate SuffixAt(ns: seq<Node>, b: seq<Node>, d: nat) {
    d <= |ns| && ns[d..] == b
  }

  lemma SuffixOfConcat(a: seq<Node>, b: seq<Node>)
    ensures SuffixAt(a + b, b, |a|)
  {
  }

  lemma {:induction false} FirstIdAt(ns: seq<Node>, b: seq<Node>, d: nat, id: string, from: nat)
    requires SuffixAt(ns, b, d)
    ensures FirstIdFrom(ns, id, d + from) == Shift(FirstIdFrom(b, id, from), d)
    decreases |b| - from
  {
    if from < |b| {
      assert ns[d + from] == ns[d..][from];
      if b[from].id != id {
        FirstIdAt(ns, b, d, id, from + 1);
      }
    }
  }

  lemma ParentPosAt(ns: seq<Node>, b: seq<Node>, d: nat, i: nat)
    requires SuffixAt(ns, b, d) && i < |b|
    ensures ParentPos(ns, d + i) == Shift(ParentPos(b, i), d)
  {
    assert ns[d + i] == ns[d..][i];
    if b[i].parentId.Some? {
      FirstIdAt(ns, b, d, b[i].parentId.value, i + 1);
    }
  }

  /** The term of `ns` at position `d + i` is the `i`-th term of `b`'s, when `b` sits in `ns` from `d`. */
  lemma ChildTermsTailAt(ns: seq<Node>, b: seq<Node>, d: nat, j: nat, i: nat)
    requires SuffixAt(ns, b, d) && i < j < |b|
    ensures ChildTerms(ns, d + j)[d + i] == ChildTerms(b, j)[i]
  {
    ParentPosAt(ns, b, d, i);
    assert ns[d + i] == ns[d..][i];
    ShiftedChildTerm(ns, b, d, j, i);
  }

  /** A node and its parent link carried over from `b[i]`, shifted by `d`, give the same term. */
  lemma ShiftedChildTerm(ns: seq<Node>, b: seq<Node>, d: nat, j: nat, i: nat)
    requires i < j < |b| && d + j <= |ns|
    requires ns[d + i] == b[i] && ParentPos(ns, d + i) == Shift(ParentPos(b, i), d)
    ensures ChildTerms(ns, d + j)[d + i] == ChildTerms(b, j)[i]
  {
    ChildTermAt(ns, d + j, d + i);
    ChildTermAt(b, j, i);
    ShiftedTerm(ParentPos(ns, d + i), ParentPos(b, i), d, j, Weight(ns[d + i]), Weight(b[i]));
  }

  /** A parent position shifted by `d` names the parent `d + j` exactly when the original names `j`. */
  lemma ShiftedTerm(p: Option<nat>, q: Option<nat>, d: nat, j: nat, v: nat, w: nat)
    requires p == Shift(q, d) && v == w
    ensures (if p == Some(d + j) then v else 0) == (if q == Some(j) then w else 0)
  {
  }

  /** Past position `d`, the child terms of node `d + j` are those `b` gives node `j`. */
  lemma ChildTermsTail(ns: seq<Node>, b: seq<Node>, d: nat, j: nat)
    requires SuffixAt(ns, b, d) && j < |b|
    ensures ChildTerms(ns, d + j)[d..] == ChildTerms(b, j)
  {
    var c := ChildTerms(ns, d + j);
    var e := ChildTerms(b, j);
    forall i | 0 <= i < j
      ensures c[d..][i] == e[i]
    {
      ChildTermsTailAt(ns, b, d, j, i);
      assert c[d..][i] == c[d + i];
    }
    assert |c[d..]| == |e|;
  }

  lemma ChildTermsSuffix(ns: seq<Node>, b: seq<Node>, d: nat, j: nat)
    requires SuffixAt(ns, b, d) && j < |b| && ParentsBelow(ns, d)
    ensures Sum(ChildTerms(ns, d + j)) == Sum(ChildTerms(b, j))
  {
    var c := ChildTerms(ns, d + j);
    var lo, hi := c[..d], c[d..];
    assert c == lo + hi;
    ChildTermsHeadZero(ns, d, j, c);
    SumZero(lo);
    ChildTermsTail(ns, b, d, j);
    SumConcat(lo, hi);
  }

  lemma ThenParentsWithin(a: seq<Node>, b: seq<Node>, top: Option<string>)
    requires Nested(a, top) && IdFree(a, top) && IdFree(b, top)
    ensures ParentsWithin(a, b)
  {
    forall i | 0 <= i < |a|
      ensures ParentPos(a + b, i).None? || ParentPos(a + b, i).value < |a|
    {
      ParentPosPrefix(a, b, i);
      if a[i].parentId == top {
        DirectStaysTop(a, b, top, i);
      }
    }
  }

  lemma AggregatedPrefixAt(a: seq<Node>, b: seq<Node>, j: nat)
    requires Aggregated(a) && j < |a| && a[j].data.GroupData?
    ensures a[j].data.tokenCount == Sum(ChildTerms(a + b, j))
  {
    ChildTermsPrefix(a, b, j);
  }

  lemma AggregatedSuffixAt(a: seq<Node>, b: seq<Node>, j: nat)
    requires Aggregated(b) && ParentsWithin(a, b) && j < |b| && b[j].data.GroupData?
    ensures b[j].data.tokenCount == Sum(ChildTerms(a + b, |a| + j))
  {
    SuffixOfConcat(a, b);
    assert ParentsBelow(a + b, |a|);
    ChildTermsSuffix(a + b, b, |a|, j);
  }

  lemma AggregatedThen(a: seq<Node>, b: seq<Node>)
    requires Aggregated(a) && Aggregated(b) && ParentsWithin(a, b)
    ensures Aggregated(a + b)
  {
    var ab := a + b;
    forall j | 0 <= j < |ab| && ab[j].data.GroupData?
      ensures ab[j].data.tokenCount == Sum(ChildTerms(ab, j))
    {
      if j < |a| {
        assert ab[j] == a[j];
        AggregatedPrefixAt(a, b, j);
      } else {
        assert ab[j] == b[j - |a|];
        AggregatedSuffixAt(a, b, j - |a|);
      }
    }
  }

  lemma GroupChildTerms(sub: seq<Node>, g: Node)
    requires Nested(sub, Some(g.id)) && IdFree(sub, Some(g.id))
    ensures ChildTerms(sub + [g], |sub|) == DirectTerms(sub, Some(g.id))
  {
    forall i | 0 <= i < |sub|
      ensures ChildTerms(sub + [g], |sub|)[i] == DirectTerms(sub, Some(g.id))[i]
    {
      assert (sub + [g])[i] == sub[i];
      if sub[i].parentId == Some(g.id) {
        DirectFindsGroup(sub, g, i);
      } else {
        ParentPosPrefix(sub, [g], i);
      }
    }
  }

  lemma AggregatedGroupAt(sub: seq<Node>, g: Node, j: nat)
    requires Aggregated(sub) && Nested(sub, Some(g.id)) && IdFree(sub, Some(g.id))
    requires g.data.GroupData? && g.data.tokenCount == Sum(DirectTerms(sub, Some(g.id)))
    requires j <= |sub| && (sub + [g])[j].data.GroupData?
    ensures (sub + [g])[j].data.tokenCount == Sum(ChildTerms(sub + [g], j))
  {
    if j < |sub| {
      assert (sub + [g])[j] == sub[j];
      ChildTermsPrefix(sub, [g], j);
    } else {
      GroupChildTerms(sub, g);
    }
  }

  lemma AggregatedGroup(sub: seq<Node>, g: Node)
    requires Aggregated(sub) && Nested(sub, Some(g.id)) && IdFree(sub, Some(g.id))
    requires g.data.GroupData? && g.data.tokenCount == Sum(DirectTerms(sub, Some(g.id)))
    ensures Aggregated(sub + [g])
  {
    var ns := sub + [g];
    forall j | 0 <= j < |ns| && ns[j].data.GroupData?
      ensures ns[j].data.tokenCount == Sum(ChildTerms(ns, j))
    {
      AggregatedGroupAt(sub, g, j);
    }
  }

  // ---------------------------------------------------------------- categories

  function CategoryOf(n: Node): Category {
    n.data.category
  }

  /** A direct child of a `cat` object: a token takes `cat`, a container derives its own from its name. */
  predicate DirectCategory(n: Node, cat: Category) {
    CategoryOf(n) == if n.data.TokenData? then cat else NextCategory(cat, n.data.Label())
  }

  /**
   * Top-level children of the list's object have the category that object
   * hands down, and every node with a parent in the list relates to that
   * parent's category the same way.
   */
  predicate Categorized(ns: seq<Node>, top: Option<string>, cat: Category) {
    forall i {:trigger ParentPos(ns, i)} :: 0 <= i < |ns| ==>
      && (ns[i].parentId == top ==> DirectCategory(ns[i], cat))
      && (ParentPos(ns, i).Some? ==> DirectCategory(ns[i], CategoryOf(ns[ParentPos(ns, i).value])))
  }

  lemma CategorizedThen(a: seq<Node>, b: seq<Node>, top: Option<string>, cat: Category)
    requires Categorized(a, top, cat) && Categorized(b, top, cat)
    requires Nested(a, top) && IdFree(a, top) && IdFree(b, top)
    ensures Categorized(a + b, top, cat)
  {
    var ab := a + b;
    forall i | 0 <= i < |ab|
      ensures ab[i].parentId == top ==> DirectCategory(ab[i], cat)
      ensures ParentPos(ab, i).Some? ==> DirectCategory(ab[i], CategoryOf(ab[ParentPos(ab, i).value]))
    {
      if i < |a| {
        assert ab[i] == a[i];
        ParentPosPrefix(a, b, i);
        if a[i].parentId == top {
          DirectStaysTop(a, b, top, i);
        } else {
          assert ab[ParentPos(a, i).value] == a[ParentPos(a, i).value];
        }
      } else {
        assert ab[i] == b[i - |a|];
        ParentPosSuffix(a, b, i - |a|);
        if ParentPos(b, i - |a|).Some? {
          assert ab[ParentPos(ab, i).value] == b[ParentPos(b, i - |a|).value];
        }
      }
    }
  }

  lemma CategorizedGroup(sub: seq<Node>, g: Node, top: Option<string>, cat: Category)
    requires Categorized(sub, Some(g.id), CategoryOf(g)) && Nested(sub, Some(g.id)) && IdFree(sub, Some(g.id))
    requires forall k :: 0 <= k < |sub| ==> sub[k].parentId != top
    requires g.parentId == top && DirectCategory(g, cat)
    ensures Categorized(sub + [g], top, cat)
  {
    var ns := sub + [g];
    forall i | 0 <= i < |ns|
      ensures ns[i].parentId == top ==> DirectCategory(ns[i], cat)
      ensures ParentPos(ns, i).Some? ==> DirectCategory(ns[i], CategoryOf(ns[ParentPos(ns, i).value]))
    {
      if i < |sub| {
        assert ns[i] == sub[i];
        if sub[i].parentId == Some(g.id) {
          DirectFindsGroup(sub, g, i);
        } else {
          ParentPosPrefix(sub, [g], i);
          assert ns[ParentPos(sub, i).value] == sub[ParentPos(sub, i).value];
        }
      }
    }
  }

  // ---------------------------------------------------------------- walks

  /** The structure one call of `traverse` at `path` with category `cat` emits. */
  predicate Tree(w: Walk, path: seq<string>, cat: Category) {
    && Nested(w.nodes, PathId(path))
    && Aggregated(w.nodes)
    && Categorized(w.nodes, PathId(path), cat)
    && Sum(DirectTerms(w.nodes, PathId(path))) == w.count
  }

  lemma ThenTree(a: Walk, b: Walk, path: seq<string>, cat: Category)
    requires Tree(a, path, cat) && Tree(b, path, cat) && Shaped(a, path) && Shaped(b, path)
    ensures Tree(Then(a, b), path, cat)
  {
    var top := PathId(path);
    ShapedIdFree(a, path);
    ShapedIdFree(b, path);
    NestedThen(a.nodes, b.nodes, top);
    ThenParentsWithin(a.nodes, b.nodes, top);
    AggregatedThen(a.nodes, b.nodes);
    CategorizedThen(a.nodes, b.nodes, top, cat);
    assert DirectTerms(a.nodes + b.nodes, top) == DirectTerms(a.nodes, top) + DirectTerms(b.nodes, top);
    SumConcat(DirectTerms(a.nodes, top), DirectTerms(b.nodes, top));
  }

  lemma LeafTree(key: string, fs: Fields, path: seq<string>, cat: Category)
    ensures Tree(LeafWalk(key, fs, path, cat), path, cat)
  {
    var w := LeafWalk(key, fs, path, cat);
    assert ParentPos(w.nodes, 0).None?;
    assert DirectTerms(w.nodes, PathId(path)) == [1];
    assert [1][1..] == [];
  }

  lemma GroupTree(key: string, path: seq<string>, cat: Category, sub: Walk)
    requires !IsMetaKey(key)
    requires Tree(sub, path + [key], NextCategory(cat, key)) && Shaped(sub, path + [key])
    ensures Tree(GroupWalk(key, path, NextCategory(cat, key), sub), path, cat)
  {
    var next := NextCategory(cat, key);
    var top := PathId(path);
    var g := ContainerNode(key, path, next, sub);
    ChildUnder(path, key);
    assert PathId(path + [key]) == Some(g.id);
    ShapedIdFree(sub, path + [key]);
    forall k | 0 <= k < |sub.nodes|
      ensures sub.nodes[k].parentId != top
    {
      UnderParent(sub.nodes[k], path, key);
    }
    NestedGroup(sub.nodes, g, top);
    AggregatedGroup(sub.nodes, g);
    CategorizedGroup(sub.nodes, g, top, cat);
    var ds := DirectTerms(sub.nodes, top);
    assert DirectTerms(sub.nodes + [g], top) == ds + [sub.count];
    SumZero(ds);
    SumConcat(ds, [sub.count]);
  }

  lemma {:induction false} EntryTree(m: Member, path: seq<string>, cat: Category)
    ensures Tree(EntryWalk(m, path, cat), path, cat)
    decreases Size(m.value), 0
  {
    if IsMetaKey(m.key) {
      assert DirectTerms([], PathId(path)) == [];
    } else if IsTokenObject(m.value) {
      LeafTree(m.key, m.value.fields, path, cat);
    } else if IsGroupValue(m.value) {
      EntriesSmaller(m.value);
      var next := NextCategory(cat, m.key);
      TraverseTree(ForInEntries(m.value), path + [m.key], next);
      TraverseShaped(ForInEntries(m.value), path + [m.key], next);
      GroupTree(m.key, path, cat, TraverseEntries(ForInEntries(m.value), path + [m.key], next));
    } else {
      assert DirectTerms([], PathId(path)) == [];
    }
  }

  lemma {:induction false} TraverseTree(es: Fields, path: seq<string>, cat: Category)
    ensures Tree(TraverseEntries(es, path, cat), path, cat)
    decreases FieldsSize(es), 1
  {
    if es == [] {
      assert DirectTerms([], PathId(path)) == [];
    } else {
      EntryTree(es[0], path, cat);
      TraverseTree(es[1..], path, cat);
      EntryShaped(es[0], path, cat);
      TraverseShaped(es[1..], path, cat);
      ThenTree(EntryWalk(es[0], path, cat), TraverseEntries(es[1..], path, cat), path, cat);
    }
  }

  /**
   * Every node of the parse is at top level or finds its parent later in
   * the list, and that parent is a container: children precede parents.
   */
  lemma ParentsFollowChildren(doc: Json)
    ensures var ns := ParseTokens(doc).nodes;
      forall i :: 0 <= i < |ns| && ns[i].parentId.Some? ==>
        ParentPos(ns, i).Some? && ns[ParentPos(ns, i).value].data.GroupData?
  {
    TraverseTree(ForInEntries(doc), [], Primitive);
  }

  /** A container's `tokenCount` is one per token child plus its container children's counts. */
  lemma TokenCountsAggregate(doc: Json)
    ensures Aggregated(ParseTokens(doc).nodes)
  {
    TraverseTree(ForInEntries(doc), [], Primitive);
  }

  /**
   * Top-level tokens are primitives, top-level containers take the category
   * their name gives a primitive group; below that, a token has its
   * container's category and a container derives its own from its parent's.
   */
  lemma CategoriesFlowDown(doc: Json)
    ensures Categorized(ParseTokens(doc).nodes, None, Primitive)
  {
    TraverseTree(ForInEntries(doc), [], Primitive);
  }

  /** Where ids are unique, every node whose `parentId` names a node comes before that node. */
  lemma ChildrenBeforeParents(doc: Json)
    requires DistinctIds(ParseTokens(doc).nodes)
    ensures ChildrenFirst(ParseTokens(doc).nodes)
  {
    var ns := ParseTokens(doc).nodes;
    ParentsFollowChildren(doc);
    forall c, p | 0 <= c < |ns| && 0 <= p < |ns| && ns[c].parentId == Some(ns[p].id)
      ensures c < p
    {
      var q := ParentPos(ns, c).value;
      assert ns[q].id == ns[p].id;
      assert q == p;
    }
  }

  /** No category word occurs in `color`, so a top-level `color` group stays primitive. */
  lemma ColorStaysPrimitive()
    ensures NextCategory(Primitive, "color") == Primitive
  {
    assert Lower("color") == "color";
    var words := ["brand", "decision", "global", "component", "theme", "semantic"];
    forall w | w in words
      ensures !Contains("color", w)
    {
      ContainsNotLonger("color", w);
    }
    assert !ContainsAny("color", ["brand", "decision", "global"]) by {
      forall i | 0 <= i < 3
        ensures !Contains("color", ["brand", "decision", "global"][i])
      {
        assert ["brand", "decision", "global"][i] in words;
      }
    }
    assert !ContainsAny("color", ["component", "theme", "semantic"]) by {
      forall i | 0 <= i < 3
        ensures !Contains("color", ["component", "theme", "semantic"][i])
      {
        assert ["component", "theme", "semantic"][i] in words;
      }
    }
  }

  const BlueFields: Fields := [Member("value", JStr("#0000ff"))]
  const LinkFields: Fields := [Member("value", JStr("{color.blue}"))]

  /** `color.blue`: a colour token (its type inferred from the `#`), no alias. */
  lemma BlueLeaf()
    ensures var w := LeafWalk("blue", BlueFields, ["color"], Primitive);
      && w.count == 1 && |w.nodes| == 1 && w.edges == []
      && w.nodes[0].id == "color.blue" && w.nodes[0].kind == TokenNode
      && w.nodes[0].data.TokenType() == Some(JStr("color"))
  {
    assert Join(["color", "blue"]) == "color.blue";
    assert StartsWith("#0000ff", "#");
    assert RawValue(BlueFields) == Some(JStr("#0000ff"));
    BlueNoTarget();
  }

  lemma BlueNoTarget()
    ensures AliasTarget(Str("#0000ff")).None?
  {
    assert !EndsWith("#0000ff", "}") by {
      assert "#0000ff"[6..] != "}";
    }
  }

  /** `color.link`: an alias of `color.blue`, hence one animated edge into it. */
  lemma LinkLeaf()
    ensures var w := LeafWalk("link", LinkFields, ["color"], Primitive);
      && w.count == 1 && |w.nodes| == 1
      && w.nodes[0].id == "color.link" && w.nodes[0].data.Value() == Str("{color.blue}")
      && w.edges == [Edge("e-color.blue-color.link", "color.blue", "color.link", true)]
  {
    assert Join(["color", "link"]) == "color.link";
    assert RawValue(LinkFields) == Some(JStr("{color.blue}"));
    LinkTarget();
    assert "e-" + "color.blue" + "-" + "color.link" == "e-color.blue-color.link";
  }

  lemma LinkTarget()
    ensures AliasTarget(Str("{color.blue}")) == Some("color.blue")
  {
    assert StartsWith("{color.blue}", "{") && EndsWith("{color.blue}", "}");
    assert "{color.blue}"[1..11] == "color.blue";
  }

  const Blue := Member("blue", JObj(BlueFields))
  const Link := Member("link", JObj(LinkFields))
  const ColorGroup := Member("color", JObj([Blue, Link]))

  lemma ColorContents()
    ensures TraverseEntries([Blue, Link], ["color"], Primitive) ==
      Then(LeafWalk("blue", BlueFields, ["color"], Primitive), Then(LeafWalk("link", LinkFields, ["color"], Primitive), NoWalk))
  {
    assert !IsMetaKey("blue") && !IsMetaKey("link") by {
      assert "blue"[..1][0] == 'b' && "link"[..1][0] == 'l';
    }
    assert IsTokenObject(Blue.value) && IsTokenObject(Link.value) by {
      assert BlueFields[0].key == "value" && LinkFields[0].key == "value";
    }
    assert TraverseEntries([Link], ["color"], Primitive) == Then(EntryWalk(Link, ["color"], Primitive), NoWalk) by {
      assert [Link][1..] == [];
    }
    assert [Blue, Link][1..] == [Link];
  }

  lemma ColorEntry()
    ensures EntryWalk(ColorGroup, [], Primitive) ==
      GroupWalk("color", [], Primitive, TraverseEntries([Blue, Link], ["color"], Primitive))
  {
    assert !IsMetaKey("color") by {
      assert "color"[..1][0] == 'c';
    }
    assert !IsTokenObject(ColorGroup.value) by {
      var fs := [Blue, Link];
      forall i | 0 <= i < |fs|
        ensures fs[i].key != "value" && fs[i].key != "$value"
      {
      }
    }
    ColorStaysPrimitive();
    assert [] + ["color"] == ["color"];
  }

  /**
   * `{"color": {"blue": {"value": "#0000ff"}, "link": {"value": "{color.blue}"}}}`
   * gives two tokens inside a section, the section last, and one animated
   * edge from the referenced token to the alias.
   */
  lemma AliasDocument()
    ensures var p := ParseTokens(JObj([ColorGroup]));
      && |p.nodes| == 3
      && p.nodes[0].id == "color.blue" && p.nodes[0].kind == TokenNode
      && p.nodes[0].data.TokenType() == Some(JStr("color"))
      && p.nodes[1].id == "color.link" && p.nodes[1].data.Value() == Str("{color.blue}")
      && p.nodes[2].id == "color" && p.nodes[2].kind == SectionNode
      && p.nodes[2].data.GroupData? && p.nodes[2].data.tokenCount == 2
      && p.edges == [Edge("e-color.blue-color.link", "color.blue", "color.link", true)]
  {
    var blue := LeafWalk("blue", BlueFields, ["color"], Primitive);
    var link := LeafWalk("link", LinkFields, ["color"], Primitive);
    var contents := Then(blue, Then(link, NoWalk));
    BlueLeaf();
    LinkLeaf();
    ColorDocument();
    assert contents.nodes == [blue.nodes[0], link.nodes[0]];
    assert contents.edges == link.edges;
  }

  /** The example document parses to the walk of the `color` group over its two tokens. */
  lemma ColorDocument()
    ensures var contents := Then(LeafWalk("blue", BlueFields, ["color"], Primitive), Then(LeafWalk("link", LinkFields, ["color"], Primitive), NoWalk));
      var w := GroupWalk("color", [], Primitive, contents);
      ParseTokens(JObj([ColorGroup])) == Parsed(w.nodes, w.edges)
  {
    ColorContents();
    ColorEntry();
    assert TraverseEntries([ColorGroup], [], Primitive) == Then(EntryWalk(ColorGroup, [], Primitive), NoWalk) by {
      assert [ColorGroup][1..] == [];
    }
  }
}
