/**
 The vector of nodes behind `BoundsTree`, read in two ways: as a tree (`Stored`) and as the list of
 rectangles inserted so far (`LeafEntries`).
 */
module NodeStore {
  import opened Wrappers
  import opened Geometry
  import opened OrderTree

  // ---------- Nodes ----------

  // A fixed array of slots of which the first `len` are in use.
  datatype ChildSlots = ChildSlots(indices: seq<nat>, len: nat) {
    function AsSlice(): seq<nat>
      requires len <= |indices|
    {
      indices[..len]
    }
  }

  type NodeChildren = c: ChildSlots | |c.indices| == MAX_CHILDREN && c.len <= MAX_CHILDREN
    witness ChildSlots(seq(MAX_CHILDREN, _ => 0), 0)

  function NewChildren(): (c: NodeChildren)
    ensures c.AsSlice() == []
  {
    ChildSlots(seq(MAX_CHILDREN, _ => 0), 0)
  }

  function Push(c: NodeChildren, index: nat): (r: NodeChildren)
    requires c.len < MAX_CHILDREN
    ensures r.AsSlice() == c.AsSlice() + [index]
  {
    ChildSlots(c.indices[c.len := index], c.len + 1)
  }

  function SetSlot(c: NodeChildren, pos: nat, index: nat): (r: NodeChildren)
    requires pos < c.len
    ensures r.AsSlice() == c.AsSlice()[pos := index]
  {
    c.(indices := c.indices[pos := index])
  }

  function SwapSlots(c: NodeChildren, i: nat, j: nat): (r: NodeChildren)
    requires i < c.len && j < c.len
    ensures r.AsSlice() == Swap(c.AsSlice(), i, j)
  {
    c.(indices := Swap(c.indices, i, j))
  }

  /** A list of two. */
  function PairOf(first: nat, last: nat): (r: NodeChildren)
    ensures r.AsSlice() == [first, last]
  {
    Push(Push(NewChildren(), first), last)
  }

  datatype NodeKind = Leaf(order: nat) | Internal(children: NodeChildren)

  datatype Node = Node(bounds: Bounds, maxOrder: nat, kind: NodeKind)

  function LeafNode(bounds: Bounds, order: nat): Node {
    Node(bounds, order, NodeKind.Leaf(order))
  }

  // ---------- The vector of nodes as a tree and as a history ----------

  ghost function Ids(ts: seq<Tree>): seq<nat> {
    seq(|ts|, k requires 0 <= k < |ts| => ts[k].id)
  }

  ghost predicate Matches(node: Node, t: Tree) {
    && node.bounds == t.bounds
    && node.maxOrder == t.MaxOrder()
    && match t
       case Leaf(_, _, order) => node.kind == NodeKind.Leaf(order)
       case Branch(_, _, _, kids) => node.kind.Internal? && node.kind.children.AsSlice() == Ids(kids)
  }

  /** The nodes reachable from index `t.id` are laid out as `t`. */
  ghost predicate Stored(nodes: seq<Node>, t: Tree) {
    && t.id < |nodes|
    && Matches(nodes[t.id], t)
    && (t.Branch? ==> forall kid :: kid in t.kids ==> Stored(nodes, kid))
  }

  /** The leaves in index order: the rectangles in the order they were inserted. */
  function LeafEntries(nodes: seq<Node>): seq<Entry> {
    if nodes == [] then
      []
    else
      var last := nodes[|nodes| - 1];
      LeafEntries(nodes[..|nodes| - 1]) +
      if last.kind.Leaf? then [Entry(last.bounds, last.kind.order)] else []
  }

  /** The linear scan: the largest order among the rectangles that meet `q`, or 0. */
  function MaxIntersecting(history: seq<Entry>, q: Bounds): nat {
    if history == [] then
      0
    else
      var last := history[|history| - 1];
      var found := MaxIntersecting(history[..|history| - 1], q);
      if last.bounds.Intersects(q) then Max(found, last.order) else found
  }

  /** Every rectangle has the order that the linear scan over its predecessors gives it. */
  ghost predicate LinearScan(history: seq<Entry>) {
    forall i :: 0 <= i < |history| ==>
                  history[i].order == 1 + MaxIntersecting(history[..i], history[i].bounds)
  }

  lemma {:induction false} MaxIntersectingIs(history: seq<Entry>, q: Bounds, m: nat)
    requires forall e :: e in history && e.bounds.Intersects(q) ==> e.order <= m
    requires m == 0 || exists e :: e in history && e.bounds.Intersects(q) && e.order == m
    ensures m == MaxIntersecting(history, q)
  {
    MaxIntersectingBounds(history, q);
  }

  lemma {:induction false} MaxIntersectingBounds(history: seq<Entry>, q: Bounds)
    ensures forall e :: e in history && e.bounds.Intersects(q) ==> e.order <= MaxIntersecting(history, q)
    ensures MaxIntersecting(history, q) == 0 ||
            exists e :: e in history && e.bounds.Intersects(q) && e.order == MaxIntersecting(history, q)
  {
    if history != [] {
      var rest := history[..|history| - 1];
      var last := history[|history| - 1];
      MaxIntersectingBounds(rest, q);
      assert history == rest + [last];
      if MaxIntersecting(history, q) != 0 && !(last.bounds.Intersects(q) && last.order == MaxIntersecting(history, q)) {
        var e :| e in rest && e.bounds.Intersects(q) && e.order == MaxIntersecting(rest, q);
        assert e in history;
      }
    }
  }

  lemma LeafEntriesPush(nodes: seq<Node>, node: Node)
    ensures LeafEntries(nodes + [node]) ==
            LeafEntries(nodes) + if node.kind.Leaf? then [Entry(node.bounds, node.kind.order)] else []
  {
    assert (nodes + [node])[..|nodes|] == nodes;
  }

  lemma {:induction false} LeafEntriesUpdate(nodes: seq<Node>, i: nat, node: Node)
    requires i < |nodes| && nodes[i].kind.Internal? && node.kind.Internal?
    ensures LeafEntries(nodes[i := node]) == LeafEntries(nodes)
  {
    var n := |nodes| - 1;
    if i == n {
      assert nodes[i := node][..n] == nodes[..n];
    } else {
      LeafEntriesUpdate(nodes[..n], i, node);
      assert nodes[i := node][..n] == nodes[..n][i := node];
    }
  }

  lemma {:induction false} LeafIsInHistory(nodes: seq<Node>, i: nat)
    requires i < |nodes| && nodes[i].kind.Leaf?
    ensures Entry(nodes[i].bounds, nodes[i].kind.order) in LeafEntries(nodes)
  {
    if i < |nodes| - 1 {
      LeafIsInHistory(nodes[..|nodes| - 1], i);
    }
  }

  /** A subtree is untouched by writes to nodes it does not own. */
  lemma {:induction false} StoredFrame(nodes: seq<Node>, after: seq<Node>, t: Tree)
    requires Stored(nodes, t) && |nodes| <= |after|
    requires forall i: nat :: i < |nodes| && Owns(t, i) ==> after[i] == nodes[i]
    ensures Stored(after, t)
    decreases t
  {
    assert Owns(t, t.id);
    if t.Branch? {
      forall kid | kid in t.kids ensures Stored(after, kid) {
        assert forall i: nat :: Owns(kid, i) ==> Owns(t, i);
        StoredFrame(nodes, after, kid);
      }
    }
  }

  /** The nodes at `slice` are the roots of `kids`. */
  ghost predicate Listed(nodes: seq<Node>, slice: seq<nat>, kids: seq<Tree>) {
    && |slice| == |kids|
    && forall k :: 0 <= k < |kids| ==>
                     slice[k] == kids[k].id && slice[k] < |nodes| && Matches(nodes[slice[k]], kids[k])
  }

  lemma {:induction false} StoredKids(nodes: seq<Node>, t: Tree)
    requires Stored(nodes, t) && t.Branch?
    ensures Listed(nodes, Ids(t.kids), t.kids)
  {
    forall k | 0 <= k < |t.kids|
      ensures t.kids[k].id < |nodes| && Matches(nodes[t.kids[k].id], t.kids[k])
    {
      assert t.kids[k] in t.kids;
    }
  }

  // ---------- The whole index ----------

  /** `nodes` and `root` are one tree `t` that reaches every node exactly once. */
  ghost predicate Indexed(nodes: seq<Node>, root: Option<nat>, tree: Option<Tree>) {
    match root
    case None => nodes == [] && tree == None
    case Some(r) =>
      && tree.Some?
      && tree.value.id == r
      && Sound(tree.value)
      && Distinct(tree.value)
      && Stored(nodes, tree.value)
      && (forall i: nat :: Owns(tree.value, i) <==> i < |nodes|)
      && (forall e :: HasEntry(tree.value, e) <==> e in LeafEntries(nodes))
  }

  /** `maxLeaf` is a leaf with the largest order of all. */
  ghost predicate TracksMax(nodes: seq<Node>, maxLeaf: Option<nat>) {
    match maxLeaf
    case None => nodes == []
    case Some(i) =>
      && i < |nodes|
      && nodes[i].kind == NodeKind.Leaf(nodes[i].maxOrder)
      && forall e :: e in LeafEntries(nodes) ==> e.order <= nodes[i].maxOrder
  }
}
