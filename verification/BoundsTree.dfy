/**
 The index that gives every painted rectangle its z-order: an append-only R-tree in a vector of nodes.

 `Insert` answers one more than the largest order of any earlier rectangle that the new one meets.
 The specification is the linear scan `MaxIntersecting` over `History()`; the tree, its fast path and
 both kinds of pruning are proved to agree with it.
 */
module BoundsTree {
  import opened Wrappers
  import opened Geometry
  import opened OrderTree
  import opened NodeStore
  import opened TreeSearch
  import opened InsertPath

  /** The tree with one more leaf, which takes the next free index. */
  ghost function Grown(tree: Option<Tree>, leafIdx: nat, bounds: Bounds, order: nat): Tree {
    var leaf := Tree.Leaf(leafIdx, bounds, order);
    if tree.None? then leaf else Inserted(tree.value, leaf, leafIdx + 1)
  }

  class BoundsTree {
    var nodes: seq<Node>
    var root: Option<nat>
    var maxLeaf: Option<nat>
    var insertPath: seq<nat>
    var searchStack: seq<nat>
    // The value of the tree rooted at `root`.
    ghost var tree: Option<Tree>

    function History(): seq<Entry>
      reads this
    {
      LeafEntries(nodes)
    }

    ghost predicate Valid()
      reads this
    {
      && Indexed(nodes, root, tree)
      && TracksMax(nodes, maxLeaf)
      && LinearScan(History())
    }

    constructor ()
      ensures Valid() && History() == []
    {
      nodes, root, maxLeaf, insertPath, searchStack := [], None, None, [], [];
      tree := None;
    }

    method Clear()
      modifies this
      ensures Valid() && History() == []
    {
      nodes, root, maxLeaf, insertPath, searchStack := [], None, None, [], [];
      tree := None;
    }

    /** Pushes the children whose largest order is above `floor`, in order. */
    method PushPromising(children: NodeChildren, floor: nat, ghost base: seq<Tree>, ghost kids: seq<Tree>)
      requires Listed(nodes, children.AsSlice(), kids)
      requires searchStack == Ids(base)
      modifies this`searchStack
      ensures searchStack == Ids(base + Promising(kids, floor))
    {
      var slice := children.AsSlice();
      assert base + Promising(kids[..0], floor) == base;
      for k := 0 to |slice|
        invariant searchStack == Ids(base + Promising(kids[..k], floor))
      {
        PromisingStep(nodes, slice, kids, k, k + 1, floor, base);
        if nodes[slice[k]].maxOrder > floor {
          searchStack := searchStack + [slice[k]];
        }
      }
      assert kids[..|slice|] == kids;
    }

    /** The slow path: depth-first from the root, best child first, pruned by order and by position. */
    method Search(rootIdx: nat, query: Bounds) returns (maxFound: nat)
      requires Indexed(nodes, root, tree) && root == Some(rootIdx)
      modifies this`searchStack
      ensures maxFound == MaxIntersecting(History(), query)
    {
      searchStack := [rootIdx];
      maxFound := 0;
      ghost var trees := [tree.value];
      StartSearch(nodes, root, tree, query);
      while searchStack != []
        invariant Pending(nodes, searchStack, trees)
        invariant NothingMissed(History(), query, maxFound, trees)
        decreases TotalSize(trees)
      {
        var last := |searchStack| - 1;
        ghost var base, top := trees[..last], trees[last];
        TopNode(nodes, searchStack, trees);
        var node := nodes[searchStack[last]];
        searchStack := searchStack[..last];
        if node.maxOrder <= maxFound || !query.Intersects(node.bounds) {
          DropTop(History(), query, maxFound, base, top);
          trees := base;
          continue;
        }
        match node.kind
        case Leaf(order) =>
          TakeLeaf(History(), query, maxFound, base, top);
          maxFound := Max(maxFound, order);
          trees := base;
        case Internal(children) =>
          PushPromising(children, maxFound, base, top.kids);
          Expand(History(), query, maxFound, base, top);
          TotalSizeConcat(base, Promising(top.kids, maxFound));
          trees := base + Promising(top.kids, maxFound);
          PromisingPending(nodes, base, top, maxFound);
      }
      NothingLeft(History(), query, maxFound);
    }

    /** The fast path and the pruned search return what the linear scan returns. */
    method FindMaxOrdering(query: Bounds) returns (maxFound: nat)
      requires Indexed(nodes, root, tree) && TracksMax(nodes, maxLeaf)
      modifies this`searchStack
      ensures maxFound == MaxIntersecting(History(), query)
    {
      if root.None? {
        return 0;
      }
      if maxLeaf.Some? {
        var maxNode := nodes[maxLeaf.value];
        if query.Intersects(maxNode.bounds) {
          LeafIsInHistory(nodes, maxLeaf.value);
          IntersectsSymmetric(query, maxNode.bounds);
          MaxIntersectingIs(History(), query, maxNode.maxOrder);
          return maxNode.maxOrder;
        }
      }
      maxFound := Search(root.value, query);
    }

    /** The first child whose box grows to the smallest half perimeter. */
    method ChooseChild(children: NodeChildren, bounds: Bounds, ghost kids: seq<Tree>) returns (bestPos: nat)
      requires Listed(nodes, children.AsSlice(), kids) && kids != []
      ensures bestPos == BestChild(bounds, kids)
    {
      var slice := children.AsSlice();
      bestPos := 0;
      var bestCost := bounds.Union(nodes[slice[0]].bounds).HalfPerimeter();
      for pos := 1 to |slice|
        invariant bestPos == BestAmong(bounds, kids, pos)
        invariant bestCost == Cost(bounds, kids[bestPos])
      {
        var cost := bounds.Union(nodes[slice[pos]].bounds).HalfPerimeter();
        if cost < bestCost {
          bestCost, bestPos := cost, pos;
        }
      }
    }

    /** The way down: records the branches visited, ending at one whose best child is a leaf. */
    method Descend(rootIdx: nat, bounds: Bounds, ghost path: seq<Tree>) returns (currentIdx: nat, bestPos: nat)
      requires Linked(nodes, path, bounds) && path[0].id == rootIdx
      modifies this`insertPath
      ensures insertPath == Ids(path)
      ensures currentIdx == path[|path| - 1].id
      ensures bestPos == BestChild(bounds, path[|path| - 1].kids)
    {
      insertPath := [];
      currentIdx := rootIdx;
      while true
        invariant |insertPath| < |path|
        invariant insertPath == Ids(path[..|insertPath|])
        invariant currentIdx == path[|insertPath|].id
        decreases |path| - |insertPath|
      {
        ghost var j := |insertPath|;
        ghost var current := path[j];
        AtPathStep(nodes, path, j, bounds);
        var children := nodes[currentIdx].kind.children;
        insertPath := insertPath + [currentIdx];
        bestPos := ChooseChild(children, bounds, current.kids);
        var bestChildIdx := children.AsSlice()[bestPos];
        if nodes[bestChildIdx].kind.Leaf? {
          assert path[..|insertPath|] == path;
          return;
        }
        currentIdx := bestChildIdx;
      }
    }

    /** A branch with room takes the leaf. */
    method AttachDirectly(currentIdx: nat, leafIdx: nat, bounds: Bounds, order: nat,
                          ghost nodes0: seq<Node>, ghost t: Tree)
      requires Readable(nodes0, t) && t.id == currentIdx && leafIdx == |nodes0|
      requires nodes == nodes0 + [LeafNode(bounds, order)]
      requires |t.kids| < MAX_CHILDREN
      modifies this`nodes
      ensures DirectShape(nodes0, nodes, t, Tree.Leaf(leafIdx, bounds, order))
      ensures |nodes| == |nodes0| + 1
      ensures LeafEntries(nodes) == LeafEntries(old(nodes))
    {
      var node := nodes[currentIdx];
      var children := Push(node.kind.children, leafIdx);
      if order <= node.maxOrder {
        var last := children.len - 1;
        children := SwapSlots(children, last - 1, last);
      }
      var widened := Node(node.bounds.Union(bounds), Max(node.maxOrder, order), Internal(children));
      DirectHolds(nodes0, nodes, t, Tree.Leaf(leafIdx, bounds, order), widened);
      nodes := nodes[currentIdx := widened];
    }

    /** A full branch gets a new branch over its best leaf and the new leaf. */
    method AttachBySplit(currentIdx: nat, bestPos: nat, leafIdx: nat, bounds: Bounds, order: nat,
                         ghost nodes0: seq<Node>, ghost t: Tree, ghost innerId: nat)
      requires Readable(nodes0, t) && t.id == currentIdx && leafIdx == |nodes0| && innerId == leafIdx + 1
      requires nodes == nodes0 + [LeafNode(bounds, order)]
      requires bestPos == BestChild(bounds, t.kids) && t.kids[bestPos].MaxOrder() <= t.maxOrder
      modifies this`nodes
      ensures SplitShape(nodes0, nodes, t, Tree.Leaf(leafIdx, bounds, order), innerId)
      ensures |nodes| == |nodes0| + 2
      ensures LeafEntries(nodes) == LeafEntries(old(nodes))
    {
      var node := nodes[currentIdx];
      var children := node.kind.children;
      var bestChildIdx := children.AsSlice()[bestPos];
      var sibling := nodes[bestChildIdx];
      var pair := if order > sibling.maxOrder then PairOf(bestChildIdx, leafIdx) else PairOf(leafIdx, bestChildIdx);
      var innerIdx := |nodes|;
      var inner := Node(sibling.bounds.Union(bounds), Max(sibling.maxOrder, order), Internal(pair));
      children := SetSlot(children, bestPos, innerIdx);
      if inner.maxOrder > node.maxOrder {
        var last := children.len - 1;
        children := SwapSlots(children, bestPos, last);
      }
      var parent := Node(node.bounds, node.maxOrder, Internal(children));
      SplitHolds(nodes0, nodes, t, Tree.Leaf(leafIdx, bounds, order), innerId, bestPos, sibling, inner, parent);
      nodes := nodes + [inner];
      nodes := nodes[currentIdx := parent];
    }

    /** The way up: every branch on the path is widened, and a child with a new maximum moves last. */
    method Propagate(bounds: Bounds, order: nat)
      requires BranchIds(nodes, insertPath)
      modifies this`nodes
      ensures nodes == Climb(old(nodes), insertPath, bounds, order)
    {
      var updatedChild: Option<nat> := None;
      var j := |insertPath|;
      while j > 0
        invariant 0 <= j <= |insertPath|
        invariant nodes == Climb(old(nodes), insertPath[j..], bounds, order)
        invariant updatedChild == if j < |insertPath| then Some(insertPath[j]) else None
      {
        j := j - 1;
        var nodeIdx := insertPath[j];
        assert insertPath[j..][1..] == insertPath[j + 1..];
        nodes := nodes[nodeIdx := Widened(nodes[nodeIdx], bounds, order, updatedChild)];
        updatedChild := Some(nodeIdx);
      }
      assert insertPath[0..] == insertPath;
    }

    /** A leaf root gets a new root over it and the new leaf. */
    method GrowRoot(rootIdx: nat, leafIdx: nat, bounds: Bounds, order: nat,
                    ghost nodes0: seq<Node>, ghost t: Tree, ghost innerId: nat)
      requires Stored(nodes0, t) && t.Leaf? && t.id == rootIdx && leafIdx == |nodes0| && innerId == leafIdx + 1
      requires nodes == nodes0 + [LeafNode(bounds, order)]
      modifies this`nodes, this`root
      ensures root == Some(innerId) && |nodes| == |old(nodes)| + 1 && old(nodes) <= nodes
      ensures Stored(nodes, Inner(innerId, t, Tree.Leaf(leafIdx, bounds, order)))
      ensures LeafEntries(nodes) == LeafEntries(old(nodes))
    {
      ghost var leaf := Tree.Leaf(leafIdx, bounds, order);
      var rootNode := nodes[rootIdx];
      var children := if order > rootNode.maxOrder then PairOf(rootIdx, leafIdx) else PairOf(leafIdx, rootIdx);
      var newRoot := Node(rootNode.bounds.Union(bounds), Max(rootNode.maxOrder, order), Internal(children));
      var newRootIdx := |nodes|;
      InnerMatches(rootNode, t, leaf, innerId);
      LeafEntriesPush(nodes, newRoot);
      nodes := nodes + [newRoot];
      root := Some(newRootIdx);
      ghost var kids := Pair(t, leaf);
      assert kids == [t, leaf] || kids == [leaf, t];
      assert Stored(nodes, leaf) && Stored(nodes, t);
    }

    /** The lowest branch takes the leaf in one of the two ways. */
    method AttachLeaf(currentIdx: nat, bestPos: nat, leafIdx: nat, bounds: Bounds, order: nat,
                      ghost nodes0: seq<Node>, ghost low: Tree, ghost innerId: nat)
      requires StoredBranch(nodes0, low) && low.id == currentIdx && leafIdx == |nodes0| && innerId == leafIdx + 1
      requires nodes == nodes0 + [LeafNode(bounds, order)]
      requires bestPos == BestChild(bounds, low.kids) && BestKid(low, bounds).Leaf?
      modifies this`nodes
      ensures Attached(nodes0, nodes, low, Tree.Leaf(leafIdx, bounds, order), innerId)
      ensures |nodes| == |nodes0| + if |low.kids| >= MAX_CHILDREN then 2 else 1
      ensures LeafEntries(nodes) == LeafEntries(old(nodes)) && LeavesKept(old(nodes), nodes)
    {
      ghost var leaf := Tree.Leaf(leafIdx, bounds, order);
      BranchIsReadable(nodes0, low, bestPos);
      var current := nodes[currentIdx];
      if current.kind.children.len < MAX_CHILDREN {
        AttachDirectly(currentIdx, leafIdx, bounds, order, nodes0, low);
        DirectIsAttached(nodes0, nodes, low, leaf, innerId);
      } else {
        AttachBySplit(currentIdx, bestPos, leafIdx, bounds, order, nodes0, low, innerId);
        SplitIsAttached(nodes0, nodes, low, leaf, innerId);
      }
      AttachedKeepsLeaves(nodes0, old(nodes), nodes, low, leaf, innerId);
    }

    /** The way down from the root of a stored tree. */
    method FindBranch(rootIdx: nat, bounds: Bounds, ghost nodes0: seq<Node>, ghost t: Tree)
      returns (currentIdx: nat, bestPos: nat)
      requires StoredBranch(nodes0, t) && t.id == rootIdx && nodes0 <= nodes
      modifies this`insertPath
      ensures insertPath == Ids(Descent(t, bounds)) && BranchIds(nodes0, insertPath)
      ensures var low := Lowest(t, bounds);
              && StoredBranch(nodes0, low) && BestKid(low, bounds).Leaf?
              && currentIdx == low.id
              && bestPos == BestChild(bounds, low.kids)
              && (Splits(t, bounds) <==> |low.kids| >= MAX_CHILDREN)
    {
      ghost var path := Descent(t, bounds);
      DescentIsLinked(nodes0, t, bounds);
      LowestIsStored(nodes0, t, bounds);
      LinkedFrame(nodes0, nodes, path, bounds);
      currentIdx, bestPos := Descend(rootIdx, bounds, path);
    }

    /** The way up over the path just recorded finishes the stored tree. */
    method ClimbBack(bounds: Bounds, order: nat,
                     ghost nodes0: seq<Node>, ghost t: Tree, ghost leaf: Tree, ghost innerId: nat, ghost low: Tree)
      requires leaf == Tree.Leaf(|nodes0|, bounds, order) && innerId == leaf.id + 1 && StoredBranch(nodes0, t)
      requires low == Lowest(t, bounds) && StoredBranch(nodes0, low)
      requires insertPath == Ids(Descent(t, bounds)) && BranchIds(nodes0, insertPath)
      requires LeavesKept(nodes0, nodes) && Attached(nodes0, nodes, low, leaf, innerId)
      modifies this`nodes
      ensures Stored(nodes, Inserted(t, leaf, innerId)) && |nodes| == |old(nodes)|
      ensures LeafEntries(nodes) == LeafEntries(old(nodes)) && LeavesKept(old(nodes), nodes)
    {
      ghost var after := FinishedByClimb(nodes0, nodes, t, leaf, innerId, low);
      Propagate(bounds, order);
    }

    /** The branches from the root down take the leaf and are widened again on the way up. */
    method InsertBelow(rootIdx: nat, leafIdx: nat, bounds: Bounds, order: nat,
                       ghost nodes0: seq<Node>, ghost t: Tree, ghost innerId: nat)
      requires StoredBranch(nodes0, t) && t.id == rootIdx && leafIdx == |nodes0| && innerId == leafIdx + 1
      requires nodes == nodes0 + [LeafNode(bounds, order)]
      modifies this`nodes, this`insertPath
      ensures Stored(nodes, Inserted(t, Tree.Leaf(leafIdx, bounds, order), innerId))
      ensures |nodes| == |nodes0| + if Splits(t, bounds) then 2 else 1
      ensures LeafEntries(nodes) == LeafEntries(old(nodes)) && LeavesKept(old(nodes), nodes)
    {
      ghost var leaf := Tree.Leaf(leafIdx, bounds, order);
      ghost var low := Lowest(t, bounds);
      var currentIdx, bestPos := FindBranch(rootIdx, bounds, nodes0, t);
      AttachLeaf(currentIdx, bestPos, leafIdx, bounds, order, nodes0, low, innerId);
      ClimbBack(bounds, order, nodes0, t, leaf, innerId, low);
    }

    /** Adds a leaf; the tree becomes what `OrderTree.Inserted` makes of it. */
    method InsertLeaf(bounds: Bounds, order: nat) returns (newLeafIdx: nat)
      requires Indexed(nodes, root, tree)
      modifies this`nodes, this`root, this`insertPath, this`tree
      ensures Indexed(nodes, root, tree)
      ensures newLeafIdx == |old(nodes)| < |nodes| && nodes[newLeafIdx] == LeafNode(bounds, order)
      ensures tree == Some(Grown(old(tree), newLeafIdx, bounds, order))
      ensures History() == old(History()) + [Entry(bounds, order)]
      ensures LeavesKept(old(nodes), nodes)
    {
      newLeafIdx := |nodes|;
      ghost var nodes0 := nodes;
      ghost var innerId := newLeafIdx + 1;
      ghost var leaf := Tree.Leaf(newLeafIdx, bounds, order);
      LeafEntriesPush(nodes, LeafNode(bounds, order));
      nodes := nodes + [LeafNode(bounds, order)];
      if root.None? {
        root := Some(newLeafIdx);
        tree := Some(leaf);
        FirstLeaf(nodes, leaf);
        return;
      }
      ghost var t := tree.value;
      if nodes[root.value].kind.Leaf? {
        GrowRoot(root.value, newLeafIdx, bounds, order, nodes0, t, innerId);
      } else {
        InsertBelow(root.value, newLeafIdx, bounds, order, nodes0, t, innerId);
      }
      Reindexed(nodes0, nodes, t, leaf, innerId);
      tree := Some(Inserted(t, leaf, innerId));
    }

    /** A leaf with a new maximum becomes the one that the fast path looks at. */
    method RaiseMaxLeaf(newLeafIdx: nat, order: nat, ghost nodes0: seq<Node>)
      requires TracksMax(nodes0, maxLeaf) && LeavesKept(nodes0, nodes)
      requires newLeafIdx < |nodes| && nodes[newLeafIdx].maxOrder == order
      requires nodes[newLeafIdx].kind == NodeKind.Leaf(order)
      requires LeafEntries(nodes) == LeafEntries(nodes0) + [Entry(nodes[newLeafIdx].bounds, order)]
      modifies this`maxLeaf
      ensures TracksMax(nodes, maxLeaf)
    {
      TracksMaxPush(nodes0, nodes, maxLeaf, newLeafIdx, order);
      maxLeaf := match maxLeaf
        case None => Some(newLeafIdx)
        case Some(oldIdx) => if nodes[oldIdx].maxOrder < order then Some(newLeafIdx) else maxLeaf;
    }

    /**
     Inserts a rectangle and returns its order: one more than the largest order of an earlier rectangle
     that it meets, and 1 if it meets none.
     */
    method Insert(newBounds: Bounds) returns (ordering: nat)
      requires Valid()
      modifies this
      ensures Valid()
      ensures ordering == 1 + MaxIntersecting(old(History()), newBounds)
      ensures History() == old(History()) + [Entry(newBounds, ordering)]
      ensures tree == Some(Grown(old(tree), |old(nodes)|, newBounds, ordering))
    {
      var maxIntersecting := FindMaxOrdering(newBounds);
      ordering := maxIntersecting + 1;
      var newLeafIdx := InsertLeaf(newBounds, ordering);
      LinearScanPush(old(History()), newBounds, ordering);
      RaiseMaxLeaf(newLeafIdx, ordering, old(nodes));
    }
  }
}
