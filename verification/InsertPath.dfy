/**
 The two passes of a leaf insertion over the stored nodes: down to the branch that takes the new leaf
 (`Descent`), then back up along the recorded path.  `Attached` and `Updated` say how far the stored
 tree already is the tree `OrderTree.Inserted` computes.
 */
module InsertPath {
  import opened Wrappers
  import opened Geometry
  import opened OrderTree
  import opened NodeStore

  ghost function BestKid(t: Tree, b: Bounds): (kid: Tree)
    requires Open(t)
    ensures kid in t.kids
  {
    t.kids[BestChild(b, t.kids)]
  }

  /** The branches that an insertion of `b` visits, from `t` down. */
  ghost function Descent(t: Tree, b: Bounds): (path: seq<Tree>)
    requires Open(t)
    ensures path != [] && path[0] == t
  {
    var best := BestKid(t, b);
    if Open(best) then [t] + Descent(best, b) else [t]
  }

  ghost function Lowest(t: Tree, b: Bounds): (lowest: Tree)
    requires Open(t)
    ensures Open(lowest)
  {
    var best := BestKid(t, b);
    if Open(best) then Lowest(best, b) else t
  }

  /** A branch of the stored tree. */
  ghost predicate StoredBranch(nodes: seq<Node>, t: Tree) {
    && t.Branch?
    && Sound(t)
    && Distinct(t)
    && Stored(nodes, t)
    && forall i: nat :: Owns(t, i) ==> i < |nodes|
  }

  lemma KidIsStored(nodes: seq<Node>, t: Tree, kid: Tree)
    requires StoredBranch(nodes, t) && kid in t.kids
    ensures kid.Branch? ==> StoredBranch(nodes, kid)
    ensures kid.Leaf? ==> Stored(nodes, kid) && Sound(kid)
    ensures !Owns(kid, t.id)
  {
    assert forall i: nat :: Owns(kid, i) ==> Owns(t, i);
  }

  /** What the way down reads at one branch of the path. */
  ghost predicate Readable(nodes: seq<Node>, t: Tree) {
    && Open(t)
    && t.id < |nodes|
    && Matches(nodes[t.id], t)
    && Listed(nodes, Ids(t.kids), t.kids)
    && |t.kids| <= MAX_CHILDREN
  }

  /** A branch of the path is followed by its best child; the last one's best child is a leaf. */
  ghost predicate PathStep(nodes: seq<Node>, path: seq<Tree>, j: nat, b: Bounds) {
    && j < |path|
    && Readable(nodes, path[j])
    && if j == |path| - 1 then BestKid(path[j], b).Leaf? else path[j + 1] == BestKid(path[j], b)
  }

  ghost predicate Linked(nodes: seq<Node>, path: seq<Tree>, b: Bounds) {
    && path != []
    && (forall j :: 0 <= j < |path| ==> Open(path[j]))
    && forall j: nat :: j < |path| ==> PathStep(nodes, path, j, b)
  }

  /** The way down can be walked. */
  lemma {:induction false} DescentIsLinked(nodes: seq<Node>, t: Tree, b: Bounds)
    requires StoredBranch(nodes, t)
    ensures Linked(nodes, Descent(t, b), b)
    ensures Descent(t, b)[|Descent(t, b)| - 1] == Lowest(t, b)
    decreases t
  {
    var best := BestKid(t, b);
    KidIsStored(nodes, t, best);
    StoredKids(nodes, t);
    if best.Branch? {
      DescentIsLinked(nodes, best, b);
      LinkedCons(nodes, t, Descent(best, b), b);
    } else {
      assert PathStep(nodes, [t], 0, b);
    }
  }

  /** It ends at a branch of the stored tree whose best child is a leaf. */
  lemma {:induction false} LowestIsStored(nodes: seq<Node>, t: Tree, b: Bounds)
    requires StoredBranch(nodes, t)
    ensures StoredBranch(nodes, Lowest(t, b)) && BestKid(Lowest(t, b), b).Leaf?
    ensures Splits(t, b) <==> |Lowest(t, b).kids| >= MAX_CHILDREN
    decreases t
  {
    var best := BestKid(t, b);
    KidIsStored(nodes, t, best);
    if best.Branch? {
      LowestIsStored(nodes, best, b);
    }
  }

  lemma LinkedCons(nodes: seq<Node>, t: Tree, rest: seq<Tree>, b: Bounds)
    requires Linked(nodes, rest, b) && Readable(nodes, t) && rest[0] == BestKid(t, b)
    ensures Linked(nodes, [t] + rest, b)
  {
    var path := [t] + rest;
    forall j: nat | j < |path| ensures PathStep(nodes, path, j, b) {
      if j > 0 {
        assert PathStep(nodes, rest, j - 1, b);
      }
    }
  }

  /** At each branch of the path the kind of the best child says whether the path goes on. */
  lemma AtPathStep(nodes: seq<Node>, path: seq<Tree>, j: nat, b: Bounds)
    requires Linked(nodes, path, b) && j < |path|
    ensures Readable(nodes, path[j])
    ensures var t := path[j];
            var best := BestKid(t, b);
            && nodes[t.id].kind.children.AsSlice()[BestChild(b, t.kids)] == best.id < |nodes|
            && (nodes[best.id].kind.Leaf? <==> j == |path| - 1)
            && (j < |path| - 1 ==> path[j + 1].id == best.id)
  {
    assert PathStep(nodes, path, j, b);
    if j < |path| - 1 {
      assert PathStep(nodes, path, j + 1, b);
    }
  }

  lemma LinkedFrame(nodes0: seq<Node>, nodes: seq<Node>, path: seq<Tree>, b: Bounds)
    requires Linked(nodes0, path, b) && nodes0 <= nodes
    ensures Linked(nodes, path, b)
    ensures BranchIds(nodes0, Ids(path))
  {
    forall j: nat | j < |path| ensures PathStep(nodes, path, j, b) {
      assert PathStep(nodes0, path, j, b);
    }
    forall k | 0 <= k < |path| ensures path[k].id < |nodes0| && nodes0[path[k].id].kind.Internal? {
      assert PathStep(nodes0, path, k, b);
    }
  }

  lemma BranchIsReadable(nodes: seq<Node>, t: Tree, k: nat)
    requires StoredBranch(nodes, t) && k < |t.kids|
    ensures Readable(nodes, t)
    ensures t.kids[k].MaxOrder() <= t.maxOrder
  {
    StoredKids(nodes, t);
    KidIsStored(nodes, t, t.kids[k]);
    MaxOrderAbove(t, t.kids[k]);
  }

  // ---------- Down: the branch that takes the leaf ----------

  /**
   The branch `t` has its new children, all of them stored; its own box and maximum may still be the
   old ones.  Nothing else among the older nodes has changed.
   */
  ghost predicate Attached(nodes0: seq<Node>, nodes: seq<Node>, t: Tree, leaf: Tree, innerId: nat)
  {
    && t.Branch? && t.id < |nodes0| < |nodes|
    && var r := Inserted(t, leaf, innerId);
    && nodes[t.id].kind.Internal?
    && nodes[t.id].kind.children.AsSlice() == Ids(r.kids)
    && nodes[t.id].bounds.Union(leaf.bounds) == r.bounds
    && Max(nodes[t.id].maxOrder, leaf.MaxOrder()) == r.maxOrder
    && (forall kid :: kid in r.kids ==> Stored(nodes, kid) && !Owns(kid, t.id))
    && FreshLeaf(nodes0, nodes, leaf)
    && forall i :: 0 <= i < |nodes0| && i != t.id ==> nodes[i] == nodes0[i]
  }

  lemma AttachedKeepsLeaves(nodes0: seq<Node>, mid: seq<Node>, nodes: seq<Node>, t: Tree, leaf: Tree, innerId: nat)
    requires Attached(nodes0, nodes, t, leaf, innerId) && Readable(nodes0, t)
    requires mid == nodes0 + [LeafNode(leaf.bounds, leaf.order)]
    ensures LeavesKept(mid, nodes)
  {
    OneBranchWritten(nodes0, mid, nodes, t.id, leaf);
  }

  /** Beside a new leaf only one branch has been written. */
  lemma OneBranchWritten(nodes0: seq<Node>, mid: seq<Node>, nodes: seq<Node>, id: nat, leaf: Tree)
    requires id < |nodes0| && nodes0[id].kind.Internal? && FreshLeaf(nodes0, nodes, leaf) && nodes[id].kind.Internal?
    requires forall i :: 0 <= i < |nodes0| && i != id ==> nodes[i] == nodes0[i]
    requires mid == nodes0 + [LeafNode(leaf.bounds, leaf.order)]
    ensures LeavesKept(mid, nodes)
  {
  }

  ghost predicate FreshLeaf(nodes0: seq<Node>, nodes: seq<Node>, leaf: Tree) {
    && leaf.Leaf?
    && leaf.id == |nodes0| < |nodes|
    && nodes[leaf.id] == LeafNode(leaf.bounds, leaf.order)
  }

  /** Old leaves are never written; old branches stay branches. */
  ghost predicate LeavesKept(nodes0: seq<Node>, nodes: seq<Node>) {
    && |nodes0| <= |nodes|
    && forall i :: 0 <= i < |nodes0| ==>
                     if nodes0[i].kind.Leaf? then nodes[i] == nodes0[i] else nodes[i].kind.Internal?
  }

  /** Only `t` has changed, and its children are now `kids`. */
  ghost predicate Rewritten(nodes0: seq<Node>, nodes: seq<Node>, t: Tree, kids: seq<Tree>) {
    && t.id < |nodes0| < |nodes|
    && (forall i :: 0 <= i < |nodes0| && i != t.id ==> nodes[i] == nodes0[i])
    && nodes[t.id].kind.Internal?
    && nodes[t.id].kind.children.AsSlice() == Ids(kids)
  }

  /** A branch with room took the leaf and widened itself. */
  ghost predicate DirectShape(nodes0: seq<Node>, nodes: seq<Node>, t: Tree, leaf: Tree) {
    && t.Branch? && t.kids != []
    && FreshLeaf(nodes0, nodes, leaf)
    && Rewritten(nodes0, nodes, t, AddKid(t.kids, leaf, t.maxOrder))
    && nodes[t.id].bounds == t.bounds.Union(leaf.bounds)
    && nodes[t.id].maxOrder == Max(t.maxOrder, leaf.order)
  }

  lemma AddKidIds(kids: seq<Tree>, leaf: Tree, maxOrder: nat, n: nat)
    requires kids != [] && n == |kids|
    ensures var ids := Ids(kids) + [leaf.id];
            Ids(AddKid(kids, leaf, maxOrder)) == if leaf.MaxOrder() <= maxOrder then Swap(ids, n - 1, n) else ids
  {
  }

  /** The node that a branch with room writes has the right shape. */
  lemma DirectHolds(nodes0: seq<Node>, mid: seq<Node>, t: Tree, leaf: Tree, widened: Node)
    requires Readable(nodes0, t) && leaf.Leaf? && leaf.id == |nodes0|
    requires mid == nodes0 + [LeafNode(leaf.bounds, leaf.order)]
    requires widened.kind.Internal?
    requires var ids := Ids(t.kids) + [leaf.id];
             widened.kind.children.AsSlice() ==
             if leaf.order <= t.maxOrder then Swap(ids, |ids| - 2, |ids| - 1) else ids
    requires widened.bounds == t.bounds.Union(leaf.bounds) && widened.maxOrder == Max(t.maxOrder, leaf.order)
    ensures DirectShape(nodes0, mid[t.id := widened], t, leaf)
    ensures LeafEntries(mid[t.id := widened]) == LeafEntries(mid)
  {
    AddKidIds(t.kids, leaf, t.maxOrder, |t.kids|);
    LeafEntriesUpdate(mid, t.id, widened);
  }

  lemma ReplaceKidIds(kids: seq<Tree>, k: nat, kid: Tree, toEnd: bool)
    requires k < |kids|
    ensures var ids := Ids(kids)[k := kid.id];
            Ids(ReplaceKid(kids, k, kid, toEnd)) == if toEnd then Swap(ids, k, |kids| - 1) else ids
  {
  }

  lemma DirectIsAttached(nodes0: seq<Node>, nodes: seq<Node>, t: Tree, leaf: Tree, innerId: nat)
    requires StoredBranch(nodes0, t) && DirectShape(nodes0, nodes, t, leaf)
    requires BestKid(t, leaf.bounds).Leaf? && |t.kids| < MAX_CHILDREN
    ensures Attached(nodes0, nodes, t, leaf, innerId)
  {
    UnionAbsorbs(t.bounds, leaf.bounds);
    AddKidMembers(t.kids, leaf, t.maxOrder);
    forall kid | kid in t.kids ensures Stored(nodes, kid) && !Owns(kid, t.id) {
      KidIsStored(nodes0, t, kid);
      StoredFrame(nodes0, nodes, kid);
    }
    assert Stored(nodes, leaf);
  }

  /** A full branch had its best leaf replaced by a new branch over that leaf and the new one. */
  ghost predicate SplitShape(nodes0: seq<Node>, nodes: seq<Node>, t: Tree, leaf: Tree, innerId: nat) {
    && t.Branch? && t.kids != []
    && FreshLeaf(nodes0, nodes, leaf)
    && innerId < |nodes|
    && var k := BestChild(leaf.bounds, t.kids);
    && var inner := Inner(innerId, t.kids[k], leaf);
    && Matches(nodes[innerId], inner)
    && Rewritten(nodes0, nodes, t, ReplaceKid(t.kids, k, inner, t.maxOrder < leaf.order))
    && nodes[t.id].bounds == t.bounds
    && nodes[t.id].maxOrder == t.maxOrder
  }

  lemma InnerMatches(sibling: Node, best: Tree, leaf: Tree, innerId: nat)
    requires Matches(sibling, best) && leaf.Leaf?
    ensures var pair := if leaf.order > sibling.maxOrder then PairOf(best.id, leaf.id) else PairOf(leaf.id, best.id);
            Matches(Node(sibling.bounds.Union(leaf.bounds), Max(sibling.maxOrder, leaf.order), Internal(pair)),
                    Inner(innerId, best, leaf))
  {
  }

  /** The two nodes that a split writes have the right shape. */
  lemma SplitHolds(nodes0: seq<Node>, mid: seq<Node>, t: Tree, leaf: Tree, innerId: nat, k: nat,
                   sibling: Node, inner: Node, parent: Node)
    requires Readable(nodes0, t) && leaf.Leaf? && leaf.id == |nodes0| && innerId == leaf.id + 1
    requires mid == nodes0 + [LeafNode(leaf.bounds, leaf.order)]
    requires k == BestChild(leaf.bounds, t.kids) && t.kids[k].MaxOrder() <= t.maxOrder
    requires sibling == mid[t.kids[k].id]
    requires var pair := if leaf.order > sibling.maxOrder then PairOf(t.kids[k].id, leaf.id)
                         else PairOf(leaf.id, t.kids[k].id);
             inner == Node(sibling.bounds.Union(leaf.bounds), Max(sibling.maxOrder, leaf.order), Internal(pair))
    requires parent.kind.Internal? && parent.bounds == t.bounds && parent.maxOrder == t.maxOrder
    requires var ids := Ids(t.kids)[k := innerId];
             parent.kind.children.AsSlice() ==
             if inner.maxOrder > t.maxOrder then Swap(ids, k, |ids| - 1) else ids
    ensures SplitShape(nodes0, (mid + [inner])[t.id := parent], t, leaf, innerId)
    ensures LeafEntries((mid + [inner])[t.id := parent]) == LeafEntries(mid)
  {
    var best := t.kids[k];
    InnerMatches(sibling, best, leaf, innerId);
    ReplaceKidIds(t.kids, k, Inner(innerId, best, leaf), t.maxOrder < leaf.order);
    LeafEntriesPush(mid, inner);
    LeafEntriesUpdate(mid + [inner], t.id, parent);
  }

  lemma SplitIsAttached(nodes0: seq<Node>, nodes: seq<Node>, t: Tree, leaf: Tree, innerId: nat)
    requires StoredBranch(nodes0, t) && SplitShape(nodes0, nodes, t, leaf, innerId)
    requires innerId == leaf.id + 1
    requires BestKid(t, leaf.bounds).Leaf? && |t.kids| >= MAX_CHILDREN
    ensures Attached(nodes0, nodes, t, leaf, innerId)
  {
    var k := BestChild(leaf.bounds, t.kids);
    var best := t.kids[k];
    var inner := Inner(innerId, best, leaf);
    assert Inserted(best, leaf, innerId) == inner;
    ReplaceKidMembers(t.kids, k, inner, t.maxOrder < leaf.order);
    forall kid | kid in t.kids ensures Stored(nodes, kid) && !Owns(kid, t.id) {
      KidIsStored(nodes0, t, kid);
      StoredFrame(nodes0, nodes, kid);
    }
    assert Stored(nodes, leaf);
    assert best in t.kids;
    assert inner.kids == [best, leaf] || inner.kids == [leaf, best];
    assert forall x :: x in inner.kids ==> x == best || x == leaf;
    assert Stored(nodes, inner);
    assert Owns(t, t.id);
    assert !Owns(inner, t.id);
  }

  // ---------- Up: boxes and maxima along the path ----------

  /** The subtree `t` is stored as it is after the insertion; nothing outside it has changed. */
  ghost predicate Updated(nodes0: seq<Node>, nodes: seq<Node>, t: Tree, leaf: Tree, innerId: nat)
  {
    && |nodes0| <= |nodes|
    && Stored(nodes, Inserted(t, leaf, innerId))
    && forall i: nat :: i < |nodes0| && !Owns(t, i) ==> nodes[i] == nodes0[i]
  }

  /** The first position of `x`. */
  function Position(s: seq<nat>, x: nat): (pos: Option<nat>)
    ensures pos.Some? ==> pos.value < |s| && s[pos.value] == x && forall i :: 0 <= i < pos.value ==> s[i] != x
    ensures pos.None? ==> x !in s
  {
    if s == [] then
      None
    else if s[0] == x then
      Some(0)
    else
      match Position(s[1..], x)
      case None => None
      case Some(i) => Some(i + 1)
  }

  function MoveToEnd(children: NodeChildren, pos: nat): (r: NodeChildren)
    requires pos < children.len
    ensures r.AsSlice() == Swap(children.AsSlice(), pos, children.len - 1)
  {
    if pos != children.len - 1 then SwapSlots(children, pos, children.len - 1) else children
  }

  /** One node on the way up: its box grows, and if its maximum does, the updated child moves last. */
  function Widened(node: Node, bounds: Bounds, order: nat, updatedChild: Option<nat>): Node
    requires node.kind.Internal?
  {
    var wide := node.bounds.Union(bounds);
    if node.maxOrder < order then
      var children := node.kind.children;
      var moved :=
        match updatedChild
        case None => children
        case Some(child) =>
          match Position(children.AsSlice(), child)
          case None => children
          case Some(pos) => MoveToEnd(children, pos);
      Node(wide, order, Internal(moved))
    else
      Node(wide, node.maxOrder, node.kind)
  }

  /** The lowest branch of the path is finished by the first step up. */
  lemma FinishLowest(nodes0: seq<Node>, nodes: seq<Node>, t: Tree, leaf: Tree, innerId: nat)
    returns (after: seq<Node>)
    requires StoredBranch(nodes0, t) && leaf.Leaf? && Attached(nodes0, nodes, t, leaf, innerId)
    ensures after == nodes[t.id := Widened(nodes[t.id], leaf.bounds, leaf.order, None)]
    ensures Updated(nodes0, after, t, leaf, innerId)
  {
    after := nodes[t.id := Widened(nodes[t.id], leaf.bounds, leaf.order, None)];
    var r := Inserted(t, leaf, innerId);
    forall kid | kid in r.kids ensures Stored(after, kid) {
      StoredFrame(nodes, after, kid);
    }
    assert Owns(t, t.id);
    assert Matches(after[r.id], r);
  }

  lemma UniqueIds(t: Tree, k: nat)
    requires Distinct(t) && t.Branch? && k < |t.kids|
    ensures Position(Ids(t.kids), t.kids[k].id) == Some(k)
  {
    var ids := Ids(t.kids);
    assert ids[k] == t.kids[k].id;
    var pos := Position(ids, t.kids[k].id);
    assert pos.Some?;
    if pos.value != k {
      assert Disjoint(t.kids[pos.value], t.kids[k]);
      assert Owns(t.kids[pos.value], ids[k]) && Owns(t.kids[k], ids[k]);
    }
  }

  lemma WidenedSlice(node: Node, bounds: Bounds, order: nat, child: nat, k: nat, slice: seq<nat>)
    requires node.kind.Internal? && slice == node.kind.children.AsSlice() && Position(slice, child) == Some(k)
    ensures var w := Widened(node, bounds, order, Some(child));
            w.kind.Internal? &&
            w.kind.children.AsSlice() == if node.maxOrder < order then Swap(slice, k, |slice| - 1) else slice
  {
    var moved := MoveToEnd(node.kind.children, k);
    assert moved.AsSlice() == Swap(slice, k, |slice| - 1);
  }

  /** The node written on the way up carries the children list of the new tree. */
  lemma {:induction false} WidenedMatches(node: Node, t: Tree, leaf: Tree, innerId: nat)
    requires Matches(node, t) && Open(t) && Distinct(t) && leaf.Leaf?
    requires Open(BestKid(t, leaf.bounds))
    ensures Matches(Widened(node, leaf.bounds, leaf.order, Some(BestKid(t, leaf.bounds).id)), Inserted(t, leaf, innerId))
  {
    var k := BestChild(leaf.bounds, t.kids);
    UniqueIds(t, k);
    WidenedSlice(node, leaf.bounds, leaf.order, t.kids[k].id, k, Ids(t.kids));
    ReplaceKidIds(t.kids, k, Inserted(t.kids[k], leaf, innerId), t.maxOrder < leaf.order);
    assert Ids(t.kids)[k := t.kids[k].id] == Ids(t.kids);
  }

  /** The children that the insertion passes by are where they were. */
  lemma SiblingsStored(nodes0: seq<Node>, after: seq<Node>, t: Tree, k: nat)
    requires StoredBranch(nodes0, t) && k < |t.kids| && |nodes0| <= |after|
    requires forall i: nat :: i < |nodes0| && i != t.id && !Owns(t.kids[k], i) ==> after[i] == nodes0[i]
    ensures forall kid :: kid in t.kids[..k] || kid in t.kids[k + 1..] ==> Stored(after, kid)
  {
    forall j | 0 <= j < |t.kids| && j != k ensures Stored(after, t.kids[j]) {
      KidIsStored(nodes0, t, t.kids[j]);
      assert Disjoint(t.kids[j], t.kids[k]);
      StoredFrame(nodes0, after, t.kids[j]);
    }
  }

  /** The finished child is untouched when its parent is written. */
  lemma ChildStaysStored(nodes0: seq<Node>, nodes: seq<Node>, after: seq<Node>, best: Tree, id: nat,
                         leaf: Tree, innerId: nat)
    requires leaf.Leaf? && leaf.id == |nodes0| && innerId == leaf.id + 1
    requires id < |nodes0| && !Owns(best, id)
    requires Updated(nodes0, nodes, best, leaf, innerId)
    requires |after| == |nodes| && forall i :: 0 <= i < |nodes| && i != id ==> after[i] == nodes[i]
    ensures Stored(after, Inserted(best, leaf, innerId))
  {
    InsertOwnsAll(best, leaf, innerId);
    StoredFrame(nodes, after, Inserted(best, leaf, innerId));
  }

  /** Each further step up extends the finished subtree by one level. */
  lemma {:induction false} FinishParent(nodes0: seq<Node>, nodes: seq<Node>, t: Tree, leaf: Tree, innerId: nat)
    returns (after: seq<Node>)
    requires StoredBranch(nodes0, t) && leaf.Leaf? && leaf.id == |nodes0| && innerId == leaf.id + 1
    requires Open(BestKid(t, leaf.bounds))
    requires Updated(nodes0, nodes, BestKid(t, leaf.bounds), leaf, innerId)
    ensures nodes[t.id] == nodes0[t.id]
    ensures after == nodes[t.id := Widened(nodes[t.id], leaf.bounds, leaf.order, Some(BestKid(t, leaf.bounds).id))]
    ensures Updated(nodes0, after, t, leaf, innerId)
  {
    var k := BestChild(leaf.bounds, t.kids);
    var best := t.kids[k];
    KidIsStored(nodes0, t, best);
    after := nodes[t.id := Widened(nodes[t.id], leaf.bounds, leaf.order, Some(best.id))];
    WidenedMatches(nodes[t.id], t, leaf, innerId);
    ChildStaysStored(nodes0, nodes, after, best, t.id, leaf, innerId);
    SiblingsStored(nodes0, after, t, k);
    ReplaceKidMembers(t.kids, k, Inserted(best, leaf, innerId), t.maxOrder < leaf.order);
    OutsideParent(t, best);
  }

  lemma OutsideParent(t: Tree, kid: Tree)
    requires t.Branch? && kid in t.kids
    ensures Owns(t, t.id) && forall i: nat :: !Owns(t, i) ==> !Owns(kid, i)
  {
  }

  // ---------- The loop on the way up, as a function ----------

  ghost predicate BranchIds(nodes: seq<Node>, ids: seq<nat>) {
    forall k :: 0 <= k < |ids| ==> ids[k] < |nodes| && nodes[ids[k]].kind.Internal?
  }

  /** The branch written just before `ids[0]`, if there was one. */
  function Above(ids: seq<nat>): Option<nat> {
    if |ids| > 1 then Some(ids[1]) else None
  }

  /** The nodes after the branches `ids` have been widened, last one first. */
  ghost function Climb(nodes: seq<Node>, ids: seq<nat>, bounds: Bounds, order: nat): (r: seq<Node>)
    requires BranchIds(nodes, ids)
    ensures LeavesKept(nodes, r) && |r| == |nodes|
  {
    if ids == [] then
      nodes
    else
      var below := Climb(nodes, ids[1..], bounds, order);
      below[ids[0] := Widened(below[ids[0]], bounds, order, Above(ids))]
  }

  /** Writing to branches changes no leaf. */
  lemma {:induction false} ClimbKeepsEntries(nodes: seq<Node>, ids: seq<nat>, bounds: Bounds, order: nat)
    requires BranchIds(nodes, ids)
    ensures LeafEntries(Climb(nodes, ids, bounds, order)) == LeafEntries(nodes)
  {
    if ids != [] {
      var below := Climb(nodes, ids[1..], bounds, order);
      ClimbKeepsEntries(nodes, ids[1..], bounds, order);
      LeafEntriesUpdate(below, ids[0], Widened(below[ids[0]], bounds, order, Above(ids)));
    }
  }

  lemma {:induction false} ClimbUnfolds(nodes: seq<Node>, t: Tree, b: Bounds, order: nat)
    requires Open(t) && BranchIds(nodes, Ids(Descent(t, b)))
    ensures t.id < |nodes|
    ensures var best := BestKid(t, b);
            if Open(best) then
              && BranchIds(nodes, Ids(Descent(best, b)))
              && var below := Climb(nodes, Ids(Descent(best, b)), b, order);
              && below[t.id].kind.Internal?
              && Climb(nodes, Ids(Descent(t, b)), b, order) ==
                 below[t.id := Widened(below[t.id], b, order, Some(best.id))]
            else
              && nodes[t.id].kind.Internal?
              && Climb(nodes, Ids(Descent(t, b)), b, order) == nodes[t.id := Widened(nodes[t.id], b, order, None)]
  {
    var best := BestKid(t, b);
    var ids := Ids(Descent(t, b));
    assert ids[0] == t.id;
    if Open(best) {
      assert ids[1..] == Ids(Descent(best, b));
    } else {
      assert ids[1..] == [];
    }
  }

  /** Once the lowest branch is finished, the climb finishes the whole tree. */
  lemma {:induction false} ClimbFinishes(nodes0: seq<Node>, nodes: seq<Node>, t: Tree, leaf: Tree, innerId: nat, low: Tree)
    returns (after: seq<Node>)
    requires leaf.Leaf? && leaf.id == |nodes0| && innerId == leaf.id + 1 && StoredBranch(nodes0, t)
    requires BranchIds(nodes, Ids(Descent(t, leaf.bounds)))
    requires low == Lowest(t, leaf.bounds) && low.id < |nodes| && nodes[low.id].kind.Internal?
    requires Updated(nodes0, nodes[low.id := Widened(nodes[low.id], leaf.bounds, leaf.order, None)],
                     low, leaf, innerId)
    ensures after == Climb(nodes, Ids(Descent(t, leaf.bounds)), leaf.bounds, leaf.order)
    ensures Updated(nodes0, after, t, leaf, innerId)
    decreases t
  {
    var b := leaf.bounds;
    var best := BestKid(t, b);
    ClimbUnfolds(nodes, t, b, leaf.order);
    if Open(best) {
      KidIsStored(nodes0, t, best);
      var below := ClimbFinishes(nodes0, nodes, best, leaf, innerId, low);
      after := FinishParent(nodes0, below, t, leaf, innerId);
    } else {
      after := nodes[t.id := Widened(nodes[t.id], b, leaf.order, None)];
    }
  }

  /** The nodes after the way up, with everything the insertion needs to know about them. */
  lemma FinishedByClimb(nodes0: seq<Node>, nodes: seq<Node>, t: Tree, leaf: Tree, innerId: nat, low: Tree)
    returns (after: seq<Node>)
    requires leaf.Leaf? && leaf.id == |nodes0| && innerId == leaf.id + 1 && StoredBranch(nodes0, t)
    requires low == Lowest(t, leaf.bounds) && StoredBranch(nodes0, low)
    requires BranchIds(nodes0, Ids(Descent(t, leaf.bounds)))
    requires LeavesKept(nodes0, nodes)
    requires Attached(nodes0, nodes, low, leaf, innerId)
    ensures BranchIds(nodes, Ids(Descent(t, leaf.bounds)))
    ensures after == Climb(nodes, Ids(Descent(t, leaf.bounds)), leaf.bounds, leaf.order)
    ensures Stored(after, Inserted(t, leaf, innerId))
    ensures LeafEntries(after) == LeafEntries(nodes) && LeavesKept(nodes, after)
  {
    var finished := FinishLowest(nodes0, nodes, low, leaf, innerId);
    after := ClimbFinishes(nodes0, nodes, t, leaf, innerId, low);
    ClimbKeepsEntries(nodes, Ids(Descent(t, leaf.bounds)), leaf.bounds, leaf.order);
  }

  // ---------- The whole insertion ----------

  lemma {:induction false} LinearScanPush(history: seq<Entry>, b: Bounds, order: nat)
    requires LinearScan(history) && order == 1 + MaxIntersecting(history, b)
    ensures LinearScan(history + [Entry(b, order)])
  {
    var h := history + [Entry(b, order)];
    forall i | 0 <= i < |h| ensures h[i].order == 1 + MaxIntersecting(h[..i], h[i].bounds) {
      assert h[..i] == history[..i];
      if i == |history| { assert history[..i] == history; }
    }
  }

  /** The tracked leaf changes exactly when the new order is a new maximum. */
  lemma TracksMaxPush(nodes0: seq<Node>, nodes: seq<Node>, maxLeaf: Option<nat>, newLeafIdx: nat, order: nat)
    requires TracksMax(nodes0, maxLeaf) && LeavesKept(nodes0, nodes)
    requires newLeafIdx < |nodes| && nodes[newLeafIdx].maxOrder == order
    requires nodes[newLeafIdx].kind == NodeKind.Leaf(order)
    requires LeafEntries(nodes) == LeafEntries(nodes0) + [Entry(nodes[newLeafIdx].bounds, order)]
    ensures maxLeaf.Some? ==> maxLeaf.value < |nodes|
    ensures TracksMax(nodes, if maxLeaf.None? || nodes[maxLeaf.value].maxOrder < order then Some(newLeafIdx) else maxLeaf)
  {
  }

  /** After the last step the nodes are the index of one more rectangle. */
  lemma Reindexed(nodes0: seq<Node>, nodes: seq<Node>, t: Tree, leaf: Tree, innerId: nat)
    requires Indexed(nodes0, Some(t.id), Some(t))
    requires leaf.Leaf? && leaf.id == |nodes0| && innerId == leaf.id + 1
    requires Stored(nodes, Inserted(t, leaf, innerId))
    requires |nodes| == |nodes0| + if Splits(t, leaf.bounds) then 2 else 1
    requires LeafEntries(nodes) == LeafEntries(nodes0) + [Entry(leaf.bounds, leaf.order)]
    ensures Indexed(nodes, Some(Inserted(t, leaf, innerId).id), Some(Inserted(t, leaf, innerId)))
  {
    var r := Inserted(t, leaf, innerId);
    InsertSound(t, leaf, innerId);
    InsertDistinct(t, leaf, innerId);
    InsertOwnsAll(t, leaf, innerId);
    forall e ensures HasEntry(r, e) <==> e in LeafEntries(nodes) {
      InsertEntries(t, leaf, innerId, e);
    }
  }

  lemma FirstLeaf(nodes: seq<Node>, leaf: Tree)
    requires leaf.Leaf? && leaf.id == 0 && nodes == [LeafNode(leaf.bounds, leaf.order)]
    ensures Indexed(nodes, Some(0), Some(leaf))
  {
    LeafIsSound(leaf);
    assert LeafEntries(nodes) == [Entry(leaf.bounds, leaf.order)];
  }
}
