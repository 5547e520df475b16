/**
 The shape of the index kept by `BoundsTree`, as a value: a tree of rectangles in which every
 branch knows the bounding box and the largest order of what lies below it.

 `Inserted` is what one insertion does to that value.  The class in BoundsTree.dfy stores the same tree
 in a growing vector of nodes and is proved to compute exactly this function.
 */
module OrderTree {
  import opened Geometry

  const MAX_CHILDREN := 12

  // One inserted rectangle with the order it was given.
  datatype Entry = Entry(bounds: Bounds, order: nat)

  // `id` is the index of the node in the vector of nodes.
  datatype Tree =
    | Leaf(id: nat, bounds: Bounds, order: nat)
    | Branch(id: nat, bounds: Bounds, maxOrder: nat, kids: seq<Tree>)
  {
    function MaxOrder(): nat {
      if Leaf? then order else maxOrder
    }
  }

  function Max(a: nat, b: nat): nat {
    if a < b then b else a
  }

  // ---------- What a tree holds ----------

  ghost predicate HasEntry(t: Tree, e: Entry) {
    match t
    case Leaf(_, b, o) => e == Entry(b, o)
    case Branch(_, _, _, kids) => exists kid :: kid in kids && HasEntry(kid, e)
  }

  /** Node `i` occurs in the tree. */
  ghost predicate Owns(t: Tree, i: nat) {
    t.id == i || (t.Branch? && exists kid :: kid in t.kids && Owns(kid, i))
  }

  ghost predicate Disjoint(s: Tree, t: Tree) {
    forall i: nat :: Owns(s, i) ==> !Owns(t, i)
  }

  ghost predicate PairwiseDisjoint(kids: seq<Tree>) {
    forall j, k :: 0 <= j < |kids| && 0 <= k < |kids| && j != k ==> Disjoint(kids[j], kids[k])
  }

  /** No node is reached twice. */
  ghost predicate Distinct(t: Tree) {
    t.Branch? ==>
      && (forall kid :: kid in t.kids ==> Distinct(kid) && !Owns(kid, t.id))
      && PairwiseDisjoint(t.kids)
  }

  ghost predicate Covers(c: Bounds, t: Tree) {
    forall e :: HasEntry(t, e) ==> c.Contains(e.bounds)
  }

  /** A rectangle contains the node's bounds exactly when it contains everything below the node. */
  ghost predicate Tight(t: Tree) {
    forall c: Bounds :: c.Contains(t.bounds) <==> Covers(c, t)
  }

  ghost predicate Bounded(n: nat, t: Tree) {
    forall e :: HasEntry(t, e) ==> e.order <= n
  }

  /** The node's `max_order` is the largest order below it. */
  ghost predicate MaxExact(t: Tree) {
    forall n: nat :: t.MaxOrder() <= n <==> Bounded(n, t)
  }

  /** What holds of every node: fan-out, exact box, exact maximum, and a last child that attains it. */
  ghost predicate Sound(t: Tree) {
    && Tight(t)
    && MaxExact(t)
    && (t.Branch? ==>
          && 2 <= |t.kids| <= MAX_CHILDREN
          && t.kids[|t.kids| - 1].MaxOrder() == t.maxOrder
          && forall kid :: kid in t.kids ==> Sound(kid))
  }

  // ---------- One insertion ----------

  function Cost(b: Bounds, t: Tree): real {
    b.Union(t.bounds).HalfPerimeter()
  }

  /** The cost of a child is the least half perimeter of a box around it and the new rectangle. */
  lemma CostIsLeast(b: Bounds, t: Tree, c: Bounds)
    requires c.Contains(b) && c.Contains(t.bounds)
    ensures Cost(b, t) <= c.HalfPerimeter()
    ensures Cost(b, t) == c.HalfPerimeter() <==> c == b.Union(t.bounds)
  {
    UnionIsLeast(b, t.bounds, c);
    HalfPerimeterGrows(c, b.Union(t.bounds));
  }

  /** The first child among the first `n` whose box grows to the smallest half perimeter. */
  function BestAmong(b: Bounds, kids: seq<Tree>, n: nat): (best: nat)
    requires 0 < n <= |kids|
    ensures best < n
    ensures forall j :: 0 <= j < n ==> Cost(b, kids[best]) <= Cost(b, kids[j])
    ensures forall j :: 0 <= j < best ==> Cost(b, kids[best]) < Cost(b, kids[j])
  {
    if n == 1 then
      0
    else
      var best := BestAmong(b, kids, n - 1);
      if Cost(b, kids[n - 1]) < Cost(b, kids[best]) then n - 1 else best
  }

  function BestChild(b: Bounds, kids: seq<Tree>): (best: nat)
    requires kids != []
    ensures best < |kids|
  {
    BestAmong(b, kids, |kids|)
  }

  function Swap<T>(s: seq<T>, i: nat, j: nat): seq<T>
    requires i < |s| && j < |s|
  {
    s[i := s[j]][j := s[i]]
  }

  /** Two leaves under a new branch, the one with the larger order last; on a tie the older one is last. */
  function Pair(other: Tree, leaf: Tree): seq<Tree> {
    if leaf.MaxOrder() > other.MaxOrder() then [other, leaf] else [leaf, other]
  }

  /** A new last child, swapped with the previous last one unless its order is a new maximum. */
  function AddKid(kids: seq<Tree>, leaf: Tree, maxOrder: nat): seq<Tree>
    requires kids != []
  {
    var more := kids + [leaf];
    if leaf.MaxOrder() <= maxOrder then Swap(more, |more| - 2, |more| - 1) else more
  }

  function ReplaceKid(kids: seq<Tree>, k: nat, kid: Tree, toEnd: bool): seq<Tree>
    requires k < |kids|
  {
    var replaced := kids[k := kid];
    if toEnd then Swap(replaced, k, |kids| - 1) else replaced
  }

  function Inner(innerId: nat, other: Tree, leaf: Tree): Tree {
    Branch(innerId, other.bounds.Union(leaf.bounds), Max(other.MaxOrder(), leaf.MaxOrder()), Pair(other, leaf))
  }

  predicate Open(t: Tree) {
    t.Branch? && t.kids != []
  }

  /** Whether the insertion splits a leaf off and so needs a second new node. */
  ghost predicate Splits(t: Tree, b: Bounds)
  {
    !Open(t) ||
    var best := t.kids[BestChild(b, t.kids)];
    if best.Leaf? then |t.kids| >= MAX_CHILDREN else Splits(best, b)
  }

  ghost function Inserted(t: Tree, leaf: Tree, innerId: nat): Tree
  {
    if !Open(t) then
      Inner(innerId, t, leaf)
    else
      var k := BestChild(leaf.bounds, t.kids);
      var best := t.kids[k];
      var kids :=
        if best.Leaf? && |t.kids| < MAX_CHILDREN then
          AddKid(t.kids, leaf, t.maxOrder)
        else
          ReplaceKid(t.kids, k, Inserted(best, leaf, innerId), t.maxOrder < leaf.MaxOrder());
      Branch(t.id, t.bounds.Union(leaf.bounds), Max(t.maxOrder, leaf.MaxOrder()), kids)
  }

  // ---------- Lists of children ----------

  lemma SwapKeepsMembers<T>(s: seq<T>, i: nat, j: nat)
    requires i < |s| && j < |s|
    ensures forall x :: x in Swap(s, i, j) <==> x in s
  {
    var t := Swap(s, i, j);
    assert t[i] == s[j] && t[j] == s[i];
    forall x | x in s ensures x in t {
      var k :| 0 <= k < |s| && s[k] == x;
      if k != i && k != j { assert t[k] == x; }
    }
  }

  lemma AddKidMembers(kids: seq<Tree>, leaf: Tree, maxOrder: nat)
    requires kids != []
    ensures forall x :: x in AddKid(kids, leaf, maxOrder) <==> x in kids || x == leaf
  {
    var more := kids + [leaf];
    SwapKeepsMembers(more, |more| - 2, |more| - 1);
    assert forall x :: x in more <==> x in kids || x == leaf;
  }

  lemma ReplaceKidMembers(kids: seq<Tree>, k: nat, kid: Tree, toEnd: bool)
    requires k < |kids|
    ensures forall x :: x in ReplaceKid(kids, k, kid, toEnd) <==> x == kid || x in kids[..k] || x in kids[k + 1..]
  {
    var replaced := kids[k := kid];
    assert replaced == kids[..k] + [kid] + kids[k + 1..];
    SwapKeepsMembers(replaced, k, |kids| - 1);
  }

  // ---------- What an insertion keeps ----------

  ghost predicate SomeHasEntry(kids: seq<Tree>, e: Entry) {
    exists kid :: kid in kids && HasEntry(kid, e)
  }

  lemma PairEntries(t: Tree, leaf: Tree, e: Entry)
    ensures SomeHasEntry(Pair(t, leaf), e) <==> HasEntry(t, e) || HasEntry(leaf, e)
  {
    var kids := Pair(t, leaf);
    assert kids == [t, leaf] || kids == [leaf, t];
    assert forall x :: x in kids <==> x == t || x == leaf;
  }

  lemma AddKidEntries(kids: seq<Tree>, leaf: Tree, maxOrder: nat, e: Entry)
    requires kids != []
    ensures SomeHasEntry(AddKid(kids, leaf, maxOrder), e) <==> SomeHasEntry(kids, e) || HasEntry(leaf, e)
  {
    AddKidMembers(kids, leaf, maxOrder);
  }

  lemma ReplaceKidEntries(kids: seq<Tree>, k: nat, kid: Tree, toEnd: bool, e: Entry, more: bool)
    requires k < |kids| && (HasEntry(kid, e) <==> HasEntry(kids[k], e) || more)
    ensures SomeHasEntry(ReplaceKid(kids, k, kid, toEnd), e) <==> SomeHasEntry(kids, e) || more
  {
    ReplaceKidMembers(kids, k, kid, toEnd);
    assert kids == kids[..k] + [kids[k]] + kids[k + 1..];
  }

  lemma BranchEntries(t: Tree, e: Entry)
    requires t.Branch?
    ensures HasEntry(t, e) <==> SomeHasEntry(t.kids, e)
  {
  }

  /** The entries below the result are those below `t` and the new one. */
  lemma {:induction false} InsertEntries(t: Tree, leaf: Tree, innerId: nat, e: Entry)
    requires leaf.Leaf?
    ensures HasEntry(Inserted(t, leaf, innerId), e) <==> HasEntry(t, e) || HasEntry(leaf, e)
  {
    BranchEntries(Inserted(t, leaf, innerId), e);
    if !Open(t) {
      PairEntries(t, leaf, e);
    } else {
      var k := BestChild(leaf.bounds, t.kids);
      var best := t.kids[k];
      BranchEntries(t, e);
      if best.Leaf? && |t.kids| < MAX_CHILDREN {
        AddKidEntries(t.kids, leaf, t.maxOrder, e);
      } else {
        InsertEntries(best, leaf, innerId, e);
        var kid := Inserted(best, leaf, innerId);
        ReplaceKidEntries(t.kids, k, kid, t.maxOrder < leaf.MaxOrder(), e, HasEntry(leaf, e));
      }
    }
  }

  /** The nodes of the result are those of `t`, the new leaf and, after a split, the new branch. */
  lemma {:induction false} InsertOwns(t: Tree, leaf: Tree, innerId: nat, i: nat)
    requires leaf.Leaf?
    ensures Owns(Inserted(t, leaf, innerId), i) <==>
            Owns(t, i) || i == leaf.id || (Splits(t, leaf.bounds) && i == innerId)
  {
    var r := Inserted(t, leaf, innerId);
    if !Open(t) {
      assert r.kids == [t, leaf] || r.kids == [leaf, t];
      assert forall x :: x in r.kids <==> x == t || x == leaf;
      assert t in r.kids && leaf in r.kids;
    } else {
      var k := BestChild(leaf.bounds, t.kids);
      var best := t.kids[k];
      if best.Leaf? && |t.kids| < MAX_CHILDREN {
        AddKidMembers(t.kids, leaf, t.maxOrder);
        assert leaf in r.kids;
      } else {
        var kid := Inserted(best, leaf, innerId);
        InsertOwns(best, leaf, innerId, i);
        ReplaceKidMembers(t.kids, k, kid, t.maxOrder < leaf.MaxOrder());
        assert t.kids == t.kids[..k] + [best] + t.kids[k + 1..];
      }
    }
  }

  lemma InsertOwnsAll(t: Tree, leaf: Tree, innerId: nat)
    requires leaf.Leaf?
    ensures forall i: nat :: Owns(Inserted(t, leaf, innerId), i) <==>
            Owns(t, i) || i == leaf.id || (Splits(t, leaf.bounds) && i == innerId)
  {
    forall i: nat
      ensures Owns(Inserted(t, leaf, innerId), i) <==>
              Owns(t, i) || i == leaf.id || (Splits(t, leaf.bounds) && i == innerId)
    {
      InsertOwns(t, leaf, innerId, i);
    }
  }

  /** What `Distinct` asks of a branch's list of children. */
  ghost predicate DistinctKids(kids: seq<Tree>, id: nat) {
    && (forall kid :: kid in kids ==> Distinct(kid) && !Owns(kid, id))
    && PairwiseDisjoint(kids)
  }

  lemma PairIsDistinct(t: Tree, leaf: Tree, innerId: nat)
    requires leaf.Leaf? && Distinct(t) && !Owns(t, leaf.id) && !Owns(t, innerId) && leaf.id != innerId
    ensures DistinctKids(Pair(t, leaf), innerId)
  {
    var kids := Pair(t, leaf);
    assert kids == [t, leaf] || kids == [leaf, t];
    forall x | x in kids ensures Distinct(x) && !Owns(x, innerId) {
      assert x == t || x == leaf;
    }
  }

  lemma AddKidIsDistinct(kids: seq<Tree>, id: nat, leaf: Tree, maxOrder: nat)
    requires DistinctKids(kids, id) && kids != [] && leaf.Leaf? && leaf.id != id
    requires forall x :: x in kids ==> !Owns(x, leaf.id)
    ensures DistinctKids(AddKid(kids, leaf, maxOrder), id)
  {
    AddKidMembers(kids, leaf, maxOrder);
    AddKidDisjoint(kids, leaf, maxOrder);
  }

  lemma ReplaceKidIsDistinct(kids: seq<Tree>, id: nat, k: nat, kid: Tree, toEnd: bool)
    requires DistinctKids(kids, id) && k < |kids| && Distinct(kid) && !Owns(kid, id)
    requires forall i: nat :: Owns(kid, i) && !Owns(kids[k], i) ==> forall x :: x in kids ==> !Owns(x, i)
    ensures DistinctKids(ReplaceKid(kids, k, kid, toEnd), id)
  {
    ReplaceKidMembers(kids, k, kid, toEnd);
    ReplaceKidDisjoint(kids, k, kid, toEnd);
    forall x | x in ReplaceKid(kids, k, kid, toEnd) ensures Distinct(x) && !Owns(x, id) {
      assert x == kid || x in kids;
    }
  }

  /** Every node is still reached only once. */
  lemma {:induction false} InsertDistinct(t: Tree, leaf: Tree, innerId: nat)
    requires leaf.Leaf? && Distinct(t)
    requires !Owns(t, leaf.id) && !Owns(t, innerId) && leaf.id != innerId
    ensures Distinct(Inserted(t, leaf, innerId))
  {
    if !Open(t) {
      PairIsDistinct(t, leaf, innerId);
    } else {
      var k := BestChild(leaf.bounds, t.kids);
      var best := t.kids[k];
      assert DistinctKids(t.kids, t.id);
      OutsideKids(t, leaf.id);
      OutsideKids(t, innerId);
      if best.Leaf? && |t.kids| < MAX_CHILDREN {
        AddKidIsDistinct(t.kids, t.id, leaf, t.maxOrder);
      } else {
        InsertDistinct(best, leaf, innerId);
        InsertOwnsAll(best, leaf, innerId);
        assert Owns(t, t.id);
        ReplaceKidIsDistinct(t.kids, t.id, k, Inserted(best, leaf, innerId), t.maxOrder < leaf.MaxOrder());
      }
    }
  }

  lemma {:induction false} OutsideKids(t: Tree, i: nat)
    requires t.Branch? && !Owns(t, i)
    ensures t.id != i && forall x :: x in t.kids ==> !Owns(x, i)
  {
  }

  lemma AddKidDisjoint(kids: seq<Tree>, leaf: Tree, maxOrder: nat)
    requires kids != [] && PairwiseDisjoint(kids) && leaf.Leaf?
    requires forall x :: x in kids ==> !Owns(x, leaf.id)
    ensures PairwiseDisjoint(AddKid(kids, leaf, maxOrder))
  {
    var more := kids + [leaf];
    forall a, b | 0 <= a < |more| && 0 <= b < |more| && a != b
      ensures Disjoint(more[a], more[b])
    {
      if a < |kids| && b < |kids| {
        assert Disjoint(kids[a], kids[b]);
      } else if a < |kids| {
        assert kids[a] in kids;
      } else {
        assert kids[b] in kids;
      }
    }
    SwapDisjoint(more, |more| - 2, |more| - 1);
  }

  lemma SwapDisjoint(kids: seq<Tree>, i: nat, j: nat)
    requires i < |kids| && j < |kids| && PairwiseDisjoint(kids)
    ensures PairwiseDisjoint(Swap(kids, i, j))
  {
    var r := Swap(kids, i, j);
    forall a, b | 0 <= a < |r| && 0 <= b < |r| && a != b
      ensures Disjoint(r[a], r[b])
    {
      var a0 := if a == i then j else if a == j then i else a;
      var b0 := if b == i then j else if b == j then i else b;
      assert Disjoint(kids[a0], kids[b0]);
    }
  }

  lemma ReplaceKidDisjoint(kids: seq<Tree>, k: nat, kid: Tree, toEnd: bool)
    requires k < |kids| && PairwiseDisjoint(kids)
    requires forall i: nat :: Owns(kid, i) && !Owns(kids[k], i) ==> forall x :: x in kids ==> !Owns(x, i)
    ensures PairwiseDisjoint(ReplaceKid(kids, k, kid, toEnd))
  {
    var replaced := kids[k := kid];
    forall a, b | 0 <= a < |replaced| && 0 <= b < |replaced| && a != b
      ensures Disjoint(replaced[a], replaced[b])
    {
      assert Disjoint(kids[a], kids[b]) && Disjoint(kids[b], kids[a]);
    }
    SwapDisjoint(replaced, k, |kids| - 1);
  }

  lemma {:induction false} MaxOrderAbove(t: Tree, kid: Tree)
    requires MaxExact(t) && t.Branch? && kid in t.kids && MaxExact(kid)
    ensures kid.MaxOrder() <= t.maxOrder
  {
    var n := t.maxOrder;
    assert Bounded(n, t);
    forall e | HasEntry(kid, e) ensures e.order <= n {
      assert HasEntry(t, e);
    }
    assert Bounded(n, kid);
  }

  /** The box and the maximum of the result are exact again. */
  lemma InsertExact(t: Tree, leaf: Tree, innerId: nat)
    requires Sound(t) && leaf.Leaf?
    ensures Tight(Inserted(t, leaf, innerId)) && MaxExact(Inserted(t, leaf, innerId))
  {
    var r := Inserted(t, leaf, innerId);
    forall e ensures HasEntry(r, e) <==> HasEntry(t, e) || e == Entry(leaf.bounds, leaf.order) {
      InsertEntries(t, leaf, innerId, e);
    }
    UnionIsLeastAll(t.bounds, leaf.bounds);
    forall c: Bounds ensures c.Contains(r.bounds) <==> Covers(c, r) {
      assert c.Contains(t.bounds) <==> Covers(c, t);
      if Covers(c, r) {
        assert HasEntry(r, Entry(leaf.bounds, leaf.order));
      }
    }
    forall n: nat ensures r.MaxOrder() <= n <==> Bounded(n, r) {
      assert t.MaxOrder() <= n <==> Bounded(n, t);
      if Bounded(n, r) {
        assert HasEntry(r, Entry(leaf.bounds, leaf.order));
      }
    }
  }

  lemma LeafIsSound(leaf: Tree)
    requires leaf.Leaf?
    ensures Sound(leaf)
  {
    var e := Entry(leaf.bounds, leaf.order);
    assert HasEntry(leaf, e);
    forall c: Bounds ensures c.Contains(leaf.bounds) <==> Covers(c, leaf) {
      if Covers(c, leaf) { assert c.Contains(e.bounds); }
    }
    forall n: nat ensures leaf.MaxOrder() <= n <==> Bounded(n, leaf) {
      if Bounded(n, leaf) { assert e.order <= n; }
    }
  }

  /** What a branch asks of its list of children. */
  ghost predicate SoundKids(kids: seq<Tree>, maxOrder: nat) {
    && 2 <= |kids| <= MAX_CHILDREN
    && kids[|kids| - 1].MaxOrder() == maxOrder
    && forall kid :: kid in kids ==> Sound(kid)
  }

  lemma PairIsSound(t: Tree, leaf: Tree)
    requires Sound(t) && Sound(leaf)
    ensures SoundKids(Pair(t, leaf), Max(t.MaxOrder(), leaf.MaxOrder()))
  {
    var kids := Pair(t, leaf);
    assert kids == [t, leaf] || kids == [leaf, t];
  }

  lemma AddKidIsSound(kids: seq<Tree>, leaf: Tree, maxOrder: nat)
    requires SoundKids(kids, maxOrder) && |kids| < MAX_CHILDREN && Sound(leaf)
    ensures SoundKids(AddKid(kids, leaf, maxOrder), Max(maxOrder, leaf.MaxOrder()))
  {
    AddKidMembers(kids, leaf, maxOrder);
  }

  lemma ReplaceKidLast(kids: seq<Tree>, k: nat, kid: Tree, maxOrder: nat, order: nat)
    requires k < |kids| && kids[|kids| - 1].MaxOrder() == maxOrder && kids[k].MaxOrder() <= maxOrder
    requires kid.MaxOrder() == Max(kids[k].MaxOrder(), order)
    ensures ReplaceKid(kids, k, kid, maxOrder < order)[|kids| - 1].MaxOrder() == Max(maxOrder, order)
  {
  }

  lemma ReplaceKidIsSound(kids: seq<Tree>, k: nat, kid: Tree, maxOrder: nat, order: nat)
    requires SoundKids(kids, maxOrder) && k < |kids| && Sound(kid)
    requires kid.MaxOrder() == Max(kids[k].MaxOrder(), order) && kids[k].MaxOrder() <= maxOrder
    ensures SoundKids(ReplaceKid(kids, k, kid, maxOrder < order), Max(maxOrder, order))
  {
    ReplaceKidLast(kids, k, kid, maxOrder, order);
    ReplaceKidMembers(kids, k, kid, maxOrder < order);
    var r := ReplaceKid(kids, k, kid, maxOrder < order);
    forall x | x in r ensures Sound(x) {
      assert x == kid || x in kids;
    }
  }

  /** Fan-out, exact boxes, exact maxima and the largest-child-last rule survive every insertion. */
  lemma {:induction false} InsertSound(t: Tree, leaf: Tree, innerId: nat)
    requires Sound(t) && leaf.Leaf?
    ensures Sound(Inserted(t, leaf, innerId))
  {
    InsertExact(t, leaf, innerId);
    LeafIsSound(leaf);
    if !Open(t) {
      PairIsSound(t, leaf);
    } else {
      var k := BestChild(leaf.bounds, t.kids);
      var best := t.kids[k];
      assert SoundKids(t.kids, t.maxOrder) && Sound(best);
      if best.Leaf? && |t.kids| < MAX_CHILDREN {
        AddKidIsSound(t.kids, leaf, t.maxOrder);
      } else {
        MaxOrderAbove(t, best);
        InsertSound(best, leaf, innerId);
        ReplaceKidIsSound(t.kids, k, Inserted(best, leaf, innerId), t.maxOrder, leaf.MaxOrder());
      }
    }
  }
}
