/**
 The shape of a valid index, said of the vector of nodes itself: what each node holds, that it has
 one parent, and that following children always ends.
 */
module TreeShape {
  import opened Wrappers
  import opened Geometry
  import opened OrderTree
  import opened NodeStore

  /** Node `c` is the child of node `p` in slot `k`. */
  ghost predicate ChildAt(nodes: seq<Node>, p: nat, k: nat, c: nat) {
    && p < |nodes|
    && nodes[p].kind.Internal?
    && k < nodes[p].kind.children.len
    && nodes[p].kind.children.AsSlice()[k] == c
  }

  /** The subtree rooted at a node that `t` owns. */
  lemma {:induction false} SubtreeAt(nodes: seq<Node>, t: Tree, i: nat) returns (s: Tree)
    requires Stored(nodes, t) && Sound(t) && Distinct(t) && Owns(t, i)
    ensures s.id == i && Stored(nodes, s) && Sound(s) && Distinct(s)
    ensures forall j: nat :: Owns(s, j) ==> Owns(t, j)
    decreases t
  {
    if t.id == i {
      s := t;
    } else {
      var kid :| kid in t.kids && Owns(kid, i);
      s := SubtreeAt(nodes, kid, i);
    }
  }

  /** Fan-out, and the child with the largest order in the last slot. */
  lemma BranchShape(nodes: seq<Node>, root: nat, t: Tree, p: nat)
    requires Indexed(nodes, Some(root), Some(t)) && p < |nodes| && nodes[p].kind.Internal?
    ensures var slice := nodes[p].kind.children.AsSlice();
            && 2 <= |slice| <= 12
            && (forall k :: 0 <= k < |slice| ==>
                  slice[k] < |nodes| && nodes[slice[k]].maxOrder <= nodes[p].maxOrder
                  && nodes[p].bounds.Contains(nodes[slice[k]].bounds))
            && nodes[slice[|slice| - 1]].maxOrder == nodes[p].maxOrder
  {
    var s := SubtreeAt(nodes, t, p);
    StoredKids(nodes, s);
    var slice := nodes[p].kind.children.AsSlice();
    forall k | 0 <= k < |slice|
      ensures nodes[slice[k]].maxOrder <= nodes[p].maxOrder && nodes[p].bounds.Contains(nodes[slice[k]].bounds)
    {
      var kid := s.kids[k];
      assert kid in s.kids && Matches(nodes[slice[k]], kid);
      MaxOrderAbove(s, kid);
      KidIsInside(s, kid);
    }
    assert Matches(nodes[slice[|slice| - 1]], s.kids[|slice| - 1]);
  }

  lemma {:induction false} KidIsInside(t: Tree, kid: Tree)
    requires Tight(t) && t.Branch? && kid in t.kids && Tight(kid)
    ensures t.bounds.Contains(kid.bounds)
  {
    assert t.bounds.Contains(t.bounds);
    assert forall e :: HasEntry(kid, e) ==> HasEntry(t, e);
    assert Covers(t.bounds, kid);
  }

  /** A branch's box is the least one that contains its children's boxes. */
  lemma BoxIsLeast(nodes: seq<Node>, root: nat, t: Tree, p: nat, c: Bounds)
    requires Indexed(nodes, Some(root), Some(t)) && p < |nodes| && nodes[p].kind.Internal?
    requires forall k: nat, i: nat :: ChildAt(nodes, p, k, i) ==> i < |nodes| && c.Contains(nodes[i].bounds)
    ensures c.Contains(nodes[p].bounds)
  {
    var s := SubtreeAt(nodes, t, p);
    StoredKids(nodes, s);
    forall e | HasEntry(s, e) ensures c.Contains(e.bounds) {
      var kid :| kid in s.kids && HasEntry(kid, e);
      var k: nat :| k < |s.kids| && s.kids[k] == kid;
      assert ChildAt(nodes, p, k, kid.id) && Matches(nodes[kid.id], kid);
      assert Tight(kid);
      assert Covers(c, kid);
    }
    assert Covers(c, s);
  }

  /** A child is owned strictly below its parent. */
  lemma ChildIsBelow(nodes: seq<Node>, t: Tree, k: nat, c: nat)
    requires Stored(nodes, t) && ChildAt(nodes, t.id, k, c)
    ensures t.Branch? && k < |t.kids| && t.kids[k].id == c && Owns(t.kids[k], c)
  {
  }

  /** A child of any node that `t` owns is owned by `t`, and is not the root of `t`. */
  lemma {:induction false} ChildIsOwned(nodes: seq<Node>, t: Tree, p: nat, k: nat, c: nat)
    requires Stored(nodes, t) && Distinct(t) && Owns(t, p) && ChildAt(nodes, p, k, c)
    ensures Owns(t, c) && c != t.id
    decreases t
  {
    if p == t.id {
      ChildIsBelow(nodes, t, k, c);
      assert t.kids[k] in t.kids;
    } else {
      var kid :| kid in t.kids && Owns(kid, p);
      ChildIsOwned(nodes, kid, p, k, c);
    }
  }

  /** Two children that own the same node are the same child. */
  lemma SameKid(t: Tree, a: nat, b: nat, c: nat)
    requires Distinct(t) && t.Branch? && a < |t.kids| && b < |t.kids|
    requires Owns(t.kids[a], c) && Owns(t.kids[b], c)
    ensures a == b
  {
    assert a == b || Disjoint(t.kids[a], t.kids[b]);
  }

  /** No node has two parents, or two places under one. */
  lemma {:induction false} OneParent(nodes: seq<Node>, t: Tree, p: nat, k: nat, q: nat, l: nat, c: nat)
    requires Stored(nodes, t) && Distinct(t) && Owns(t, p) && Owns(t, q)
    requires ChildAt(nodes, p, k, c) && ChildAt(nodes, q, l, c)
    ensures p == q && k == l
    decreases t
  {
    if p == t.id || q == t.id {
      ParentIsRoot(nodes, t, p, k, q, l, c);
      ChildIsBelow(nodes, t, k, c);
      ChildIsBelow(nodes, t, l, c);
      SameKid(t, k, l, c);
    } else {
      var a: nat :| a < |t.kids| && Owns(t.kids[a], p);
      var b: nat :| b < |t.kids| && Owns(t.kids[b], q);
      assert t.kids[a] in t.kids && t.kids[b] in t.kids;
      ChildIsOwned(nodes, t.kids[a], p, k, c);
      ChildIsOwned(nodes, t.kids[b], q, l, c);
      SameKid(t, a, b, c);
      OneParent(nodes, t.kids[a], p, k, q, l, c);
    }
  }

  /** A child of the root of `t` is not also a child further down. */
  lemma ParentIsRoot(nodes: seq<Node>, t: Tree, p: nat, k: nat, q: nat, l: nat, c: nat)
    requires Stored(nodes, t) && Distinct(t) && Owns(t, p) && Owns(t, q) && (p == t.id || q == t.id)
    requires ChildAt(nodes, p, k, c) && ChildAt(nodes, q, l, c)
    ensures p == q
  {
    if p == t.id {
      ChildOfRootOnly(nodes, t, k, q, l, c);
    } else {
      ChildOfRootOnly(nodes, t, l, p, k, c);
    }
  }

  lemma ChildOfRootOnly(nodes: seq<Node>, t: Tree, k: nat, q: nat, l: nat, c: nat)
    requires Stored(nodes, t) && Distinct(t) && Owns(t, q)
    requires ChildAt(nodes, t.id, k, c) && ChildAt(nodes, q, l, c)
    ensures q == t.id
  {
    if q != t.id {
      ChildIsBelow(nodes, t, k, c);
      var b: nat :| b < |t.kids| && Owns(t.kids[b], q);
      assert t.kids[b] in t.kids;
      ChildIsOwned(nodes, t.kids[b], q, l, c);
      SameKid(t, b, k, c);
      assert false;
    }
  }

  /** Every node but the root has a parent. */
  lemma {:induction false} SomeParent(nodes: seq<Node>, t: Tree, c: nat) returns (p: nat, k: nat)
    requires Stored(nodes, t) && Owns(t, c) && c != t.id
    ensures Owns(t, p) && ChildAt(nodes, p, k, c)
    decreases t
  {
    k :| k < |t.kids| && Owns(t.kids[k], c);
    assert t.kids[k] in t.kids;
    if t.kids[k].id == c {
      p := t.id;
      assert Matches(nodes[p], t);
    } else {
      var kid := t.kids[k];
      p, k := SomeParent(nodes, kid, c);
      assert Owns(t, p);
    }
  }

  /** Each node except the root is in exactly one slot of exactly one branch; the root is in none. */
  lemma EachNodeOnce(nodes: seq<Node>, root: nat, t: Tree, c: nat)
    requires Indexed(nodes, Some(root), Some(t)) && c < |nodes|
    ensures c != root ==> exists p: nat, k: nat :: ChildAt(nodes, p, k, c)
    ensures forall p: nat, k: nat, q: nat, l: nat ::
              ChildAt(nodes, p, k, c) && ChildAt(nodes, q, l, c) ==> p == q && k == l
    ensures forall p: nat, k: nat :: !ChildAt(nodes, p, k, root)
  {
    if c != root {
      var p, k := SomeParent(nodes, t, c);
    }
    forall p: nat, k: nat, q: nat, l: nat | ChildAt(nodes, p, k, c) && ChildAt(nodes, q, l, c)
      ensures p == q && k == l
    {
      OneParent(nodes, t, p, k, q, l, c);
    }
    forall p: nat, k: nat ensures !ChildAt(nodes, p, k, root) {
      if ChildAt(nodes, p, k, root) {
        ChildIsOwned(nodes, t, p, k, root);
        assert false;
      }
    }
  }
}
