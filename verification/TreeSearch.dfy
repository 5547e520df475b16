/**
 Why the pruned depth-first search returns what the linear scan returns: the loop invariant of the
 search (`NothingMissed`) and the step lemmas that keep it.
 */
module TreeSearch {
  import opened Wrappers
  import opened Geometry
  import opened OrderTree
  import opened NodeStore

  /** What the search still has to look at: subtrees of the index, one for each index on the stack. */
  ghost predicate Pending(nodes: seq<Node>, stack: seq<nat>, trees: seq<Tree>) {
    && stack == Ids(trees)
    && forall t :: t in trees ==>
                     Stored(nodes, t) && Sound(t) && forall e :: HasEntry(t, e) ==> e in LeafEntries(nodes)
  }

  ghost predicate Meets(e: Entry, q: Bounds) {
    e.bounds.Intersects(q)
  }

  /** Every rectangle met is either no better than `found` or below a subtree on the stack. */
  ghost predicate NothingMissed(history: seq<Entry>, q: Bounds, found: nat, trees: seq<Tree>) {
    && (forall e :: e in history && Meets(e, q) ==>
                      e.order <= found || exists t :: t in trees && HasEntry(t, e))
    && (found == 0 || exists e :: e in history && Meets(e, q) && e.order == found)
  }

  /** Both kinds of pruning: a subtree that cannot improve the result, or that does not meet `q`, may go. */
  lemma Prune(q: Bounds, t: Tree, found: nat, e: Entry)
    requires Sound(t)
    requires t.MaxOrder() <= found || !q.Intersects(t.bounds)
    requires HasEntry(t, e) && Meets(e, q)
    ensures e.order <= found
  {
    assert Bounded(t.MaxOrder(), t);
    if !q.Intersects(t.bounds) {
      assert t.bounds.Contains(t.bounds);
      assert Covers(t.bounds, t);
      IntersectsSymmetric(e.bounds, q);
      IntersectsGrows(q, e.bounds, t.bounds);
    }
  }

  /** Popping the top subtree loses nothing if each of its rectangles is dealt with. */
  lemma PopTop(history: seq<Entry>, q: Bounds, found: nat, trees: seq<Tree>, found': nat, trees': seq<Tree>)
    requires trees != [] && NothingMissed(history, q, found, trees)
    requires found <= found'
    requires forall t :: t in trees[..|trees| - 1] ==> t in trees'
    requires forall e :: HasEntry(trees[|trees| - 1], e) && Meets(e, q) ==>
                           e.order <= found' || exists t :: t in trees' && HasEntry(t, e)
    requires found' == found || exists e :: e in history && Meets(e, q) && e.order == found'
    ensures NothingMissed(history, q, found', trees')
  {
    var top := trees[|trees| - 1];
    assert trees == trees[..|trees| - 1] + [top];
    forall e | e in history && Meets(e, q) && e.order > found'
      ensures exists t :: t in trees' && HasEntry(t, e)
    {
      var t :| t in trees && HasEntry(t, e);
      if t != top {
        assert t in trees[..|trees| - 1];
      }
    }
  }

  /** Replacing the top of the stack by its promising children. */
  lemma Expand(history: seq<Entry>, q: Bounds, found: nat, base: seq<Tree>, top: Tree)
    requires NothingMissed(history, q, found, base + [top])
    requires top.Branch? && Sound(top)
    ensures NothingMissed(history, q, found, base + Promising(top.kids, found))
  {
    var trees := base + [top];
    var trees' := base + Promising(top.kids, found);
    assert trees[..|trees| - 1] == base;
    forall e | HasEntry(top, e) && Meets(e, q) && e.order > found
      ensures exists t :: t in trees' && HasEntry(t, e)
    {
      var kid :| kid in top.kids && HasEntry(kid, e);
      assert Sound(kid);
      assert Bounded(kid.MaxOrder(), kid);
      assert kid in trees';
    }
    PopTop(history, q, found, trees, found, trees');
  }

  lemma DropTop(history: seq<Entry>, q: Bounds, found: nat, base: seq<Tree>, top: Tree)
    requires NothingMissed(history, q, found, base + [top])
    requires Sound(top) && (top.MaxOrder() <= found || !q.Intersects(top.bounds))
    ensures NothingMissed(history, q, found, base)
  {
    forall e | HasEntry(top, e) && Meets(e, q) ensures e.order <= found {
      Prune(q, top, found, e);
    }
    var trees := base + [top];
    assert trees[..|trees| - 1] == base;
    PopTop(history, q, found, trees, found, base);
  }

  lemma TakeLeaf(history: seq<Entry>, q: Bounds, found: nat, base: seq<Tree>, top: Tree)
    requires NothingMissed(history, q, found, base + [top])
    requires top.Leaf? && q.Intersects(top.bounds) && Entry(top.bounds, top.order) in history
    ensures NothingMissed(history, q, Max(found, top.order), base)
  {
    IntersectsSymmetric(q, top.bounds);
    assert Meets(Entry(top.bounds, top.order), q);
    var trees := base + [top];
    assert trees[..|trees| - 1] == base;
    PopTop(history, q, found, trees, Max(found, top.order), base);
  }

  lemma StartSearch(nodes: seq<Node>, root: Option<nat>, tree: Option<Tree>, q: Bounds)
    requires Indexed(nodes, root, tree) && root.Some?
    ensures Pending(nodes, [root.value], [tree.value])
    ensures NothingMissed(LeafEntries(nodes), q, 0, [tree.value])
  {
    assert tree.value in [tree.value];
  }

  lemma NothingLeft(history: seq<Entry>, q: Bounds, found: nat)
    requires NothingMissed(history, q, found, [])
    ensures found == MaxIntersecting(history, q)
  {
    assert forall e :: e in history && e.bounds.Intersects(q) ==> Meets(e, q);
    MaxIntersectingIs(history, q, found);
  }

  /** What popping the stack finds. */
  lemma TopNode(nodes: seq<Node>, stack: seq<nat>, trees: seq<Tree>)
    requires Pending(nodes, stack, trees) && stack != []
    ensures var last := |stack| - 1;
            var top := trees[last];
            && trees == trees[..last] + [top]
            && stack[last] == top.id < |nodes|
            && Matches(nodes[top.id], top)
            && Sound(top)
            && (top.Leaf? ==> Entry(top.bounds, top.order) in LeafEntries(nodes))
            && (top.Branch? ==> Listed(nodes, Ids(top.kids), top.kids))
            && stack[..last] == Ids(trees[..last])
            && Pending(nodes, stack[..last], trees[..last])
            && TotalSize(trees) == TotalSize(trees[..last]) + Size(top)
  {
    var top := trees[|stack| - 1];
    assert top in trees;
    if top.Leaf? {
      assert HasEntry(top, Entry(top.bounds, top.order));
    } else {
      StoredKids(nodes, top);
    }
  }

  lemma PromisingPending(nodes: seq<Node>, base: seq<Tree>, top: Tree, floor: nat)
    requires Pending(nodes, Ids(base + [top]), base + [top]) && top.Branch?
    ensures var trees := base + Promising(top.kids, floor); Pending(nodes, Ids(trees), trees)
  {
    var trees := base + Promising(top.kids, floor);
    assert top in base + [top];
    forall t | t in trees
      ensures Stored(nodes, t) && Sound(t) && forall e :: HasEntry(t, e) ==> e in LeafEntries(nodes)
    {
      if t in base {
        assert t in base + [top];
      } else {
        assert t in top.kids;
        assert forall e :: HasEntry(t, e) ==> HasEntry(top, e);
      }
    }
  }

  // ---------- Sizes: why the search ends ----------

  ghost function Size(t: Tree): nat
    ensures Size(t) > 0
    decreases t, 0
  {
    if t.Leaf? then 1 else 1 + TotalSize(t.kids)
  }

  ghost function TotalSize(ts: seq<Tree>): nat
    decreases ts, 1
  {
    if ts == [] then 0 else TotalSize(ts[..|ts| - 1]) + Size(ts[|ts| - 1])
  }

  /** The children still worth visiting, in order. */
  ghost function Promising(kids: seq<Tree>, floor: nat): (r: seq<Tree>)
    ensures forall x :: x in r <==> x in kids && x.MaxOrder() > floor
    ensures TotalSize(r) <= TotalSize(kids)
  {
    if kids == [] then
      []
    else
      var n := |kids| - 1;
      var rest := Promising(kids[..n], floor);
      assert kids == kids[..n] + [kids[n]];
      if kids[n].MaxOrder() > floor then
        assert (rest + [kids[n]])[..|rest|] == rest;
        rest + [kids[n]]
      else
        rest
  }

  lemma PromisingPush(kids: seq<Tree>, k: nat, next: nat, floor: nat)
    requires k < |kids| && next == k + 1
    ensures Promising(kids[..next], floor) ==
            Promising(kids[..k], floor) + if kids[k].MaxOrder() > floor then [kids[k]] else []
  {
    assert kids[..next][..k] == kids[..k];
  }

  /** The next child is pushed exactly when it is promising. */
  lemma PromisingStep(nodes: seq<Node>, slice: seq<nat>, kids: seq<Tree>, k: nat, next: nat, floor: nat, base: seq<Tree>)
    requires Listed(nodes, slice, kids) && k < |kids| && next == k + 1
    ensures slice[k] < |nodes|
    ensures Ids(base + Promising(kids[..next], floor)) ==
            Ids(base + Promising(kids[..k], floor)) + if nodes[slice[k]].maxOrder > floor then [slice[k]] else []
  {
    assert Matches(nodes[slice[k]], kids[k]) && slice[k] == kids[k].id;
    PromisingPush(kids, k, next, floor);
    PushedIds(base, Promising(kids[..k], floor), kids[k]);
  }

  lemma PushedIds(base: seq<Tree>, ts: seq<Tree>, t: Tree)
    ensures Ids(base + (ts + [t])) == Ids(base + ts) + [t.id]
    ensures base + (ts + []) == base + ts
  {
  }

  lemma {:induction false} TotalSizeConcat(a: seq<Tree>, b: seq<Tree>)
    ensures TotalSize(a + b) == TotalSize(a) + TotalSize(b)
  {
    if b == [] {
      assert a + b == a;
    } else {
      var n := |b| - 1;
      assert (a + b)[..|a + b| - 1] == a + b[..n];
      TotalSizeConcat(a, b[..n]);
    }
  }
}
