/**
 What the orders mean: the order of a rectangle is the length of the longest chain of rectangles, in
 insertion order, each meeting the next, that ends at it.
 */
module Chains {
  import opened Geometry
  import opened OrderTree
  import opened NodeStore

  /** Increasing positions in the history, each rectangle meeting the next. */
  ghost predicate IsChain(history: seq<Entry>, chain: seq<nat>) {
    && chain != []
    && (forall k :: 0 <= k < |chain| ==> chain[k] < |history|)
    && (forall k :: 0 < k < |chain| ==> Follows(history, chain[k - 1], chain[k]))
  }

  ghost predicate Follows(history: seq<Entry>, i: nat, j: nat) {
    i < j < |history| && history[i].bounds.Intersects(history[j].bounds)
  }

  function Last(chain: seq<nat>): nat
    requires chain != []
  {
    chain[|chain| - 1]
  }

  /** A rectangle is strictly above every earlier one that it meets. */
  lemma LaterIsAbove(history: seq<Entry>, i: nat, j: nat)
    requires LinearScan(history) && Follows(history, i, j)
    ensures history[i].order < history[j].order
  {
    assert history[..j][i] in history[..j];
    MaxIntersectingBounds(history[..j], history[j].bounds);
  }

  /** No chain that ends at a rectangle is longer than its order. */
  lemma {:induction false} ChainAtMostOrder(history: seq<Entry>, chain: seq<nat>)
    requires LinearScan(history) && IsChain(history, chain)
    ensures |chain| <= history[Last(chain)].order
  {
    if |chain| > 1 {
      var rest := chain[..|chain| - 1];
      ChainAtMostOrder(history, rest);
      assert Follows(history, chain[|chain| - 2], chain[|chain| - 1]);
      LaterIsAbove(history, Last(rest), Last(chain));
    }
  }

  /** A rectangle that is not at the bottom lies directly above an earlier one that it meets. */
  lemma DirectlyBelow(history: seq<Entry>, i: nat) returns (j: nat)
    requires LinearScan(history) && i < |history| && history[i].order != 1
    ensures Follows(history, j, i) && history[i].order == 1 + history[j].order
  {
    var below := history[..i];
    var q := history[i].bounds;
    MaxIntersectingBounds(below, q);
    var e :| e in below && e.bounds.Intersects(q) && e.order == MaxIntersecting(below, q);
    j :| 0 <= j < |below| && below[j] == e;
  }

  /** Some chain that ends at a rectangle is as long as its order. */
  lemma {:induction false} ChainOfOrder(history: seq<Entry>, i: nat) returns (chain: seq<nat>)
    requires LinearScan(history) && i < |history|
    ensures IsChain(history, chain) && Last(chain) == i
    ensures |chain| == history[i].order
    decreases i
  {
    if history[i].order == 1 {
      chain := [i];
    } else {
      var j := DirectlyBelow(history, i);
      var rest := ChainOfOrder(history, j);
      chain := rest + [i];
    }
  }

  /** So an order is exactly a longest chain, and is at most the number of rectangles so far. */
  lemma OrderIsLongestChain(history: seq<Entry>, i: nat, n: nat)
    requires LinearScan(history) && i < |history|
    ensures n <= history[i].order && n > 0 <==>
            exists chain :: IsChain(history, chain) && Last(chain) == i && |chain| == n
    ensures 1 <= history[i].order <= i + 1
  {
    var longest := ChainOfOrder(history, i);
    ChainRises(history, longest, 0);
    if 0 < n <= history[i].order {
      var chain := longest[|longest| - n..];
      forall k | 0 < k < |chain| ensures Follows(history, chain[k - 1], chain[k]) {
        assert chain[k] == longest[|longest| - n + k];
        assert Follows(history, longest[|longest| - n + k - 1], longest[|longest| - n + k]);
      }
      assert IsChain(history, chain) && Last(chain) == i && |chain| == n;
    }
    forall chain | IsChain(history, chain) && Last(chain) == i && |chain| == n ensures n <= history[i].order {
      ChainAtMostOrder(history, chain);
    }
  }

  lemma {:induction false} ChainRises(history: seq<Entry>, chain: seq<nat>, k: nat)
    requires IsChain(history, chain) && k < |chain|
    ensures chain[k] + (|chain| - 1 - k) <= Last(chain)
    decreases |chain| - k
  {
    if k < |chain| - 1 {
      assert Follows(history, chain[k], chain[k + 1]);
      ChainRises(history, chain, k + 1);
    }
  }

  /** `p` is inside the rectangle at position `i`. */
  ghost predicate PaintedAt(history: seq<Entry>, i: nat, p: Point) {
    i < |history| && Inside(p, history[i].bounds)
  }

  /** Wherever two rectangles overlap, the later one is above. */
  lemma LaterIsOnTop(history: seq<Entry>, i: nat, j: nat, p: Point)
    requires LinearScan(history) && i < j && PaintedAt(history, i, p) && PaintedAt(history, j, p)
    ensures history[i].order < history[j].order
  {
    var a, b := history[i].bounds, history[j].bounds;
    assert Positive(a) && Positive(b);
    MeetIsSharedPoint(a, b);
    LaterIsAbove(history, i, j);
  }

  /** A rectangle that shares no point with an earlier one is at the bottom, and only such a one is. */
  lemma BottomIff(history: seq<Entry>, j: nat)
    requires LinearScan(history) && j < |history| && forall i :: 0 <= i <= j ==> Positive(history[i].bounds)
    ensures history[j].order == 1 <==>
            forall i: nat, p: Point :: i < j && PaintedAt(history, j, p) ==> !PaintedAt(history, i, p)
  {
    if history[j].order == 1 {
      forall i: nat, p: Point | i < j && PaintedAt(history, j, p) ensures !PaintedAt(history, i, p) {
        if PaintedAt(history, i, p) {
          OrderIsLongestChain(history, i, 1);
          LaterIsOnTop(history, i, j, p);
        }
      }
    } else {
      var i := DirectlyBelow(history, j);
      MeetIsSharedPoint(history[i].bounds, history[j].bounds);
      var p :| Inside(p, history[i].bounds) && Inside(p, history[j].bounds);
      assert PaintedAt(history, i, p) && PaintedAt(history, j, p);
    }
  }

  /** Otherwise it is one above the highest of the earlier ones that it shares a point with. */
  lemma OneAboveHighest(history: seq<Entry>, j: nat)
    requires LinearScan(history) && j < |history| && forall i :: 0 <= i <= j ==> Positive(history[i].bounds)
    requires history[j].order != 1
    ensures exists i: nat, p: Point ::
              i < j && PaintedAt(history, i, p) && PaintedAt(history, j, p) && history[j].order == 1 + history[i].order
    ensures forall i: nat, p: Point ::
              i < j && PaintedAt(history, i, p) && PaintedAt(history, j, p) ==> history[i].order < history[j].order
  {
    var i := DirectlyBelow(history, j);
    MeetIsSharedPoint(history[i].bounds, history[j].bounds);
    var p :| Inside(p, history[i].bounds) && Inside(p, history[j].bounds);
    assert PaintedAt(history, i, p) && PaintedAt(history, j, p);
    forall i: nat, p: Point | i < j && PaintedAt(history, i, p) && PaintedAt(history, j, p)
      ensures history[i].order < history[j].order
    {
      LaterIsOnTop(history, i, j, p);
    }
  }
}
