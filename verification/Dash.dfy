/**
 Splitting a stroke into dashes, over exact lengths: the loop that walks along the path, against the
 periodic pattern of section 13.5.6 of SVG 2 that it draws.
 */
module Dash {
  import opened Multiples

  // A part of the path as fractions of its length.
  datatype Part = Part(start: real, end: real)

  /** The list as it is kept: an odd list is repeated once. */
  function DashArray(dashes: seq<real>): seq<real> {
    if |dashes| % 2 == 1 then dashes + dashes else dashes
  }

  /** It is of even length and goes round the given list, once or twice. */
  lemma DashArrayIs(dashes: seq<real>)
    ensures |DashArray(dashes)| % 2 == 0
    ensures |DashArray(dashes)| == if |dashes| % 2 == 0 then |dashes| else |dashes| + |dashes|
    ensures forall i :: 0 <= i < |DashArray(dashes)| ==>
              DashArray(dashes)[i] == dashes[if i < |dashes| then i else i - |dashes|]
  {
  }

  predicate NonNegative(dashes: seq<real>) {
    forall i :: 0 <= i < |dashes| ==> dashes[i] >= 0.0
  }

  function At(dashes: seq<real>, i: nat): real
    requires dashes != []
  {
    dashes[i % |dashes|]
  }

  /** The first round is the list itself. */
  lemma AtFirst(dashes: seq<real>, i: nat)
    requires i < |dashes|
    ensures At(dashes, i) == dashes[i]
  {
    ModIs(i, |dashes|, 0, i);
  }

  /** Where the `k`-th segment of the endlessly repeated list begins. */
  function Prefix(dashes: seq<real>, k: nat): real
    requires dashes != []
  {
    if k == 0 then 0.0 else Prefix(dashes, k - 1) + At(dashes, k - 1)
  }

  function Period(dashes: seq<real>): real
    requires dashes != []
  {
    Prefix(dashes, |dashes|)
  }

  /** No length is negative and one is positive. */
  predicate Legal(dashes: seq<real>) {
    NonNegative(dashes) && exists i :: 0 <= i < |dashes| && dashes[i] > 0.0
  }

  /** Some segment begins behind the end of the path: the list as a whole goes forward, or one round gets that far. */
  ghost predicate CanEnd(dashes: seq<real>, length: real) {
    dashes != [] && (Period(dashes) > 0.0 || exists r: nat :: r <= |dashes| && Prefix(dashes, r) >= length)
  }

  /** The `n`-th segment is the first that does not begin before the end of the path. */
  ghost predicate FirstBehind(dashes: seq<real>, length: real, n: nat)
    requires dashes != []
  {
    Prefix(dashes, n) >= length && forall j: nat :: j < n ==> Prefix(dashes, j) < length
  }

  function Min(x: real, y: real): real {
    if x < y then x else y
  }

  /** The drawn parts among the first `k` segments: the even ones that begin before the end of the path. */
  function Drawn(dashes: seq<real>, length: real, k: nat): seq<Part>
    requires dashes != [] && length > 0.0
  {
    if k == 0 then
      []
    else
      var start := Prefix(dashes, k - 1);
      Drawn(dashes, length, k - 1) +
      if (k - 1) % 2 == 0 && start < length then [PartOf(start, Prefix(dashes, k), length)] else []
  }

  // ---------- The pattern ----------

  lemma {:induction false} PrefixRises(dashes: seq<real>, j: nat, k: nat)
    requires dashes != [] && NonNegative(dashes) && j <= k
    ensures 0.0 <= Prefix(dashes, j) <= Prefix(dashes, k)
    decreases k
  {
    if j < k {
      PrefixRises(dashes, j, k - 1);
    } else if k > 0 {
      PrefixRises(dashes, k - 1, k - 1);
    }
  }

  lemma AtShifted(dashes: seq<real>, i: nat)
    requires dashes != []
    ensures At(dashes, i + |dashes|) == At(dashes, i)
  {
    var n := |dashes|;
    ModIs(i + n, n, i / n + 1, i % n);
  }

  /** One period further on the pattern begins again. */
  lemma {:induction false} PrefixShifted(dashes: seq<real>, i: nat)
    requires dashes != []
    ensures Prefix(dashes, i + |dashes|) == Period(dashes) + Prefix(dashes, i)
  {
    if i > 0 {
      PrefixShifted(dashes, i - 1);
      AtShifted(dashes, i - 1);
    }
  }

  lemma PrefixShiftedTo(dashes: seq<real>, i: nat, j: nat)
    requires dashes != [] && j == i + |dashes|
    ensures Prefix(dashes, j) == Period(dashes) + Prefix(dashes, i)
  {
    PrefixShifted(dashes, i);
  }

  /** However many periods, the pattern gets as far. */
  lemma {:induction false} PeriodsAdd(dashes: seq<real>, m: nat) returns (n: nat)
    requires dashes != []
    ensures Prefix(dashes, n) == m as real * Period(dashes)
  {
    if m == 0 {
      n := 0;
    } else {
      var less := PeriodsAdd(dashes, m - 1);
      n := less + |dashes|;
      PrefixShiftedTo(dashes, less, n);
      OnePeriodMore(m - 1, m, Period(dashes));
    }
  }

  lemma OnePeriodMore(less: nat, m: nat, p: real)
    requires m == less + 1
    ensures m as real * p == less as real * p + p
  {
    assert m as real == less as real + 1.0;
  }

  lemma PeriodIsPositive(dashes: seq<real>)
    requires Legal(dashes)
    ensures Period(dashes) > 0.0
  {
    var i: nat :| i < |dashes| && dashes[i] > 0.0;
    PrefixRises(dashes, 0, i);
    PrefixRises(dashes, i + 1, |dashes|);
    ModIs(i, |dashes|, 0, i);
    assert Prefix(dashes, i + 1) == Prefix(dashes, i) + dashes[i];
  }

  /** A pattern that goes forward reaches any length. */
  lemma Reaches(dashes: seq<real>, length: real) returns (n: nat)
    requires length > 0.0 ==> CanEnd(dashes, length)
    ensures length > 0.0 ==> Prefix(dashes, n) >= length
  {
    n := 0;
    if length > 0.0 {
      if Period(dashes) > 0.0 {
        var m := EnoughPeriods(length, Period(dashes));
        n := PeriodsAdd(dashes, m);
      } else {
        n :| n <= |dashes| && Prefix(dashes, n) >= length;
      }
    }
  }

  lemma EnoughPeriods(length: real, p: real) returns (m: nat)
    requires length > 0.0 && p > 0.0
    ensures m as real * p >= length
  {
    var q := length / p;
    m := q.Floor + 1;
    Scale(length, p);
    LargerMultiple(q, m as real, p);
  }

  lemma LargerMultiple(x: real, y: real, p: real)
    requires x <= y && p > 0.0
    ensures x * p <= y * p
  {
    assert (y - x) * p >= 0.0;
  }

  lemma Scale(x: real, length: real)
    requires length > 0.0
    ensures x / length * length == x
  {
  }

  /** A pattern that does not go forward gets no farther than in its first round. */
  lemma {:induction false} FirstRoundIsFarthest(dashes: seq<real>, n: nat) returns (r: nat)
    requires dashes != [] && Period(dashes) <= 0.0
    ensures r <= |dashes| && Prefix(dashes, n) <= Prefix(dashes, r)
  {
    r := n;
    if n > |dashes| {
      PrefixShiftedTo(dashes, n - |dashes|, n);
      r := FirstRoundIsFarthest(dashes, n - |dashes|);
    }
  }

  /** Whatever the signs of the lengths, the loop can end exactly when the path has no length or the pattern gets to its end. */
  lemma ReachesIff(dashes: seq<real>, length: real)
    requires dashes != []
    ensures (exists n: nat :: Prefix(dashes, n) >= length) <==> length <= 0.0 || CanEnd(dashes, length)
  {
    assert Prefix(dashes, 0) == 0.0;
    if length <= 0.0 || CanEnd(dashes, length) {
      var n := Reaches(dashes, length);
    } else {
      forall n: nat ensures Prefix(dashes, n) < length {
        var r := FirstRoundIsFarthest(dashes, n);
      }
    }
  }

  /** Over non-negative lengths that is when some dash has a length. */
  lemma LegalCanEnd(dashes: seq<real>, length: real)
    requires NonNegative(dashes) && length > 0.0
    ensures CanEnd(dashes, length) <==> Legal(dashes)
  {
    if Legal(dashes) {
      PeriodIsPositive(dashes);
    } else if dashes != [] {
      forall n: nat ensures Prefix(dashes, n) == 0.0 {
        StaysAtZero(dashes, n);
      }
    }
  }

  lemma {:induction false} StaysAtZero(dashes: seq<real>, n: nat)
    requires dashes != [] && NonNegative(dashes) && !Legal(dashes)
    ensures Prefix(dashes, n) == 0.0
  {
    if n > 0 {
      StaysAtZero(dashes, n - 1);
      assert dashes[(n - 1) % |dashes|] >= 0.0;
    }
  }

  /** Repeating an odd list changes no segment, so it changes nothing that is drawn. */
  lemma {:induction false} DoublingChangesNothing(dashes: seq<real>, length: real, k: nat)
    requires dashes != [] && length > 0.0
    ensures Prefix(DashArray(dashes), k) == Prefix(dashes, k)
    ensures Drawn(DashArray(dashes), length, k) == Drawn(dashes, length, k)
  {
    if k > 0 {
      DoublingChangesNothing(dashes, length, k - 1);
      DoubledAt(dashes, k - 1);
    }
  }

  lemma Doubled(q: nat, n: nat, twice: nat, even: nat)
    requires twice == n + n && even == q + q
    ensures q * twice == even * n && (even + 1) * n == even * n + n
  {
  }

  /** The remainder by twice a number is the remainder by the number, or that much more. */
  lemma RemainderOfDouble(i: nat, n: nat, twice: nat)
    requires n > 0 && twice == n + n
    ensures i % twice == i % n || i % twice == i % n + n
  {
    var q, r := i / twice, i % twice;
    var even := q + q;
    Doubled(q, n, twice, even);
    if r < n {
      ModIs(i, n, even, r);
    } else {
      ModIs(i, n, even + 1, r - n);
    }
  }

  lemma DoubledAt(dashes: seq<real>, i: nat)
    requires dashes != []
    ensures At(DashArray(dashes), i) == At(dashes, i)
  {
    if |dashes| % 2 == 1 {
      RemainderOfDouble(i, |dashes|, |DashArray(dashes)|);
    }
  }

  /** The point `p` lies in the `i`-th segment, and the segment is a dash. */
  ghost predicate InDash(dashes: seq<real>, i: nat, p: real)
    requires dashes != []
  {
    i % 2 == 0 && Prefix(dashes, i) <= p < Prefix(dashes, i + 1)
  }

  /** The point `p` lies on a dash of the endless pattern: in a segment with an even number. */
  ghost predicate OnDash(dashes: seq<real>, p: real)
    requires dashes != []
  {
    exists i: nat :: InDash(dashes, i, p)
  }

  lemma InDashShifted(dashes: seq<real>, i: nat, j: nat, p: real, q: real)
    requires dashes != [] && i % 2 == j % 2 && j == i + |dashes| && q == p + Period(dashes)
    ensures InDash(dashes, i, p) <==> InDash(dashes, j, q)
  {
    PrefixShiftedTo(dashes, i, j);
    PrefixShiftedTo(dashes, i + 1, j + 1);
  }

  lemma SameParity(i: nat, j: nat, n: nat)
    requires n % 2 == 0 && j == i + n
    ensures i % 2 == j % 2
  {
  }

  /** A list of even length repeats itself with its period. */
  lemma OnDashIsPeriodic(dashes: seq<real>, p: real)
    requires dashes != [] && NonNegative(dashes) && |dashes| % 2 == 0 && p >= 0.0
    ensures OnDash(dashes, p) <==> OnDash(dashes, p + Period(dashes))
  {
    var q := p + Period(dashes);
    if OnDash(dashes, p) {
      var i: nat :| InDash(dashes, i, p);
      SameParity(i, i + |dashes|, |dashes|);
      InDashShifted(dashes, i, i + |dashes|, p, q);
    }
    if OnDash(dashes, q) {
      var j: nat :| InDash(dashes, j, q);
      if j + 1 <= |dashes| {
        PrefixRises(dashes, j + 1, |dashes|);
      }
      SameParity(j - |dashes|, j, |dashes|);
      InDashShifted(dashes, j - |dashes|, j, p, q);
    }
  }

  // ---------- What is drawn ----------

  ghost predicate InPart(part: Part, length: real, p: real) {
    part.start * length <= p < part.end * length
  }

  /** The point at distance `p` from the start lies in one of the parts. */
  ghost predicate Covered(parts: seq<Part>, length: real, p: real) {
    exists j :: 0 <= j < |parts| && InPart(parts[j], length, p)
  }

  /** The part drawn for a segment that begins before the end of the path. */
  function PartOf(start: real, end: real, length: real): Part
    requires length > 0.0
  {
    Part(start / length, Min(end, length) / length)
  }

  lemma PartCovers(start: real, end: real, length: real, p: real)
    requires length > 0.0 && p < length
    ensures InPart(PartOf(start, end, length), length, p) <==> start <= p < end
  {
    Scale(start, length);
    Scale(Min(end, length), length);
  }

  lemma CoveredPush(parts: seq<Part>, part: Part, length: real, p: real)
    ensures Covered(parts + [part], length, p) <==> Covered(parts, length, p) || InPart(part, length, p)
  {
    var after := parts + [part];
    assert after[|parts|] == part;
    if Covered(parts, length, p) {
      var j :| 0 <= j < |parts| && InPart(parts[j], length, p);
      assert after[j] == parts[j];
    }
  }

  lemma DrawnStep(dashes: seq<real>, length: real, last: nat, k: nat, p: real)
    requires dashes != [] && length > 0.0 && p < length && k == last + 1
    ensures Covered(Drawn(dashes, length, k), length, p) <==>
            Covered(Drawn(dashes, length, last), length, p) || InDash(dashes, last, p)
  {
    var before, start, end := Drawn(dashes, length, last), Prefix(dashes, last), Prefix(dashes, k);
    PartCovers(start, end, length, p);
    CoveredPush(before, PartOf(start, end, length), length, p);
    assert InDash(dashes, last, p) <==> last % 2 == 0 && start <= p < end;
    if last % 2 == 0 && start < length {
      assert Drawn(dashes, length, k) == before + [PartOf(start, end, length)];
    } else {
      assert Drawn(dashes, length, k) == before + [];
      assert before + [] == before;
    }
  }

  lemma {:induction false} DrawnCovers(dashes: seq<real>, length: real, k: nat, p: real)
    requires dashes != [] && length > 0.0 && p < length
    ensures Covered(Drawn(dashes, length, k), length, p) <==> exists i: nat :: i < k && InDash(dashes, i, p)
  {
    if k > 0 {
      DrawnCovers(dashes, length, k - 1, p);
      DrawnStep(dashes, length, k - 1, k, p);
    }
  }

  lemma FractionInRange(x: real, length: real)
    requires length > 0.0 && 0.0 <= x <= length
    ensures 0.0 <= x / length <= 1.0
  {
    Scale(x, length);
  }

  lemma FractionMonotone(x: real, y: real, length: real)
    requires length > 0.0 && x <= y
    ensures x / length <= y / length
  {
    Scale(x, length);
    Scale(y, length);
  }

  /** Each part is a forward part of the path, and begins after the one before has ended. */
  ghost predicate Ordered(parts: seq<Part>) {
    && (forall j :: 0 <= j < |parts| ==> 0.0 <= parts[j].start <= parts[j].end <= 1.0)
    && (forall j :: 0 <= j < |parts| - 1 ==> parts[j].end <= parts[j + 1].start)
  }

  /** One more part behind the others. */
  lemma OrderedPush(parts: seq<Part>, part: Part)
    requires Ordered(parts) && 0.0 <= part.start <= part.end <= 1.0
    requires parts != [] ==> parts[|parts| - 1].end <= part.start
    ensures Ordered(parts + [part])
  {
    var after := parts + [part];
    forall j | 0 <= j < |after| - 1 ensures after[j].end <= after[j + 1].start {
      if j < |parts| - 1 {
        assert after[j + 1] == parts[j + 1];
      }
    }
  }

  /** The part of a segment lies between the segment's ends, cut off at the end of the path. */
  lemma PartInRange(start: real, end: real, length: real)
    requires length > 0.0 && 0.0 <= start <= end && start < length
    ensures var part := PartOf(start, end, length);
            0.0 <= part.start <= part.end <= 1.0 && part.end <= end / length
  {
    var reached := Min(end, length);
    FractionInRange(start, length);
    FractionInRange(reached, length);
    FractionMonotone(start, reached, length);
    FractionMonotone(reached, end, length);
  }

  lemma {:induction false} DrawnIsOrdered(dashes: seq<real>, length: real, k: nat)
    requires dashes != [] && NonNegative(dashes) && length > 0.0
    ensures Ordered(Drawn(dashes, length, k))
    ensures var parts := Drawn(dashes, length, k);
            parts != [] ==> parts[|parts| - 1].end <= Prefix(dashes, k) / length
  {
    if k > 0 {
      var last := k - 1;
      DrawnIsOrdered(dashes, length, last);
      PrefixRises(dashes, last, k);
      var before, start, end := Drawn(dashes, length, last), Prefix(dashes, last), Prefix(dashes, k);
      FractionMonotone(start, end, length);
      if last % 2 == 0 && start < length {
        PartInRange(start, end, length);
        OrderedPush(before, PartOf(start, end, length));
      }
    }
  }

  /** Segments beyond the end of the path draw nothing. */
  lemma {:induction false} DrawnStops(dashes: seq<real>, length: real, n: nat, k: nat)
    requires dashes != [] && NonNegative(dashes) && length > 0.0
    requires n <= k && Prefix(dashes, n) >= length
    ensures Drawn(dashes, length, k) == Drawn(dashes, length, n)
    decreases k
  {
    if n < k {
      DrawnStops(dashes, length, n, k - 1);
      PrefixRises(dashes, n, k - 1);
    }
  }

  // ---------- The loop ----------

  /** What the parts drawn are, once it is known where the loop has stopped. */
  lemma DrawnIs(dashes: seq<real>, length: real, n: nat)
    requires NonNegative(dashes) && dashes != [] && length > 0.0 && Prefix(dashes, n) >= length
    ensures Ordered(Drawn(dashes, length, n))
    ensures forall k: nat :: Prefix(dashes, k) >= length ==> Drawn(dashes, length, n) == Drawn(dashes, length, k)
    ensures forall p: real :: 0.0 <= p < length ==> (Covered(Drawn(dashes, length, n), length, p) <==> OnDash(dashes, p))
  {
    DrawnIsOrdered(dashes, length, n);
    forall k: nat | Prefix(dashes, k) >= length ensures Drawn(dashes, length, n) == Drawn(dashes, length, k) {
      if n <= k {
        DrawnStops(dashes, length, n, k);
      } else {
        DrawnStops(dashes, length, k, n);
      }
    }
    forall p: real | 0.0 <= p < length ensures Covered(Drawn(dashes, length, n), length, p) <==> OnDash(dashes, p) {
      DrawnCovers(dashes, length, n, p);
      forall i: nat | InDash(dashes, i, p) ensures i < n {
        if n <= i {
          PrefixRises(dashes, n, i);
        }
      }
    }
  }

  /**
   Walks along the path until a segment ends behind it.  The parts drawn are those of the segments so far; over
   non-negative lengths they are those of the pattern, however far it is continued, and a point of the path is in
   one of them exactly when it is on a dash.
   */
  method SplitDashes(dashes: seq<real>, length: real) returns (parts: seq<Part>)
    requires length > 0.0 ==> CanEnd(dashes, length)
    ensures length <= 0.0 ==> parts == []
    ensures length > 0.0 ==> exists n: nat :: FirstBehind(dashes, length, n) && parts == Drawn(dashes, length, n)
    ensures NonNegative(dashes) ==> Ordered(parts)
    ensures length > 0.0 && NonNegative(dashes) ==>
              forall k: nat :: Prefix(dashes, k) >= length ==> parts == Drawn(dashes, length, k)
    ensures length > 0.0 && NonNegative(dashes) ==>
              forall p: real :: 0.0 <= p < length ==> (Covered(parts, length, p) <==> OnDash(dashes, p))
  {
    parts := [];
    if length <= 0.0 {
      return;
    }
    ghost var enough := Reaches(dashes, length);
    var pos := 0.0;
    var dashIndex := 0;
    while pos < length
      invariant pos == Min(Prefix(dashes, dashIndex), length)
      invariant forall j: nat :: j < dashIndex ==> Prefix(dashes, j) < length
      invariant parts == Drawn(dashes, length, dashIndex)
      decreases enough - dashIndex
    {
      assert Prefix(dashes, dashIndex) < length;
      var dashLength := dashes[dashIndex % |dashes|];
      assert Prefix(dashes, dashIndex + 1) == pos + dashLength;
      var nextPos := Min(pos + dashLength, length);
      if dashIndex % 2 == 0 {
        parts := parts + [Part(pos / length, nextPos / length)];
      }
      pos := nextPos;
      dashIndex := dashIndex + 1;
    }
    assert FirstBehind(dashes, length, dashIndex);
    if NonNegative(dashes) {
      DrawnIs(dashes, length, dashIndex);
    }
  }
}
