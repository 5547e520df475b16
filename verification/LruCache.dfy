/**
 The example image cache that keeps the most recently used images, and what its contents are in terms
 of the history of accesses alone.
 */
module LruCache {
  type Hash = nat

  // An image that was asked for; images are told apart by when loading them began.
  type Item = nat

  function Take<T>(s: seq<T>, n: nat): seq<T> {
    if n <= |s| then s[..n] else s
  }

  function Without(s: seq<Hash>, h: Hash): seq<Hash> {
    if s == [] then [] else (if s[0] == h then [] else [s[0]]) + Without(s[1..], h)
  }

  /** The distinct hashes of the history, most recently used first. */
  function Recent(history: seq<Hash>): seq<Hash> {
    if history == [] then
      []
    else
      var last := history[|history| - 1];
      [last] + Without(Recent(history[..|history| - 1]), last)
  }

  ghost predicate NoDuplicates(s: seq<Hash>) {
    forall i, j :: 0 <= i < j < |s| ==> s[i] != s[j]
  }

  // ---------- Lists without an element ----------

  lemma {:induction false} WithoutMembers(s: seq<Hash>, h: Hash)
    ensures forall x :: x in Without(s, h) <==> x in s && x != h
  {
    if s != [] {
      WithoutMembers(s[1..], h);
      assert s == [s[0]] + s[1..];
    }
  }

  lemma {:induction false} WithoutAbsent(s: seq<Hash>, h: Hash)
    requires h !in s
    ensures Without(s, h) == s
  {
    if s != [] {
      WithoutAbsent(s[1..], h);
    }
  }

  lemma {:induction false} WithoutConcat(s: seq<Hash>, t: seq<Hash>, h: Hash)
    ensures Without(s + t, h) == Without(s, h) + Without(t, h)
  {
    if s == [] {
      assert s + t == t;
    } else {
      assert (s + t)[1..] == s[1..] + t;
      WithoutConcat(s[1..], t, h);
    }
  }

  lemma {:induction false} WithoutNoDuplicates(s: seq<Hash>, h: Hash)
    requires NoDuplicates(s)
    ensures NoDuplicates(Without(s, h))
  {
    if s != [] {
      var rest := Without(s[1..], h);
      WithoutNoDuplicates(s[1..], h);
      WithoutMembers(s[1..], h);
      if s[0] != h {
        var r := [s[0]] + rest;
        assert s[0] !in s[1..];
        assert Without(s, h) == r;
      } else {
        assert Without(s, h) == rest;
      }
    }
  }

  lemma WithoutFirst(s: seq<Hash>, h: Hash)
    ensures Without([h] + s, h) == Without(s, h)
  {
    assert ([h] + s)[1..] == s;
  }

  lemma AroundIsAbsent(s: seq<Hash>, i: nat)
    requires NoDuplicates(s) && i < |s|
    ensures s[i] !in s[..i] && s[i] !in s[i + 1..]
    ensures s == s[..i] + ([s[i]] + s[i + 1..])
  {
  }

  /** Taking the hash out at the one place where it is. */
  lemma WithoutAt(before: seq<Hash>, h: Hash, after: seq<Hash>)
    requires h !in before && h !in after
    ensures Without(before + ([h] + after), h) == before + after
  {
    WithoutAbsent(before, h);
    WithoutAbsent(after, h);
    WithoutFirst(after, h);
    WithoutConcat(before, [h] + after, h);
  }

  lemma FirstNoDuplicates(s: seq<Hash>, h: Hash)
    requires NoDuplicates(s)
    ensures NoDuplicates([h] + Without(s, h))
  {
    WithoutNoDuplicates(s, h);
    WithoutMembers(s, h);
    var rest := Without(s, h);
    assert h !in rest;
  }

  lemma {:induction false} RecentFacts(history: seq<Hash>)
    ensures NoDuplicates(Recent(history))
    ensures forall h :: h in Recent(history) <==> h in history
  {
    if history != [] {
      var n := |history| - 1;
      RecentFacts(history[..n]);
      FirstNoDuplicates(Recent(history[..n]), history[n]);
      WithoutMembers(Recent(history[..n]), history[n]);
      assert history == history[..n] + [history[n]];
    }
  }

  lemma RecentPush(history: seq<Hash>, h: Hash)
    ensures Recent(history + [h]) == [h] + Without(Recent(history), h)
  {
    assert (history + [h])[..|history|] == history;
  }

  lemma TakeSplits(s: seq<Hash>, n: nat) returns (rest: seq<Hash>)
    ensures s == Take(s, n) + rest
    ensures |Take(s, n)| == n || (|Take(s, n)| < n && rest == [])
  {
    rest := if n <= |s| then s[n..] else [];
  }

  lemma NoDuplicatesParts(t: seq<Hash>, rest: seq<Hash>)
    requires NoDuplicates(t + rest)
    ensures NoDuplicates(t)
    ensures forall x :: x in t ==> x !in rest
  {
    var s := t + rest;
    forall i, j | 0 <= i < j < |t| ensures t[i] != t[j] {
      assert s[i] == t[i] && s[j] == t[j];
    }
    forall i, j | 0 <= i < |t| && 0 <= j < |rest| ensures t[i] != rest[j] {
      assert s[i] == t[i] && s[|t| + j] == rest[j];
    }
  }

  lemma TakeOfFront(s: seq<Hash>, front: seq<Hash>, rest: seq<Hash>, n: nat)
    requires s == front + rest && (|front| == n || (|front| < n && rest == []))
    ensures Take(s, n) == front
  {
  }

  /** A hit: the list of the first `n` is reordered just as the whole list is. */
  lemma HitKeepsPrefix(s: seq<Hash>, n: nat, t: seq<Hash>, i: nat, a: seq<Hash>, h: Hash, b: seq<Hash>)
    requires NoDuplicates(s) && t == Take(s, n)
    requires i < |t| && a == t[..i] && h == t[i] && b == t[i + 1..]
    ensures Take([h] + Without(s, h), n) == [h] + (a + b)
  {
    var rest := TakeSplits(s, n);
    NoDuplicatesParts(t, rest);
    WithoutConcat(t, rest, h);
    AroundIsAbsent(t, i);
    WithoutAt(a, h, b);
    WithoutAbsent(rest, h);
    var all, front := [h] + Without(s, h), [h] + (a + b);
    assert all == front + rest;
    TakeOfFront(all, front, rest, n);
  }

  lemma MovedToFrontMembers(t: seq<Hash>, i: nat)
    requires i < |t|
    ensures forall x :: x in [t[i]] + (t[..i] + t[i + 1..]) <==> x in t
  {
    assert t == t[..i] + [t[i]] + t[i + 1..];
  }

  lemma TouchedPrefix(history: seq<Hash>, n: nat, t: seq<Hash>, i: nat, h: Hash)
    requires t == Take(Recent(history), n) && i < |t| && h == t[i]
    ensures Take(Recent(history + [h]), n) == [h] + (t[..i] + t[i + 1..])
    ensures forall x :: x in [h] + (t[..i] + t[i + 1..]) <==> x in t
  {
    RecentFacts(history);
    RecentPush(history, h);
    HitKeepsPrefix(Recent(history), n, t, i, t[..i], h, t[i + 1..]);
    MovedToFrontMembers(t, i);
  }

  /** A miss: the new hash goes first and the last one drops out if the list was full. */
  lemma MissShiftsPrefix(s: seq<Hash>, n: nat, h: Hash, t: seq<Hash>, kept: seq<Hash>)
    requires NoDuplicates(s) && n > 0 && t == Take(s, n) && h !in t
    requires kept == if |t| == n then t[..n - 1] else t
    ensures Take([h] + Without(s, h), n) == [h] + kept
  {
    var rest := TakeSplits(s, n);
    WithoutConcat(t, rest, h);
    WithoutAbsent(t, h);
    var dropped, others := t[|kept|..], Without(rest, h);
    Regroup(h, t, kept, dropped, others);
    TakeOfFront([h] + Without(s, h), [h] + kept, dropped + others, n);
  }

  lemma MissedPrefix(history: seq<Hash>, n: nat, h: Hash, t: seq<Hash>, kept: seq<Hash>)
    requires n > 0 && t == Take(Recent(history), n) && h !in t
    requires kept == if |t| == n then t[..n - 1] else t
    ensures Take(Recent(history + [h]), n) == [h] + kept
  {
    RecentFacts(history);
    RecentPush(history, h);
    MissShiftsPrefix(Recent(history), n, h, t, kept);
  }

  lemma TakenNoDuplicates(history: seq<Hash>, n: nat)
    ensures NoDuplicates(Take(Recent(history), n))
  {
    RecentFacts(history);
    var rest := TakeSplits(Recent(history), n);
    NoDuplicatesParts(Take(Recent(history), n), rest);
  }

  lemma LastIsApart(t: seq<Hash>, last: nat)
    requires NoDuplicates(t) && |t| == last + 1
    ensures forall x :: x in t[..last] <==> x in t && x != t[last]
  {
    assert t == t[..last] + [t[last]];
  }

  lemma FrontMembers(h: Hash, s: seq<Hash>)
    ensures forall x :: x in [h] + s <==> x == h || x in s
  {
  }

  lemma Regroup(h: Hash, t: seq<Hash>, kept: seq<Hash>, dropped: seq<Hash>, others: seq<Hash>)
    requires t == kept + dropped
    ensures [h] + (t + others) == ([h] + kept) + (dropped + others)
  {
  }

  /** A list without duplicates and a map with the same members have the same size. */
  lemma {:induction false} SameSize(s: seq<Hash>, keys: set<Hash>)
    requires NoDuplicates(s) && forall x :: x in keys <==> x in s
    ensures |keys| == |s|
  {
    if s == [] {
      assert keys == {};
    } else {
      assert s == [s[0]] + s[1..];
      SameSize(s[1..], keys - {s[0]});
    }
  }

  // ---------- Recency, said of the history ----------

  /** When the hash was used last, counting from 1; 0 if never. */
  function LastUse(history: seq<Hash>, h: Hash): (use: nat)
    ensures use <= |history|
    ensures use == 0 <==> h !in history
  {
    if history == [] then 0
    else if history[|history| - 1] == h then |history|
    else
      assert history == history[..|history| - 1] + [history[|history| - 1]];
      LastUse(history[..|history| - 1], h)
  }

  /** Each hash in the list was used after all that follow it. */
  ghost predicate NewestFirst(history: seq<Hash>, s: seq<Hash>) {
    forall i, j :: 0 <= i < j < |s| ==> LastUse(history, s[i]) > LastUse(history, s[j])
  }

  lemma {:induction false} WithoutNewestFirst(history: seq<Hash>, s: seq<Hash>, h: Hash)
    requires NewestFirst(history, s)
    ensures NewestFirst(history, Without(s, h))
  {
    if s != [] {
      var rest := Without(s[1..], h);
      WithoutNewestFirst(history, s[1..], h);
      WithoutMembers(s[1..], h);
      forall j | 0 <= j < |rest| ensures LastUse(history, s[0]) > LastUse(history, rest[j]) {
        assert rest[j] in s[1..];
      }
    }
  }

  /** `Recent` is the list of the hashes ever used in the order of their last uses, newest first. */
  lemma {:induction false} RecentIsNewestFirst(history: seq<Hash>)
    ensures NewestFirst(history, Recent(history))
  {
    if history != [] {
      var n := |history| - 1;
      var earlier, h := history[..n], history[n];
      RecentIsNewestFirst(earlier);
      WithoutNewestFirst(earlier, Recent(earlier), h);
      WithoutMembers(Recent(earlier), h);
      var rest := Without(Recent(earlier), h);
      forall j | 0 <= j < |rest| ensures LastUse(history, rest[j]) == LastUse(earlier, rest[j]) < |history| {
        assert rest[j] in rest;
      }
    }
  }

  // ---------- The cache ----------

  datatype Outcome = Hit(item: Item) | Miss | Panic

  class SimpleLruCache {
    const maxItems: nat
    var usages: seq<Hash>
    var cache: map<Hash, Item>
    // The items that have finished loading, and the images taken out of the window's atlas, in order.
    var loaded: set<Item>
    var droppedImages: seq<Item>
    // Every hash asked for so far, oldest first, and how many loads have begun.
    ghost var history: seq<Hash>
    var loads: nat

    /** The contents are the most recently used distinct hashes, most recent first. */
    ghost predicate Valid()
      reads this
    {
      && usages == Take(Recent(history), maxItems)
      && (forall h :: h in cache <==> h in usages)
    }

    constructor (maxItems: nat)
      ensures Valid() && history == [] && this.maxItems == maxItems && cache == map[] && droppedImages == []
      ensures loaded == {} && loads == 0
    {
      this.maxItems := maxItems;
      usages, cache, loaded, droppedImages, history, loads := [], map[], {}, [], [], 0;
    }

    /** The first position of the hash. */
    method FindUsage(hash: Hash) returns (ix: nat)
      requires hash in usages
      ensures ix < |usages| && usages[ix] == hash
    {
      ix := 0;
      while usages[ix] != hash
        invariant ix < |usages| && hash !in usages[..ix]
        decreases |usages| - ix
      {
        ix := ix + 1;
      }
    }

    /** What every load asserts first. */
    lemma InStep()
      requires Valid()
      ensures |usages| == |cache| <= maxItems
    {
      TakenNoDuplicates(history, maxItems);
      SameSize(usages, cache.Keys);
    }

    /** What an item leaves to take out of the atlas: nothing as long as it has not finished loading. */
    function ImageOf(item: Item): seq<Item>
      reads this
    {
      if item in loaded then [item] else []
    }

    /** The task that loads an item has ended well. */
    method FinishLoading(item: Item)
      requires Valid()
      modifies this`loaded
      ensures Valid() && loaded == old(loaded) + {item}
    {
      loaded := loaded + {item};
    }

    /** The hash moves to the front. */
    method Touch(hash: Hash)
      requires Valid() && hash in cache
      modifies this`usages, this`history
      ensures Valid() && history == old(history) + [hash]
    {
      var currentIx := FindUsage(hash);
      TouchedPrefix(history, maxItems, usages, currentIx, hash);
      usages := usages[..currentIx] + usages[currentIx + 1..];
      usages := [hash] + usages;
      history := history + [hash];
    }

    /** From a full cache the hash used longest ago goes, and its image with it if it has one already. */
    method Evict()
      requires Valid() && |usages| == maxItems > 0
      modifies this`usages, this`cache, this`droppedImages
      ensures var oldest := old(usages)[maxItems - 1];
              && usages == old(usages)[..maxItems - 1]
              && oldest in old(cache) && cache == old(cache) - {oldest}
              && droppedImages == old(droppedImages + ImageOf(cache[usages[maxItems - 1]]))
      ensures forall h :: h in cache <==> h in usages
    {
      var last := maxItems - 1;
      TakenNoDuplicates(history, maxItems);
      LastIsApart(usages, last);
      var oldest := usages[last];
      usages := usages[..last];
      droppedImages := droppedImages + ImageOf(cache[oldest]);
      cache := cache - {oldest};
    }

    /** A miss in a cache that has room for something: the oldest goes if the cache is full. */
    method StartLoading(hash: Hash)
      requires Valid() && hash !in cache && maxItems > 0
      modifies this`usages, this`cache, this`droppedImages, this`history, this`loads
      ensures Valid() && history == old(history) + [hash] && loads == old(loads) + 1
      ensures |old(usages)| < maxItems ==>
                cache == old(cache)[hash := old(loads)] && droppedImages == old(droppedImages)
      ensures |old(usages)| == maxItems ==>
                var oldest := old(usages)[maxItems - 1];
                && oldest in old(cache) && cache == (old(cache) - {oldest})[hash := old(loads)]
                && droppedImages == old(droppedImages + ImageOf(cache[usages[maxItems - 1]]))
    {
      if |usages| == maxItems {
        Evict();
      }
      MissedPrefix(history, maxItems, hash, old(usages), usages);
      FrontMembers(hash, usages);
      cache := cache[hash := loads];
      loads := loads + 1;
      usages := [hash] + usages;
      history := history + [hash];
    }

    /**
     Looks an image up, starting to load it when it is not there.  A cache without room panics on every
     access, since there is nothing to evict; otherwise a hit is exactly an access to one of the
     `maxItems` hashes used last.
     */
    method Load(hash: Hash) returns (outcome: Outcome)
      requires Valid()
      modifies this`usages, this`cache, this`droppedImages, this`history, this`loads
      ensures outcome == Panic <==> maxItems == 0
      ensures outcome != Panic ==> Valid() && history == old(history) + [hash]
      ensures outcome.Hit? <==> hash in Take(Recent(old(history)), maxItems)
      ensures outcome.Hit? ==>
                cache == old(cache) && outcome.item == cache[hash] && droppedImages == old(droppedImages)
      ensures outcome.Miss? && |old(usages)| < maxItems ==>
                cache == old(cache)[hash := old(loads)] && droppedImages == old(droppedImages)
      ensures outcome.Miss? && |old(usages)| == maxItems ==>
                var oldest := old(usages)[maxItems - 1];
                && oldest in old(cache) && cache == (old(cache) - {oldest})[hash := old(loads)]
                && droppedImages == old(droppedImages) + if old(cache)[oldest] in loaded then [old(cache)[oldest]] else []
    {
      InStep();
      assert |usages| == |cache| <= maxItems;
      if hash in cache {
        Touch(hash);
        return Hit(cache[hash]);
      }
      if |usages| == maxItems && usages == [] {
        return Panic;
      }
      StartLoading(hash);
      outcome := Miss;
    }
  }

  // ---------- Caches of different sizes on the same history ----------

  /** A larger cache lists everything a smaller one lists, in the same places. */
  lemma LargerContainsSmaller(history: seq<Hash>, small: nat, large: nat)
    requires small <= large
    ensures Take(Recent(history), small) <= Take(Recent(history), large)
  {
  }
}
