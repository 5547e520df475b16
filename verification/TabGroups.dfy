/**
 The table of window tab groups.  Groups are visited in an arbitrary order, as the source's hash map
 does; tabs are known by the id of their window.
 */
module TabGroups {
  import opened Wrappers

  type WindowId = nat

  datatype Tab = Tab(id: WindowId, title: string, lastActiveAt: nat)

  type Groups = map<nat, seq<Tab>>

  // ---------- All tabs of a table ----------

  ghost function AllTabs(groups: Groups): multiset<Tab> {
    if groups == map[] then
      multiset{}
    else
      var k :| k in groups;
      multiset(groups[k]) + AllTabs(groups - {k})
  }

  /** The sum does not depend on the order in which groups are visited. */
  lemma {:induction false} AllTabsSplit(groups: Groups, k: nat)
    requires k in groups
    ensures AllTabs(groups) == multiset(groups[k]) + AllTabs(groups - {k})
    decreases |groups|
  {
    var j :| j in groups && AllTabs(groups) == multiset(groups[j]) + AllTabs(groups - {j});
    if j != k {
      AllTabsSplit(groups - {j}, k);
      AllTabsSplit(groups - {k}, j);
      assert groups - {j} - {k} == groups - {k} - {j};
    }
  }

  lemma AllTabsUpdate(groups: Groups, k: nat, tabs: seq<Tab>)
    ensures AllTabs(groups[k := tabs]) == AllTabs(groups - {k}) + multiset(tabs)
  {
    AllTabsSplit(groups[k := tabs], k);
    assert groups[k := tabs] - {k} == groups - {k};
  }

  lemma AllTabsWithout(groups: Groups, k: nat)
    ensures AllTabs(groups) == AllTabs(groups - {k}) + if k in groups then multiset(groups[k]) else multiset{}
  {
    if k in groups {
      AllTabsSplit(groups, k);
    } else {
      assert groups - {k} == groups;
    }
  }

  /** A tab is in the sum exactly when it is in some group. */
  lemma {:induction false} InAllTabs(groups: Groups, t: Tab)
    ensures t in AllTabs(groups) <==> exists k :: k in groups && t in groups[k]
    decreases |groups|
  {
    if groups != map[] {
      var k :| k in groups && AllTabs(groups) == multiset(groups[k]) + AllTabs(groups - {k});
      InAllTabs(groups - {k}, t);
      assert t in AllTabs(groups) <==> t in groups[k] || t in AllTabs(groups - {k});
      if j :| j in groups && t in groups[j] && j != k {
        assert j in groups - {k};
      }
    }
  }

  // ---------- Lists of tabs ----------

  ghost predicate HasId(tabs: seq<Tab>, id: WindowId) {
    exists t :: t in tabs && t.id == id
  }

  /** The position of the first tab with the id. */
  function Position(tabs: seq<Tab>, id: WindowId): (pos: Option<nat>)
    ensures pos.Some? ==> pos.value < |tabs| && tabs[pos.value].id == id
    ensures pos.Some? <==> HasId(tabs, id)
    ensures pos.Some? ==> forall j :: 0 <= j < pos.value ==> tabs[j].id != id
  {
    if tabs == [] then
      None
    else if tabs[0].id == id then
      Some(0)
    else
      match Position(tabs[1..], id)
      case None => None
      case Some(i) => Some(i + 1)
  }

  function RemoveAt(tabs: seq<Tab>, i: nat): (r: seq<Tab>)
    requires i < |tabs|
    ensures multiset(tabs) == multiset(r) + multiset{tabs[i]}
    ensures |r| == |tabs| - 1 && forall a :: 0 <= a < |r| ==> r[a] == tabs[if a < i then a else a + 1]
  {
    assert tabs == tabs[..i] + [tabs[i]] + tabs[i + 1..];
    tabs[..i] + tabs[i + 1..]
  }

  function InsertAt(tabs: seq<Tab>, i: nat, tab: Tab): (r: seq<Tab>)
    requires i <= |tabs|
    ensures |r| == |tabs| + 1 && r[i] == tab && RemoveAt(r, i) == tabs
    ensures multiset(r) == multiset(tabs) + multiset{tab}
  {
    assert tabs == tabs[..i] + tabs[i..];
    tabs[..i] + [tab] + tabs[i..]
  }

  // ---------- The invariant ----------

  /** No id occurs twice, in one group or in two. */
  ghost predicate UniqueIds(groups: Groups) {
    forall j: nat, i: nat, k: nat, l: nat :: At(groups, j, i) && At(groups, k, l) && groups[j][i].id == groups[k][l].id ==> j == k && i == l
  }

  predicate At(groups: Groups, k: nat, i: nat) {
    k in groups && i < |groups[k]|
  }

  ghost predicate NoEmptyGroup(groups: Groups) {
    forall k :: k in groups ==> groups[k] != []
  }

  /** Tab `i` of group `k` is taken out, and the group with it if that was its only tab. */
  ghost function WithoutTab(groups: Groups, k: nat, i: nat): Groups
    requires At(groups, k, i)
  {
    var rest := RemoveAt(groups[k], i);
    if rest == [] then groups - {k} else groups[k := rest]
  }

  /** Ids stay unique when a group keeps a selection of its tabs, each from its own place. */
  lemma SelectionUnique(groups: Groups, k: nat, tabs: seq<Tab>, from: seq<nat>)
    requires UniqueIds(groups) && k in groups && |from| == |tabs|
    requires forall a :: 0 <= a < |tabs| ==> from[a] < |groups[k]| && tabs[a] == groups[k][from[a]]
    requires forall a, b :: 0 <= a < b < |tabs| ==> from[a] != from[b]
    ensures UniqueIds(groups[k := tabs])
  {
    var after := groups[k := tabs];
    forall j: nat, a: nat, l: nat, b: nat | At(after, j, a) && At(after, l, b) && after[j][a].id == after[l][b].id
      ensures j == l && a == b
    {
      var a0 := if j == k then from[a] else a;
      var b0 := if l == k then from[b] else b;
      assert At(groups, j, a0) && At(groups, l, b0);
    }
  }

  lemma UniqueWithoutGroup(groups: Groups, k: nat)
    requires UniqueIds(groups)
    ensures UniqueIds(groups - {k})
  {
    var after := groups - {k};
    forall j: nat, a: nat, l: nat, b: nat | At(after, j, a) && At(after, l, b) && after[j][a].id == after[l][b].id
      ensures j == l && a == b
    {
      assert At(groups, j, a) && At(groups, l, b);
    }
  }

  lemma WithoutTabUnique(groups: Groups, k: nat, i: nat)
    requires UniqueIds(groups) && At(groups, k, i)
    ensures UniqueIds(WithoutTab(groups, k, i))
  {
    var rest := RemoveAt(groups[k], i);
    var from := seq(|rest|, a requires 0 <= a < |rest| => if a < i then a else a + 1);
    SelectionUnique(groups, k, rest, from);
    UniqueWithoutGroup(groups, k);
  }

  lemma WithoutTabGone(groups: Groups, k: nat, i: nat)
    requires UniqueIds(groups) && At(groups, k, i)
    ensures !InTable(WithoutTab(groups, k, i), groups[k][i].id)
  {
    var after: Groups := WithoutTab(groups, k, i);
    forall j: nat, a: nat ensures !(At(after, j, a) && after[j][a].id == groups[k][i].id) {
      if At(after, j, a) {
        var b := if j == k && a >= i then a + 1 else a;
        assert At(groups, j, b) && after[j][a] == groups[j][b];
      }
    }
  }

  lemma WithoutTabSum(groups: Groups, k: nat, i: nat)
    requires At(groups, k, i)
    ensures AllTabs(groups) == AllTabs(WithoutTab(groups, k, i)) + multiset{groups[k][i]}
  {
    var rest := RemoveAt(groups[k], i);
    AllTabsWithout(groups, k);
    if rest != [] {
      AllTabsUpdate(groups, k, rest);
    }
  }

  lemma WithoutTabKeeps(groups: Groups, k: nat, i: nat)
    requires UniqueIds(groups) && NoEmptyGroup(groups) && At(groups, k, i)
    ensures var after: Groups := WithoutTab(groups, k, i);
            && UniqueIds(after)
            && NoEmptyGroup(after)
            && AllTabs(groups) == AllTabs(after) + multiset{groups[k][i]}
            && !InTable(after, groups[k][i].id)
  {
    WithoutTabUnique(groups, k, i);
    WithoutTabGone(groups, k, i);
    WithoutTabSum(groups, k, i);
  }

  ghost predicate InTable(groups: Groups, id: WindowId) {
    exists k: nat, i: nat :: At(groups, k, i) && groups[k][i].id == id
  }

  /** Where the tab now at `a` was before the tab at `i` went to `ix`. */
  function MovedFrom(i: nat, ix: nat, a: nat): nat {
    if a == ix then i
    else
      var b := if a < ix then a else a - 1;
      if b < i then b else b + 1
  }

  lemma MovedFromIsRearrangement(i: nat, ix: nat, a: nat, b: nat)
    requires a < b
    ensures MovedFrom(i, ix, a) != MovedFrom(i, ix, b)
  {
  }

  /** Every tab of the rearranged group comes from its place before. */
  ghost predicate MovedTabs(tabs: seq<Tab>, i: nat, ix: nat, moved: seq<Tab>) {
    && |moved| == |tabs|
    && forall a :: 0 <= a < |moved| ==> MovedFrom(i, ix, a) < |tabs| && moved[a] == tabs[MovedFrom(i, ix, a)]
  }

  lemma MovedPlaces(tabs: seq<Tab>, i: nat, ix: nat, rest: seq<Tab>, moved: seq<Tab>)
    requires i < |tabs| && ix < |tabs|
    requires rest == tabs[..i] + tabs[i + 1..] && moved == rest[..ix] + [tabs[i]] + rest[ix..]
    ensures MovedTabs(tabs, i, ix, moved)
  {
  }

  lemma MovedUnique(groups: Groups, k: nat, i: nat, ix: nat, moved: seq<Tab>)
    requires UniqueIds(groups) && k in groups && MovedTabs(groups[k], i, ix, moved)
    ensures UniqueIds(groups[k := moved])
  {
    var from := seq(|moved|, a requires 0 <= a < |moved| => MovedFrom(i, ix, a));
    forall a, b | 0 <= a < b < |moved| ensures from[a] != from[b] {
      MovedFromIsRearrangement(i, ix, a, b);
    }
    SelectionUnique(groups, k, moved, from);
  }

  lemma RearrangedSum(groups: Groups, k: nat, tabs: seq<Tab>)
    requires k in groups && multiset(tabs) == multiset(groups[k])
    ensures AllTabs(groups[k := tabs]) == AllTabs(groups)
  {
    AllTabsWithout(groups, k);
    AllTabsUpdate(groups, k, tabs);
  }

  /** Replacing a group by a rearrangement of itself keeps everything. */
  lemma RearrangeKeeps(groups: Groups, k: nat, i: nat, ix: nat)
    requires UniqueIds(groups) && NoEmptyGroup(groups) && At(groups, k, i) && ix < |groups[k]|
    ensures var after := groups[k := InsertAt(RemoveAt(groups[k], i), ix, groups[k][i])];
            && UniqueIds(after)
            && NoEmptyGroup(after)
            && AllTabs(after) == AllTabs(groups)
  {
    var rest := RemoveAt(groups[k], i);
    var moved := InsertAt(rest, ix, groups[k][i]);
    RearrangedSum(groups, k, moved);
    MovedPlaces(groups[k], i, ix, rest, moved);
    MovedUnique(groups, k, i, ix, moved);
  }

  // ---------- A new group ----------

  lemma NewGroupKeeps(groups: Groups, key: nat, tab: Tab)
    requires UniqueIds(groups) && NoEmptyGroup(groups) && key !in groups && !InTable(groups, tab.id)
    ensures var after := groups[key := [tab]];
            && UniqueIds(after)
            && NoEmptyGroup(after)
            && AllTabs(after) == AllTabs(groups) + multiset{tab}
  {
    var after := groups[key := [tab]];
    AllTabsUpdate(groups, key, [tab]);
    assert groups - {key} == groups;
    forall j: nat, a: nat, l: nat, b: nat | At(after, j, a) && At(after, l, b) && after[j][a].id == after[l][b].id
      ensures j == l && a == b
    {
      assert j != key ==> At(groups, j, a);
      assert l != key ==> At(groups, l, b);
    }
  }

  function Ids(tabs: seq<Tab>): multiset<WindowId> {
    if tabs == [] then multiset{} else multiset{tabs[0].id} + Ids(tabs[1..])
  }

  /** The tabs other than the one with the id. */
  function Except(tabs: seq<Tab>, id: WindowId): seq<Tab> {
    if tabs == [] then [] else (if tabs[0].id == id then [] else [tabs[0]]) + Except(tabs[1..], id)
  }

  lemma {:induction false} ExceptMembers(tabs: seq<Tab>, id: WindowId, t: Tab)
    ensures t in Except(tabs, id) <==> t in tabs && t.id != id
    ensures t.id != id ==> multiset(Except(tabs, id))[t] == multiset(tabs)[t]
  {
    if tabs != [] {
      ExceptMembers(tabs[1..], id, t);
      assert tabs == [tabs[0]] + tabs[1..];
    }
  }

  lemma {:induction false} IdsConcat(s: seq<Tab>, t: seq<Tab>)
    ensures Ids(s + t) == Ids(s) + Ids(t)
  {
    if s == [] {
      assert s + t == t;
    } else {
      assert (s + t)[1..] == s[1..] + t;
      IdsConcat(s[1..], t);
    }
  }

  lemma {:induction false} IdsMembers(tabs: seq<Tab>, id: WindowId)
    ensures id in Ids(tabs) <==> HasId(tabs, id)
    ensures |Ids(tabs)| == |tabs|
  {
    if tabs != [] {
      IdsMembers(tabs[1..], id);
      assert tabs == [tabs[0]] + tabs[1..];
      if t :| t in tabs && t.id == id && t != tabs[0] {
        assert t in tabs[1..];
      }
    }
  }

  /** Over distinct ids an id occurs once. */
  lemma {:induction false} IdsOnce(tabs: seq<Tab>, id: WindowId)
    requires DistinctIds(tabs)
    ensures Ids(tabs)[id] == if HasId(tabs, id) then 1 else 0
  {
    if tabs != [] {
      var rest := tabs[1..];
      IdsOnce(rest, id);
      assert tabs == [tabs[0]] + rest;
      if HasId(rest, id) {
        var t :| t in rest && t.id == id;
        assert t in tabs;
      }
      if t :| t in tabs && t.id == id && t != tabs[0] {
        assert t in rest;
      }
    }
  }

  /** The group has exactly the ids of the list other than the given one. */
  ghost predicate OtherIds(group: seq<Tab>, tabs: seq<Tab>, id: WindowId) {
    && |group| + 1 == |tabs|
    && forall x: WindowId :: HasId(group, x) <==> HasId(tabs, x) && x != id
  }

  lemma {:induction false} ExceptDistinct(tabs: seq<Tab>, id: WindowId)
    requires DistinctIds(tabs)
    ensures DistinctIds(Except(tabs, id))
  {
    if tabs != [] {
      var rest := tabs[1..];
      ExceptDistinct(rest, id);
      var others := Except(rest, id);
      forall b | 0 <= b < |others| ensures others[b].id != tabs[0].id {
        ExceptMembers(rest, id, others[b]);
        assert others[b] in rest;
      }
    }
  }

  lemma {:induction false} ExceptShorter(tabs: seq<Tab>, id: WindowId)
    requires DistinctIds(tabs)
    ensures |Except(tabs, id)| == |tabs| - if HasId(tabs, id) then 1 else 0
  {
    if tabs != [] {
      var rest := tabs[1..];
      ExceptShorter(rest, id);
      HasIdSplits(tabs, id);
      assert !HasId(rest, tabs[0].id);
    }
  }

  lemma HasIdSplits(tabs: seq<Tab>, id: WindowId)
    requires tabs != []
    ensures HasId(tabs, id) <==> tabs[0].id == id || HasId(tabs[1..], id)
  {
    assert tabs == [tabs[0]] + tabs[1..];
    if t :| t in tabs[1..] && t.id == id {
      assert t in tabs;
    }
    if t :| t in tabs && t.id == id && t != tabs[0] {
      assert t in tabs[1..];
    }
  }

  lemma ExceptIds(tabs: seq<Tab>, id: WindowId, x: WindowId)
    ensures HasId(Except(tabs, id), x) <==> HasId(tabs, x) && x != id
  {
    if t :| t in Except(tabs, id) && t.id == x {
      ExceptMembers(tabs, id, t);
    }
    if t :| t in tabs && t.id == x {
      ExceptMembers(tabs, id, t);
    }
  }

  /** What the source compares, said without the sorted lists of ids. */
  lemma SameIdsIff(group: seq<Tab>, tabs: seq<Tab>, id: WindowId)
    requires DistinctIds(group) && DistinctIds(tabs) && HasId(tabs, id)
    ensures Ids(group) == Ids(Except(tabs, id)) <==> OtherIds(group, tabs, id)
  {
    ExceptDistinct(tabs, id);
    ExceptShorter(tabs, id);
    IdsMembers(group, id);
    IdsMembers(Except(tabs, id), id);
    forall x: WindowId
      ensures HasId(Except(tabs, id), x) <==> HasId(tabs, x) && x != id
      ensures Ids(group)[x] == if HasId(group, x) then 1 else 0
      ensures Ids(Except(tabs, id))[x] == if HasId(tabs, x) && x != id then 1 else 0
    {
      ExceptIds(tabs, id, x);
      IdsOnce(group, x);
      IdsOnce(Except(tabs, id), x);
    }
  }

  lemma MatchesIff(groups: Groups, tabs: seq<Tab>, id: WindowId)
    requires UniqueIds(groups) && DistinctIds(tabs) && HasId(tabs, id)
    ensures forall k: nat :: Matches(groups, k, Ids(Except(tabs, id))) <==> k in groups && OtherIds(groups[k], tabs, id)
  {
    forall k: nat | k in groups
      ensures Ids(groups[k]) == Ids(Except(tabs, id)) <==> OtherIds(groups[k], tabs, id)
    {
      GroupsApart(groups, k, k);
      SameIdsIff(groups[k], tabs, id);
    }
  }

  predicate Matches(groups: Groups, k: nat, expected: multiset<WindowId>) {
    k in groups && Ids(groups[k]) == expected
  }

  lemma AddToGroupConserves(groups: Groups, k: nat, tab: Tab)
    requires k in groups
    ensures AllTabs(groups[k := groups[k] + [tab]]) == AllTabs(groups) + multiset{tab}
  {
    AllTabsUpdate(groups, k, groups[k] + [tab]);
    AllTabsWithout(groups, k);
  }

  lemma Sums(others: multiset<Tab>, lost: multiset<Tab>, tabs: multiset<Tab>)
    ensures others + tabs == others + lost + tabs <==> lost == multiset{}
    ensures others + lost <= others + tabs <==> lost <= tabs
  {
    if others + tabs == others + lost + tabs {
      forall t ensures lost[t] == 0 {
        assert (others + tabs)[t] == (others + lost + tabs)[t];
      }
    }
    if others + lost <= others + tabs {
      forall t ensures lost[t] <= tabs[t] {
        assert (others + lost)[t] <= (others + tabs)[t];
      }
    }
  }

  /** Putting a group under a key adds just its tabs to the table exactly when no group has the key. */
  lemma AddGroupConserves(groups: Groups, key: nat, tabs: seq<Tab>)
    requires NoEmptyGroup(groups)
    ensures AllTabs(groups[key := tabs]) == AllTabs(groups) + multiset(tabs) <==> key !in groups
  {
    AllTabsUpdate(groups, key, tabs);
    AllTabsWithout(groups, key);
    if key in groups {
      assert groups[key][0] in multiset(groups[key]);
      Sums(AllTabs(groups - {key}), multiset(groups[key]), multiset(tabs));
    }
  }

  /** It loses nothing exactly when no group has the key, or all tabs of the group that has it are put back. */
  lemma AddGroupLosesNothingIff(groups: Groups, key: nat, tabs: seq<Tab>)
    ensures AllTabs(groups) <= AllTabs(groups[key := tabs]) <==>
            key !in groups || multiset(groups[key]) <= multiset(tabs)
  {
    AllTabsUpdate(groups, key, tabs);
    AllTabsWithout(groups, key);
    if key in groups {
      Sums(AllTabs(groups - {key}), multiset(groups[key]), multiset(tabs));
    }
  }

  /** The tabs that are gone are exactly those of the group that had the key, as far as they are not put back. */
  lemma LostTabs(groups: Groups, key: nat, tabs: seq<Tab>, t: Tab)
    requires UniqueIds(groups)
    ensures t in AllTabs(groups) && t !in AllTabs(groups[key := tabs]) <==>
            key in groups && t in groups[key] && t !in tabs
  {
    var after: Groups := groups[key := tabs];
    InAllTabs(groups, t);
    InAllTabs(after, t);
    if t in tabs {
      assert after[key] == tabs;
    } else if k :| k in groups && t in groups[k] {
      if k != key {
        assert after[k] == groups[k];
      }
      if key in groups && t in groups[key] {
        forall j | j in after ensures t !in after[j] {
          if j != key {
            GroupsApart(groups, j, key);
          }
        }
      }
    }
  }

  /** Such a key can be taken: after the first of two groups has gone, the next new group replaces the other one. */
  lemma AddGroupCanLose(a: Tab, b: Tab)
    requires a != b
    ensures var groups: Groups := map[1 := [a]];
            && UniqueIds(groups) && NoEmptyGroup(groups)
            && a in AllTabs(groups)
            && a !in AllTabs(groups[|groups| := [b]])
  {
    var groups: Groups := map[1 := [a]];
    assert |groups| == 1;
    InAllTabs(groups, a);
    assert a in groups[1];
    InAllTabs(groups[1 := [b]], a);
  }

  lemma JoinBreaks(groups: Groups, k: nat, tab: Tab)
    requires k in groups && InTable(groups, tab.id)
    ensures !UniqueIds(groups[k := groups[k] + [tab]])
  {
    var after := groups[k := groups[k] + [tab]];
    var j: nat, i: nat :| At(groups, j, i) && groups[j][i].id == tab.id;
    assert At(after, j, i) && after[j][i] == groups[j][i];
    assert At(after, k, |groups[k]|) && after[k][|groups[k]|] == tab;
  }

  /** A tab can join a group exactly when its id is new to the table. */
  lemma JoinKeepsIff(groups: Groups, k: nat, tab: Tab)
    requires UniqueIds(groups) && NoEmptyGroup(groups) && k in groups
    ensures var after := groups[k := groups[k] + [tab]];
            UniqueIds(after) && NoEmptyGroup(after) <==> !InTable(groups, tab.id)
  {
    var after := groups[k := groups[k] + [tab]];
    if InTable(groups, tab.id) {
      JoinBreaks(groups, k, tab);
    } else {
      forall j: nat, a: nat, l: nat, b: nat | At(after, j, a) && At(after, l, b) && after[j][a].id == after[l][b].id
        ensures j == l && a == b
      {
        assert (j == k && a == |groups[k]|) || (At(groups, j, a) && after[j][a] == groups[j][a]);
        assert (l == k && b == |groups[k]|) || (At(groups, l, b) && after[l][b] == groups[l][b]);
      }
    }
  }

  lemma PutUnique(groups: Groups, key: nat, tabs: seq<Tab>)
    requires UniqueIds(groups) && DistinctIds(tabs)
    requires forall k :: k in groups && k != key ==> Apart(tabs, groups[k])
    ensures UniqueIds(groups[key := tabs])
  {
    var after := groups[key := tabs];
    forall j: nat, a: nat, l: nat, b: nat | At(after, j, a) && At(after, l, b) && after[j][a].id == after[l][b].id
      ensures j == l && a == b
    {
      if j != key && l != key {
        assert At(groups, j, a) && At(groups, l, b);
      }
    }
  }

  /** A list of tabs can be put under a key exactly when its ids are distinct and new to all other groups. */
  lemma PutKeepsIff(groups: Groups, key: nat, tabs: seq<Tab>)
    requires UniqueIds(groups) && NoEmptyGroup(groups) && tabs != []
    ensures var after := groups[key := tabs];
            UniqueIds(after) && NoEmptyGroup(after) <==>
            DistinctIds(tabs) && forall k :: k in groups && k != key ==> Apart(tabs, groups[k])
  {
    var after := groups[key := tabs];
    if UniqueIds(after) {
      GroupsApart(after, key, key);
      forall k | k in groups && k != key ensures Apart(tabs, groups[k]) {
        GroupsApart(after, key, k);
      }
    }
    if DistinctIds(tabs) && forall k :: k in groups && k != key ==> Apart(tabs, groups[k]) {
      PutUnique(groups, key, tabs);
    }
  }

  // ---------- Merging ----------

  /** The tabs that are not among the first group's. */
  function Others(tabs: seq<Tab>, initial: seq<Tab>): seq<Tab> {
    if tabs == [] then
      []
    else
      (if tabs[0] in initial then [] else [tabs[0]]) + Others(tabs[1..], initial)
  }

  lemma {:induction false} OthersNone(tabs: seq<Tab>, initial: seq<Tab>)
    requires forall t :: t in tabs ==> t in initial
    ensures Others(tabs, initial) == []
  {
    if tabs != [] {
      OthersNone(tabs[1..], initial);
    }
  }

  lemma {:induction false} OthersAll(tabs: seq<Tab>, initial: seq<Tab>)
    requires forall t :: t in tabs ==> t !in initial
    ensures Others(tabs, initial) == tabs
  {
    if tabs != [] {
      OthersAll(tabs[1..], initial);
    }
  }

  ghost predicate DistinctIds(tabs: seq<Tab>) {
    forall a, b :: 0 <= a < b < |tabs| ==> tabs[a].id != tabs[b].id
  }

  ghost predicate Apart(s: seq<Tab>, t: seq<Tab>) {
    forall a, b :: 0 <= a < |s| && 0 <= b < |t| ==> s[a].id != t[b].id
  }

  /** What is merged so far: the first group's tabs lead, and the rest of the table is still to come. */
  ghost predicate Merging(groups0: Groups, home: nat, rest: Groups, merged: seq<Tab>) {
    && home in groups0 && groups0[home] <= merged
    && rest.Keys <= groups0.Keys
    && (forall k :: k in rest ==> rest[k] == groups0[k])
    && DistinctIds(merged)
    && (forall k :: k in rest && k != home ==> Apart(merged, rest[k]))
    && multiset(merged) + AllTabs(rest - {home}) == AllTabs(groups0)
  }

  /** The tabs of the groups with these keys, one group after the other. */
  ghost function Joined(groups: Groups, order: seq<nat>): seq<Tab> {
    if order == [] then
      []
    else
      var last := |order| - 1;
      Joined(groups, order[..last]) + if order[last] in groups then groups[order[last]] else []
  }

  /** `order` lists the keys of the other groups that have been merged, each once. */
  ghost predicate MergedInOrder(groups0: Groups, home: nat, rest: Groups, merged: seq<Tab>, order: seq<nat>) {
    && home in groups0 && merged == groups0[home] + Joined(groups0, order)
    && Lists(order, groups0.Keys - rest.Keys - {home})
  }

  ghost predicate Lists(order: seq<nat>, keys: set<nat>) {
    && (forall k :: k in order <==> k in keys)
    && (forall i, j :: 0 <= i < j < |order| ==> order[i] != order[j])
  }

  lemma ListsMore(order: seq<nat>, keys: set<nat>, k: nat)
    requires Lists(order, keys) && k !in keys
    ensures Lists(order + [k], keys + {k})
  {
    var more := order + [k];
    assert forall x :: x in more <==> x in order || x == k;
  }

  lemma JoinedMore(groups: Groups, front: seq<Tab>, order: seq<nat>, k: nat)
    requires k in groups
    ensures front + Joined(groups, order + [k]) == front + Joined(groups, order) + groups[k]
  {
    assert (order + [k])[..|order|] == order;
  }

  lemma MergedHome(groups0: Groups, home: nat, rest: Groups, merged: seq<Tab>, order: seq<nat>)
    requires MergedInOrder(groups0, home, rest, merged, order)
    ensures MergedInOrder(groups0, home, rest - {home}, merged + Others(groups0[home], groups0[home]), order)
  {
    OthersNone(groups0[home], groups0[home]);
    assert merged + [] == merged;
    assert groups0.Keys - (rest - {home}).Keys - {home} == groups0.Keys - rest.Keys - {home};
  }

  lemma MergedOther(groups0: Groups, home: nat, rest: Groups, merged: seq<Tab>, order: seq<nat>, k: nat, more: seq<nat>)
    requires UniqueIds(groups0) && MergedInOrder(groups0, home, rest, merged, order) && k in groups0 && k in rest && k != home
    requires more == order + [k]
    ensures MergedInOrder(groups0, home, rest - {k}, merged + Others(groups0[k], groups0[home]), more)
  {
    OtherGroupIsNew(groups0, home, k);
    JoinedMore(groups0, groups0[home], order, k);
    ListsMore(order, groups0.Keys - rest.Keys - {home}, k);
    assert groups0.Keys - (rest - {k}).Keys - {home} == groups0.Keys - rest.Keys - {home} + {k};
  }

  lemma GroupsApart(groups: Groups, j: nat, k: nat)
    requires UniqueIds(groups) && j in groups && k in groups
    ensures DistinctIds(groups[j])
    ensures j != k ==> Apart(groups[j], groups[k])
  {
    forall a, b | 0 <= a < b < |groups[j]| ensures groups[j][a].id != groups[j][b].id {
      assert At(groups, j, a) && At(groups, j, b);
    }
    forall a, b | 0 <= a < |groups[j]| && 0 <= b < |groups[k]| && j != k ensures groups[j][a].id != groups[k][b].id {
      assert At(groups, j, a) && At(groups, k, b);
    }
  }

  lemma RemoveKey(groups: Groups, k: nat)
    requires k in groups
    ensures |groups - {k}| < |groups|
  {
    assert groups == (groups - {k})[k := groups[k]];
  }

  lemma StartMerge(groups: Groups, home: nat)
    requires UniqueIds(groups) && home in groups
    ensures Merging(groups, home, groups, groups[home])
  {
    AllTabsWithout(groups, home);
    GroupsApart(groups, home, home);
    forall k | k in groups && k != home ensures Apart(groups[home], groups[k]) {
      GroupsApart(groups, home, k);
    }
  }

  lemma MergeHome(groups0: Groups, home: nat, rest: Groups, merged: seq<Tab>)
    requires Merging(groups0, home, rest, merged) && home in rest
    ensures Merging(groups0, home, rest - {home}, merged + Others(rest[home], groups0[home]))
  {
    OthersNone(rest[home], groups0[home]);
    assert merged + [] == merged;
    assert rest - {home} - {home} == rest - {home};
  }

  lemma OtherGroupIsNew(groups0: Groups, home: nat, k: nat)
    requires UniqueIds(groups0) && k in groups0 && home in groups0 && k != home
    ensures Others(groups0[k], groups0[home]) == groups0[k]
  {
    GroupsApart(groups0, k, home);
    OthersAll(groups0[k], groups0[home]);
  }

  lemma MergeSum(rest: Groups, home: nat, merged: seq<Tab>, k: nat)
    requires k in rest && k != home
    ensures multiset(merged + rest[k]) + AllTabs(rest - {k} - {home}) == multiset(merged) + AllTabs(rest - {home})
  {
    var others: Groups := rest - {home};
    AllTabsWithout(others, k);
    assert others - {k} == rest - {k} - {home};
  }

  lemma MergeOther(groups0: Groups, home: nat, rest: Groups, merged: seq<Tab>, k: nat)
    requires UniqueIds(groups0) && Merging(groups0, home, rest, merged) && k in rest && k != home
    ensures Merging(groups0, home, rest - {k}, merged + rest[k])
  {
    AppendApart(groups0, home, rest, merged, k);
    MergeSum(rest, home, merged, k);
  }

  lemma MergeStep(groups0: Groups, home: nat, rest: Groups, merged: seq<Tab>, k: nat)
    requires UniqueIds(groups0) && Merging(groups0, home, rest, merged) && k in rest
    ensures rest[k] == groups0[k]
    ensures Merging(groups0, home, rest - {k}, merged + Others(groups0[k], groups0[home]))
  {
    if k == home {
      MergeHome(groups0, home, rest, merged);
    } else {
      OtherGroupIsNew(groups0, home, k);
      MergeOther(groups0, home, rest, merged, k);
    }
  }

  lemma MergedStep(groups0: Groups, home: nat, rest: Groups, merged: seq<Tab>, order: seq<nat>, k: nat)
    returns (more: seq<nat>)
    requires UniqueIds(groups0) && MergedInOrder(groups0, home, rest, merged, order) && k in groups0 && k in rest
    ensures MergedInOrder(groups0, home, rest - {k}, merged + Others(groups0[k], groups0[home]), more)
  {
    if k == home {
      more := order;
      MergedHome(groups0, home, rest, merged, order);
    } else {
      more := order + [k];
      MergedOther(groups0, home, rest, merged, order, k, more);
    }
  }

  lemma AppendApart(groups0: Groups, home: nat, rest: Groups, merged: seq<Tab>, k: nat)
    requires UniqueIds(groups0) && Merging(groups0, home, rest, merged) && k in rest && k != home
    ensures DistinctIds(merged + rest[k])
    ensures forall j :: j in rest && j != home && j != k ==> Apart(merged + rest[k], rest[j])
  {
    GroupsApart(groups0, k, k);
    forall j | j in rest && j != home && j != k ensures Apart(merged + rest[k], rest[j]) {
      GroupsApart(groups0, k, j);
    }
  }

  lemma FinishMerge(groups0: Groups, home: nat, merged: seq<Tab>)
    requires Merging(groups0, home, map[], merged) && NoEmptyGroup(groups0)
    ensures UniqueIds(map[0 := merged]) && NoEmptyGroup(map[0 := merged])
    ensures AllTabs(map[0 := merged]) == AllTabs(groups0)
  {
    var empty: Groups := map[];
    assert empty - {home} == empty && empty - {0} == empty;
    assert map[0 := merged] == empty[0 := merged];
    AllTabsUpdate(empty, 0, merged);
    assert merged != [];
  }

  lemma OnlyGroupWith(groups: Groups, home: nat, id: WindowId)
    requires UniqueIds(groups) && home in groups && HasId(groups[home], id)
    ensures InTable(groups, id)
    ensures forall k: nat, i: nat :: At(groups, k, i) && groups[k][i].id == id ==> k == home
  {
    var spot := Position(groups[home], id).value;
    assert At(groups, home, spot);
  }

  class SystemWindowTabController {
    var visible: Option<bool>
    var tabGroups: Groups

    ghost predicate Valid()
      reads this
    {
      UniqueIds(tabGroups) && NoEmptyGroup(tabGroups)
    }

    constructor ()
      ensures Valid() && tabGroups == map[]
    {
      visible, tabGroups := None, map[];
    }

    /** A group that has the tab, if any has. */
    method FindGroup(id: WindowId) returns (group: Option<nat>)
      ensures group.Some? ==> group.value in tabGroups && HasId(tabGroups[group.value], id)
      ensures group.None? ==> !InTable(tabGroups, id)
    {
      var todo := tabGroups.Keys;
      while todo != {}
        invariant todo <= tabGroups.Keys
        invariant forall k :: k in tabGroups && k !in todo ==> !HasId(tabGroups[k], id)
      {
        var k :| k in todo;
        if Position(tabGroups[k], id).Some? {
          return Some(k);
        }
        todo := todo - {k};
      }
      forall k: nat, i: nat ensures !(At(tabGroups, k, i) && tabGroups[k][i].id == id) {
        if At(tabGroups, k, i) {
          assert !HasId(tabGroups[k], id) && tabGroups[k][i] in tabGroups[k];
        }
      }
      return None;
    }

    /** Moves a tab within its group; an index past the end changes nothing. */
    method UpdateTabPosition(id: WindowId, ix: nat)
      requires Valid()
      modifies this`tabGroups
      ensures Valid() && AllTabs(tabGroups) == AllTabs(old(tabGroups)) && tabGroups.Keys == old(tabGroups.Keys)
      ensures forall k: nat, i: nat :: At(old(tabGroups), k, i) && old(tabGroups)[k][i].id == id ==>
                if ix < |old(tabGroups)[k]| then
                  && At(tabGroups, k, ix)
                  && tabGroups == old(tabGroups)[k := tabGroups[k]]
                  && tabGroups[k][ix] == old(tabGroups)[k][i]
                  && RemoveAt(tabGroups[k], ix) == RemoveAt(old(tabGroups)[k], i)
                else
                  tabGroups == old(tabGroups)
      ensures !InTable(old(tabGroups), id) ==> tabGroups == old(tabGroups)
    {
      var group := FindGroup(id);
      if group.Some? {
        OnlyGroupWith(tabGroups, group.value, id);
        MoveWithin(group.value, id, ix);
      }
    }

    method MoveWithin(k: nat, id: WindowId, ix: nat)
      requires Valid() && k in tabGroups && HasId(tabGroups[k], id)
      modifies this`tabGroups
      ensures Valid() && AllTabs(tabGroups) == AllTabs(old(tabGroups)) && tabGroups.Keys == old(tabGroups.Keys)
      ensures forall i: nat :: At(old(tabGroups), k, i) && old(tabGroups)[k][i].id == id ==>
                if ix < |old(tabGroups)[k]| then
                  && At(tabGroups, k, ix)
                  && tabGroups == old(tabGroups)[k := tabGroups[k]]
                  && tabGroups[k][ix] == old(tabGroups)[k][i]
                  && RemoveAt(tabGroups[k], ix) == RemoveAt(old(tabGroups)[k], i)
                else
                  tabGroups == old(tabGroups)
    {
      var windows := tabGroups[k];
      var currentPos := Position(windows, id).value;
      assert At(tabGroups, k, currentPos);
      if ix < |windows| && currentPos != ix {
        RearrangeKeeps(tabGroups, k, currentPos, ix);
        tabGroups := tabGroups[k := InsertAt(RemoveAt(windows, currentPos), ix, windows[currentPos])];
      } else {
        assert tabGroups == tabGroups[k := windows];
      }
    }

    /** Some group that has exactly the expected ids. */
    method FindMatch(expected: multiset<WindowId>) returns (group: Option<nat>)
      ensures group.Some? ==> Matches(tabGroups, group.value, expected)
      ensures group.None? ==> forall k: nat :: !Matches(tabGroups, k, expected)
    {
      var todo := tabGroups.Keys;
      while todo != {}
        invariant todo <= tabGroups.Keys
        invariant forall k :: k in tabGroups && k !in todo ==> Ids(tabGroups[k]) != expected
      {
        var k :| k in todo;
        if Ids(tabGroups[k]) == expected {
          return Some(k);
        }
        todo := todo - {k};
      }
      return None;
    }

    /**
     Adds a tab to the group whose tabs are the others in its list, or puts the whole list into a new group
     whose key is the number of groups.  `joined` is the group that took the tab.
     */
    method AddTab(id: WindowId, tabs: seq<Tab>) returns (ghost joined: Option<nat>)
      requires Valid()
      modifies this`tabGroups
      ensures !HasId(tabs, id) ==> tabGroups == old(tabGroups)
      ensures HasId(tabs, id) && DistinctIds(tabs) ==>
                if joined.Some? then
                  joined.value in old(tabGroups) && OtherIds(old(tabGroups)[joined.value], tabs, id)
                else
                  forall k :: k in old(tabGroups) ==> !OtherIds(old(tabGroups)[k], tabs, id)
      ensures HasId(tabs, id) && joined.Some? ==>
                var k, tab := joined.value, tabs[Position(tabs, id).value];
                && Matches(old(tabGroups), k, Ids(Except(tabs, id)))
                && tabGroups == old(tabGroups)[k := old(tabGroups)[k] + [tab]]
                && AllTabs(tabGroups) == AllTabs(old(tabGroups)) + multiset{tab}
                && (Valid() <==> !InTable(old(tabGroups), tab.id))
      ensures HasId(tabs, id) && joined.None? ==>
                && (forall k: nat :: !Matches(old(tabGroups), k, Ids(Except(tabs, id))))
                && tabGroups == old(tabGroups)[|old(tabGroups)| := tabs]
                && (AllTabs(tabGroups) == AllTabs(old(tabGroups)) + multiset(tabs) <==>
                    |old(tabGroups)| !in old(tabGroups))
                && (AllTabs(old(tabGroups)) <= AllTabs(tabGroups) <==>
                    |old(tabGroups)| !in old(tabGroups) ||
                    multiset(old(tabGroups)[|old(tabGroups)|]) <= multiset(tabs))
                && (forall t :: t in AllTabs(old(tabGroups)) && t !in AllTabs(tabGroups) <==>
                      |old(tabGroups)| in old(tabGroups) && t in old(tabGroups)[|old(tabGroups)|] && t !in tabs)
                && (Valid() <==>
                    DistinctIds(tabs) &&
                    forall k :: k in old(tabGroups) && k != |old(tabGroups)| ==> Apart(tabs, old(tabGroups)[k]))
    {
      joined := None;
      var pos := Position(tabs, id);
      if pos.None? {
        return;
      }
      if DistinctIds(tabs) {
        MatchesIff(tabGroups, tabs, id);
      }
      var tab := tabs[pos.value];
      var group := FindMatch(Ids(Except(tabs, id)));
      joined := group;
      if group.Some? {
        AddToGroupConserves(tabGroups, group.value, tab);
        JoinKeepsIff(tabGroups, group.value, tab);
        tabGroups := tabGroups[group.value := tabGroups[group.value] + [tab]];
      } else {
        AddGroupConserves(tabGroups, |tabGroups|, tabs);
        AddGroupLosesNothingIff(tabGroups, |tabGroups|, tabs);
        forall t {
          LostTabs(tabGroups, |tabGroups|, tabs, t);
        }
        PutKeepsIff(tabGroups, |tabGroups|, tabs);
        tabGroups := tabGroups[|tabGroups| := tabs];
      }
    }

    /** One group's turn: its first tab with the id goes, and the group with it if nothing is left. */
    method RetainGroup(k: nat, id: WindowId) returns (removed: Option<Tab>)
      requires k in tabGroups && tabGroups[k] != []
      modifies this`tabGroups
      ensures match Position(old(tabGroups)[k], id)
              case None => tabGroups == old(tabGroups) && removed == None
              case Some(pos) =>
                tabGroups == WithoutTab(old(tabGroups), k, pos) && removed == Some(old(tabGroups)[k][pos])
    {
      var tabs := tabGroups[k];
      var pos := Position(tabs, id);
      removed := None;
      if pos.Some? {
        removed := Some(tabs[pos.value]);
        tabs := RemoveAt(tabs, pos.value);
      }
      if tabs == [] {
        tabGroups := tabGroups - {k};
      } else {
        tabGroups := tabGroups[k := tabs];
      }
    }

    /** Every group's turn, in any order; `home` and `spot` say where the tab is, if it is anywhere. */
    method RetainAll(id: WindowId, ghost present: bool, ghost home: nat, ghost spot: nat) returns (removed: Option<Tab>)
      requires NoEmptyGroup(tabGroups)
      requires forall k: nat, i: nat :: At(tabGroups, k, i) && tabGroups[k][i].id == id ==> present && k == home && i == spot
      requires present ==> At(tabGroups, home, spot) && tabGroups[home][spot].id == id
      modifies this`tabGroups
      ensures if present then
                tabGroups == WithoutTab(old(tabGroups), home, spot) && removed == Some(old(tabGroups)[home][spot])
              else
                tabGroups == old(tabGroups) && removed == None
    {
      removed := None;
      var todo := tabGroups.Keys;
      while todo != {}
        invariant todo <= old(tabGroups.Keys)
        invariant if present && home !in todo then
                    tabGroups == WithoutTab(old(tabGroups), home, spot) && removed == Some(old(tabGroups)[home][spot])
                  else
                    tabGroups == old(tabGroups) && removed == None
      {
        var k :| k in todo;
        todo := todo - {k};
        ghost var tabs := tabGroups[k];
        ghost var pos := Position(tabs, id);
        assert pos.Some? ==> At(old(tabGroups), k, pos.value);
        assert k == home && present ==> tabs[spot] in tabs;
        var taken := RetainGroup(k, id);
        removed := if taken.Some? then taken else removed;
      }
    }

    /** Takes the tab out of its group; a group left empty disappears. */
    method RemoveTab(id: WindowId) returns (removed: Option<Tab>)
      requires Valid()
      modifies this`tabGroups
      ensures Valid() && !InTable(tabGroups, id)
      ensures removed.Some? <==> InTable(old(tabGroups), id)
      ensures removed.Some? ==> removed.value.id == id
      ensures forall k: nat, i: nat :: At(old(tabGroups), k, i) && old(tabGroups)[k][i].id == id ==>
                removed == Some(old(tabGroups)[k][i])
      ensures AllTabs(old(tabGroups)) ==
              AllTabs(tabGroups) + if removed.Some? then multiset{removed.value} else multiset{}
      ensures forall k: nat, i: nat :: At(old(tabGroups), k, i) && old(tabGroups)[k][i].id == id ==>
                tabGroups == WithoutTab(old(tabGroups), k, i)
      ensures removed.None? ==> tabGroups == old(tabGroups)
    {
      ghost var present := InTable(tabGroups, id);
      ghost var home: nat, spot: nat := 0, 0;
      if present {
        home, spot :| At(tabGroups, home, spot) && tabGroups[home][spot].id == id;
        WithoutTabKeeps(tabGroups, home, spot);
      }
      removed := RetainAll(id, present, home, spot);
    }

    /** The tab becomes a group of its own, under a key that no group has. */
    method MoveTabToNewWindow(id: WindowId) returns (ghost key: nat)
      requires Valid()
      modifies this`tabGroups
      ensures Valid() && AllTabs(tabGroups) == AllTabs(old(tabGroups))
      ensures !InTable(old(tabGroups), id) ==> tabGroups == old(tabGroups)
      ensures forall k: nat, i: nat :: At(old(tabGroups), k, i) && old(tabGroups)[k][i].id == id ==>
                var rest: Groups := WithoutTab(old(tabGroups), k, i);
                key !in rest && tabGroups == rest[key := [old(tabGroups)[k][i]]]
    {
      var removed := RemoveTab(id);
      key := 0;
      if removed.Some? {
        var newGroupId := FreshKey();
        key := newGroupId;
        NewGroupKeeps(tabGroups, newGroupId, removed.value);
        tabGroups := tabGroups[newGroupId := [removed.value]];
      }
    }

    /** One above the largest key in use, or 0. */
    method FreshKey() returns (key: nat)
      ensures key !in tabGroups && (key == 0 || key - 1 in tabGroups)
      ensures forall k :: k in tabGroups ==> k < key
    {
      key := 0;
      var todo := tabGroups.Keys;
      while todo != {}
        invariant todo <= tabGroups.Keys
        invariant key == 0 || key - 1 in tabGroups
        invariant forall k :: k in tabGroups && k !in todo ==> k < key
      {
        var k :| k in todo;
        if key <= k {
          key := k + 1;
        }
        todo := todo - {k};
      }
    }

    /** All groups become one, the group of the given tab first, each in its old order; `order` lists the others. */
    method MergeAllWindows(id: WindowId) returns (ghost order: seq<nat>)
      requires Valid()
      modifies this`tabGroups
      ensures Valid() && AllTabs(tabGroups) == AllTabs(old(tabGroups))
      ensures !InTable(old(tabGroups), id) ==> tabGroups == old(tabGroups)
      ensures forall k: nat, i: nat :: At(old(tabGroups), k, i) && old(tabGroups)[k][i].id == id ==>
                && tabGroups.Keys == {0}
                && old(tabGroups)[k] <= tabGroups[0]
                && MergedInOrder(old(tabGroups), k, map[], tabGroups[0], order)
    {
      order := [];
      var group := FindGroup(id);
      if group.None? {
        return;
      }
      OnlyGroupWith(tabGroups, group.value, id);
      order := MergeInto(group.value);
    }

    method MergeInto(home: nat) returns (ghost order: seq<nat>)
      requires Valid() && home in tabGroups
      modifies this`tabGroups
      ensures Valid() && AllTabs(tabGroups) == AllTabs(old(tabGroups))
      ensures tabGroups.Keys == {0} && old(tabGroups)[home] <= tabGroups[0]
      ensures MergedInOrder(old(tabGroups), home, map[], tabGroups[0], order)
    {
      var allTabs;
      allTabs, order := DrainInto(home);
      FinishMerge(old(tabGroups), home, allTabs);
      tabGroups := map[0 := allTabs];
    }

    /** Takes all groups out of the table, in any order, and puts their tabs behind those of the given group. */
    method DrainInto(home: nat) returns (allTabs: seq<Tab>, ghost order: seq<nat>)
      requires UniqueIds(tabGroups) && home in tabGroups
      modifies this`tabGroups
      ensures Merging(old(tabGroups), home, map[], allTabs)
      ensures MergedInOrder(old(tabGroups), home, map[], allTabs, order)
    {
      order := [];
      var initialTabs := tabGroups[home];
      allTabs := initialTabs;
      StartMerge(tabGroups, home);
      while tabGroups != map[]
        invariant Merging(old(tabGroups), home, tabGroups, allTabs)
        invariant MergedInOrder(old(tabGroups), home, tabGroups, allTabs, order)
        decreases |tabGroups|
      {
        var k :| k in tabGroups;
        var tabs := tabGroups[k];
        MergeStep(old(tabGroups), home, tabGroups, allTabs, k);
        order := MergedStep(old(tabGroups), home, tabGroups, allTabs, order, k);
        allTabs := allTabs + Others(tabs, initialTabs);
        RemoveKey(tabGroups, k);
        tabGroups := tabGroups - {k};
      }
    }
  }

  lemma SingleTab(t: Tab)
    ensures Ids([t]) == multiset{t.id} && Except([t], t.id) == []
    ensures HasId([t], t.id) && DistinctIds([t]) && Ids([]) == multiset{}
  {
    assert t in [t];
    assert [t][1..] == [];
  }

  lemma OnlyEmptyGroupsHaveNoIds(groups: Groups)
    requires NoEmptyGroup(groups)
    ensures forall k: nat :: !Matches(groups, k, Ids([]))
  {
    forall k: nat | k in groups ensures Ids(groups[k]) != Ids([]) {
      assert groups[k][0].id in Ids(groups[k]);
    }
  }

  /** A tab that comes alone always gets a group of its own, under the number of groups. */
  method AddAlone(controller: SystemWindowTabController, t: Tab)
    requires controller.Valid()
    modifies controller`tabGroups
    ensures controller.tabGroups == old(controller.tabGroups)[|old(controller.tabGroups)| := [t]]
  {
    SingleTab(t);
    OnlyEmptyGroupsHaveNoIds(controller.tabGroups);
    ghost var joined := controller.AddTab(t.id, [t]);
  }

  lemma TwoGroups(a: Tab, b: Tab)
    requires a.id != b.id
    ensures var groups: Groups := map[0 := [a], 1 := [b]];
            UniqueIds(groups) && NoEmptyGroup(groups) && At(groups, 0, 0) && WithoutTab(groups, 0, 0) == map[1 := [b]]
  {
    var groups: Groups := map[0 := [a], 1 := [b]];
    assert groups - {0} == map[1 := [b]];
    assert RemoveAt(groups[0], 0) == [];
  }

  lemma OneGroup(b: Tab, c: Tab)
    ensures var groups: Groups := map[1 := [b]]; groups[|groups| := [c]] == map[1 := [c]]
  {
    var groups: Groups := map[1 := [b]];
    assert |groups| == 1;
  }

  method TwoAlone(a: Tab, b: Tab) returns (controller: SystemWindowTabController)
    requires a.id != b.id
    ensures fresh(controller) && controller.Valid() && controller.tabGroups == map[0 := [a], 1 := [b]]
  {
    controller := new SystemWindowTabController();
    AddAlone(controller, a);
    assert controller.tabGroups == map[0 := [a]];
    AddAlone(controller, b);
    TwoGroups(a, b);
    assert controller.tabGroups == map[0 := [a], 1 := [b]];
  }

  /**
   A key is used again and a tab lost although nobody removed it: two tabs get groups of their own, the first one goes,
   and the group of a third one takes the key of the second.
   */
  method ReuseOfAKey(a: Tab, b: Tab, c: Tab) returns (controller: SystemWindowTabController)
    requires a.id != b.id && b.id != c.id
    ensures fresh(controller)
    ensures controller.tabGroups == map[1 := [c]]
  {
    controller := TwoAlone(a, b);
    TwoGroups(a, b);
    var removed := controller.RemoveTab(a.id);
    assert controller.tabGroups == map[1 := [b]];
    AddAlone(controller, c);
    OneGroup(b, c);
  }
}
