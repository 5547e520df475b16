# Models of gpui's ordering, update, allocation and text components

Dafny models of the self-contained cores of `gpui`, with proofs of what each of them promises. `dafny verify dfyconfig.toml`
checks everything.

- **Z-order index** (`Geometry`, `OrderTree`, `NodeStore`, `TreeSearch`, `InsertPath`, `BoundsTree`, `TreeShape`, `Chains`). An
  append-only R-tree in a vector of nodes. `OrderTree.Inserted` says what one insertion does to the tree as a value; the class
  `BoundsTree` keeps the vector, walks it with an explicit stack and a recorded path, and is proved to compute that value. The main
  result is `BoundsTree.Insert`: the fast path, both prunings, the leaf splits and the largest-child-last rule agree with a linear
  scan over all earlier rectangles. `Chains` says what the resulting orders mean.
- **Effect queue and window index** (`Effects`, `Traces`, `App`). Nested updates, one flush at the outermost finish, de-duplicated
  notifications, and the two-way index between windows and the entities they show. Code that the application calls back into is
  data: a closure is a finite script of operations, and `callbacks` lists what the observers still to be called will do. Every run
  in which user code does finitely much is such a run, so the contracts hold over all of them; termination in general is not claimed.
  `Traces` has two halves: the predicates `Follows` to `CallsBack` are a grammar of the logs that scripts, flushes and callbacks may
  leave, and `Runs` steps the queue and the index from one state to the next along a log. The class keeps its trace in both, so
  what is proved about logs and runs holds for everything it does.
- **Tab groups** (`TabGroups`). The table of window tabs, with its groups visited in an arbitrary order.
- **Bump allocator** (`Arena`). Chunks at arbitrary addresses, alignment padding, reuse after a clear, and the validity token.
- **Two protocols as interleaved steps**: blocking on a future (`Blocking`) and scoped tasks (`Scopes`).
- **LRU image cache** (`LruCache`), **text field** (`Encodings`, `TextInput`), **colours** (`Color`) and **dashes** (`Dash`).
  Byte lengths follow section 3 of RFC 3629, UTF-16 lengths section 2.1 of RFC 2781, dashes section 13.5.6 of SVG 2.

Parameters stand for what the source gets from outside: the address of a new chunk, the text offset that the last layout finds under the mouse, the
clipboard text, the starts of the graphemes of a text, the future that is blocked on, and everything user code does.

Where the code and its own comments disagree, the models follow the code:

- `crates/gpui/src/bounds_tree.rs:18` speaks of a branching factor of 4; the constant is 12.
- `crates/gpui/src/app.rs:2529-2532` calls `window_invalidators_by_entity` monotonic and filters it; entries are removed when a frame
  is recorded and when a window closes, and `App.NotifyEntity` shows that the filter never drops anything.

Results that a reader may not expect:

- `notify` queues nothing when the windows that show the entity are all drawing; `Traces.NotifiedLater` gives the exact condition and
  `Traces.DrawingWindowMutes` a run.
- `add_tab` can replace a group, because the number of groups may be in use as a key. `TabGroups.LostTabs` says which tabs are lost,
  `TabGroups.AddGroupLosesNothingIff` when none is, and `TabGroups.ReuseOfAKey` is a run that loses one.
- An explicit selection passed with composed text can end outside the text. It never does exactly when the text is composed into the
  empty range at the start (`TextInput.ShiftedStaysIff`); `TextInput.ShiftedEnd` is the bound for one selection.
- Cutting and pasting need not restore the text: a marked range is removed instead of the selected one, and line breaks come back
  as spaces (`TextInput.TextInput.CutThenPaste` gives the exact condition).
- The drop of a scope returns exactly unless its closure spawned something and gave up before the hand-over
  (`Scopes.DropReturnsIff`, with `Scopes.GivenUpScope` as an example).
- An image cache of size 0 panics on its first access (`LruCache.SimpleLruCache.Load`).

## Model

| member | source | states |
|---|---|---|
| `Geometry.UnionIsLeast` | crates/gpui/src/geometry.rs:1182-1186 | the union is the smallest rectangle that contains both: a rectangle contains it exactly when it contains each of the two |
| `Geometry.MeetIsSharedPoint` | crates/gpui/src/geometry.rs:962-970 | two rectangles with extent meet exactly when some point is inside both |
| `Geometry.PointMeets` | crates/gpui/src/geometry.rs:962-970 | a rectangle without extent meets another one exactly when its point is inside |
| `Geometry.ContainsIsOfPoints` | crates/gpui/src/geometry.rs:1182-1186 | a rectangle contains another one exactly when it contains its inner points |
| `Geometry.HalfPerimeterGrows` | crates/gpui/src/geometry.rs:1028-1030 | the half perimeter grows with the rectangle, strictly unless the rectangle stays the same |
| `Geometry.IntersectsGrows` | crates/gpui/src/geometry.rs:962-970 | a query that meets a rectangle meets every rectangle that contains it, whatever the signs of the sizes |
| `OrderTree.CostIsLeast` | crates/gpui/src/bounds_tree.rs:248-262 | the cost of a child is the least half perimeter of a box around it and the new rectangle |
| `OrderTree.BestAmong` | crates/gpui/src/bounds_tree.rs:248-262 | the child descended into is the first one with the least half perimeter after growing |
| `OrderTree.InsertEntries` | crates/gpui/src/bounds_tree.rs:197-356 | an insertion adds exactly the new rectangle to what lies below a subtree and loses none |
| `OrderTree.InsertOwns` | crates/gpui/src/bounds_tree.rs:197-356 | the nodes of the tree after an insertion are the old ones, the new leaf and, exactly when a leaf is split off, one new branch |
| `OrderTree.InsertDistinct` | crates/gpui/src/bounds_tree.rs:197-356 | no node is reached twice after an insertion |
| `OrderTree.InsertExact` | crates/gpui/src/bounds_tree.rs:329-337 | after an insertion the box of the subtree is again the least box of its leaves and its maximum the largest order of its leaves |
| `OrderTree.InsertSound` | crates/gpui/src/bounds_tree.rs:197-356 | fan-out 2 to 12, exact boxes, exact maxima and the largest child in the last slot survive every insertion, at every node |
| `NodeStore.MaxIntersectingIs` | crates/gpui/src/bounds_tree.rs:458-463 | the linear scan is determined by being an upper bound that is attained, or 0 |
| `NodeStore.LeafEntriesUpdate` | crates/gpui/src/bounds_tree.rs:261-356 | overwriting a branch changes no recorded rectangle |
| `NodeStore.Push` | crates/gpui/src/bounds_tree.rs:81-85 | pushing an index appends it to the slots in use |
| `TreeSearch.Prune` | crates/gpui/src/bounds_tree.rs:163-171 | a subtree whose maximum is not above the result, or whose box the query misses, holds nothing that could improve the result |
| `TreeSearch.Expand` | crates/gpui/src/bounds_tree.rs:177-188 | replacing a branch by its children above the current result keeps every candidate on the stack |
| `TreeSearch.Promising` | crates/gpui/src/bounds_tree.rs:180-187 | the children kept by the filter are exactly those with a larger maximum, and no more of them than there were |
| `InsertPath.DescentIsLinked` | crates/gpui/src/bounds_tree.rs:237-327 | the way down visits branches only, each the best child of the one before, and stops at a branch whose best child is a leaf |
| `InsertPath.DirectHolds` | crates/gpui/src/bounds_tree.rs:266-282 | a branch with room gets the leaf as last child, or last but one if its order is not a new maximum |
| `InsertPath.SplitHolds` | crates/gpui/src/bounds_tree.rs:283-322 | a full branch gets a new branch over its best leaf and the new leaf in the right slot |
| `InsertPath.Position` | crates/gpui/src/bounds_tree.rs:341-347 | the position searched for is the first one, and none is found only if there is none |
| `InsertPath.FinishLowest` | crates/gpui/src/bounds_tree.rs:329-353 | the first step up completes the branch that took the leaf |
| `InsertPath.FinishParent` | crates/gpui/src/bounds_tree.rs:329-353 | each further step up makes the stored subtree of a branch the tree of the specification, although a child may have a larger index than its parent |
| `InsertPath.ClimbFinishes` | crates/gpui/src/bounds_tree.rs:329-353 | the whole way up makes the stored tree the tree of the specification |
| `InsertPath.Reindexed` | crates/gpui/src/bounds_tree.rs:197-356 | afterwards the nodes form one tree that reaches each of them exactly once and holds exactly the recorded rectangles |
| `BoundsTree.BoundsTree.constructor` | crates/gpui/src/bounds_tree.rs:359-372 | a new index is valid and empty |
| `BoundsTree.BoundsTree.Clear` | crates/gpui/src/bounds_tree.rs:108-114 | clearing leaves a valid and empty index |
| `BoundsTree.BoundsTree.PushPromising` | crates/gpui/src/bounds_tree.rs:177-188 | the stack grows by the filtered children in order |
| `BoundsTree.BoundsTree.Search` | crates/gpui/src/bounds_tree.rs:152-193 | the pruned depth-first search returns what the linear scan over all earlier rectangles returns, and ends |
| `BoundsTree.BoundsTree.FindMaxOrdering` | crates/gpui/src/bounds_tree.rs:139-193 | so does the search with its fast path |
| `BoundsTree.BoundsTree.ChooseChild` | crates/gpui/src/bounds_tree.rs:248-262 | the loop over the children finds the child of the specification |
| `BoundsTree.BoundsTree.Descend` | crates/gpui/src/bounds_tree.rs:236-327 | the recorded path and the place found are those of the specification |
| `BoundsTree.BoundsTree.AttachDirectly` | crates/gpui/src/bounds_tree.rs:266-282 | a branch with room takes the leaf |
| `BoundsTree.BoundsTree.AttachBySplit` | crates/gpui/src/bounds_tree.rs:283-322 | a full branch takes a new branch in place of its best leaf |
| `BoundsTree.BoundsTree.GrowRoot` | crates/gpui/src/bounds_tree.rs:211-234 | a leaf root gets a new root over it and the new leaf |
| `BoundsTree.BoundsTree.Propagate` | crates/gpui/src/bounds_tree.rs:329-353 | the loop on the way up writes what the recursive description of the climb says |
| `BoundsTree.BoundsTree.InsertLeaf` | crates/gpui/src/bounds_tree.rs:197-356 | after adding a leaf the tree is the inserted tree of the specification and the index is intact |
| `BoundsTree.BoundsTree.Insert` | crates/gpui/src/bounds_tree.rs:120-136 | for every state reached by insertions and clears: the returned order is one more than the largest order of an earlier rectangle that meets the new one (1 if none), it is recorded at the end of the history, and all invariants hold again |
| `TreeShape.BranchShape` | crates/gpui/src/bounds_tree.rs:59-70 | every branch node has 2 to 12 children, contains them, and its last child has its maximum |
| `TreeShape.BoxIsLeast` | crates/gpui/src/bounds_tree.rs:44-46 | the box of a branch node is the least one that contains the boxes of its children |
| `TreeShape.EachNodeOnce` | crates/gpui/src/bounds_tree.rs:197-356 | every node but the root is in exactly one slot of exactly one branch; the root is in none |
| `Chains.LaterIsAbove` | crates/gpui/src/bounds_tree.rs:116-136 | a rectangle gets a strictly larger order than any earlier one that it meets |
| `Chains.LaterIsOnTop` | crates/gpui/src/bounds_tree.rs:116-136 | at every point that is inside two rectangles the later one has the larger order |
| `Chains.BottomIff` | crates/gpui/src/bounds_tree.rs:116-136 | a rectangle has order 1 exactly when it shares no point with an earlier one |
| `Chains.OneAboveHighest` | crates/gpui/src/bounds_tree.rs:116-136 | otherwise its order is one above the highest earlier rectangle with which it shares a point |
| `Chains.OrderIsLongestChain` | crates/gpui/src/bounds_tree.rs:116-136 | chains of rectangles, each meeting the next, end at a rectangle in exactly the lengths 1 to its order; the order is at most the number of rectangles so far, so 32 bits hold it until 2^32 insertions |
| `Traces.InnerIsQuiet` | crates/gpui/src/app.rs:1040-1047 | inside an update no flush begins and no effect is applied, however updates and borrows nest: a flush starts only at the outermost finish |
| `Traces.FlushNeverReenters` | crates/gpui/src/app.rs:1040-1047 | in all that happens during a flush, callbacks and their updates included, no other flush begins |
| `Traces.EveryOpIsDone` | crates/gpui/src/app.rs:1029-1034 | every operation of an update closure or a callback is done, as often as it stands there and in its order |
| `Traces.RunsKeepSound` | crates/gpui/src/app.rs:1560-1637 | in every state that is reached a notification is pending exactly when it is queued, and then queued once; the two-way index is true, and complete for unreleased entities |
| `Traces.RunFacts` | crates/gpui/src/app.rs:1581-1659 | in every run, every effect that was pushed is pending or has been applied since; no effect was applied while a dropped entity waited for its release; entities are released once each in the order they were dropped |
| `Traces.FirstInFirstApplied` | crates/gpui/src/app.rs:1581-1637 | whatever is pending at some moment is applied in its order and before anything else |
| `Traces.NoneTwice` | crates/gpui/src/app.rs:1560-1601 | every effect is applied or pending exactly as often as it was asked for, a notification at most as often |
| `Traces.LiveIsLastRead` | crates/gpui/src/app.rs:2523-2541 | in every run of recorded frames, releases and removals the windows told of a change are exactly those whose last recorded frame read the entity, unless it was released |
| `Traces.NotifyQueuesIff` | crates/gpui/src/app.rs:2522-2556 | a change of an entity leaves a notification pending exactly when one was pending or the entity is not shown by drawing windows only |
| `Traces.NotifiedLater` | crates/gpui/src/app.rs:2522-2556 | in a run that drains the queue a change of an entity reaches its observers, unless none was pending and only drawing windows show it; and then exactly if somebody asks again |
| `Traces.AnnouncedLater` | crates/gpui/src/app.rs:2522-2556 | the same of the log alone: it is announced if no window shows the entity, or one that is not drawing does |
| `Traces.DrawingWindowMutes` | crates/gpui/src/window.rs:155-170 | a window that draws while the entity it shows changes leaves nothing queued, and that is reached for every window and entity |
| `Traces.CalledInOrder` | crates/gpui/src/app.rs:1684-1722 | along every run the callbacks called are those to come, each once and in their order, and the others are left |
| `App.App.PushEffect` | crates/gpui/src/app.rs:1560-1576 | a notification already pending is dropped, anything else is queued last |
| `App.App.RefreshWindows` | crates/gpui/src/app.rs:1025-1027 | a refresh is always queued |
| `App.App.InvalidateView` | crates/gpui/src/window.rs:155-170 | the view is marked dirty; unless the window is drawing it is marked dirty too, a notification is queued and the caller told so |
| `App.App.NotifyEntity` | crates/gpui/src/app.rs:2522-2556 | exactly the windows whose last frame read the entity are told (after its release at most these); a notification is queued unless one is pending or all windows told are drawing; the filter by tracked entities drops nothing |
| `App.App.RecordEntitiesAccessed` | crates/gpui/src/app.rs:1080-1107 | the window tracks exactly the entities of this frame, in both directions of the index |
| `App.App.CloseWindow` | crates/gpui/src/app.rs:1786-1800 | a removed window leaves no trace in either direction of the index |
| `App.App.ReleaseEntity` | crates/gpui/src/app.rs:1649-1653 | a released entity leaves the index of invalidators by entity |
| `App.App.RunCallback` | crates/gpui/src/app.rs:1684-1722 | the callback that is called is the next one, and all of it is done |
| `App.App.RunScript` | crates/gpui/src/app.rs:1029-1034 | any nesting of updates and borrows by user code is done from its first operation to its last, restores the nesting level and the flush flag, keeps all invariants and calls the callbacks that come next; what happens in between is what the grammar of logs in `Traces` admits |
| `App.App.RunPlain` | crates/gpui/src/app.rs:2522-2556 | each single operation takes the queue and the index to the next state of the run; a notification reaches every window whose last frame read the entity, unless it was released |
| `App.App.RemoveWindowWith` | crates/gpui/src/app.rs:1772-1821 | the update of a window that removes it: the window leaves the index before the closing observers are called, and both happen before the finish |
| `App.App.FinishUpdate` | crates/gpui/src/app.rs:1040-1047 | a flush happens exactly at the outermost finish outside a flush, and leaves nothing queued |
| `App.App.FlushEffects` | crates/gpui/src/app.rs:1581-1637 | the flush releases and applies one after the other until nothing is left, each step followed by its callback and nothing else, the callbacks in their order, and ends whenever user code does finitely much |
| `App.App.ApplyNext` | crates/gpui/src/app.rs:1684-1722 | the first effect is applied and the callback that comes next run, which applies nothing itself |
| `App.App.TakeEffect` | crates/gpui/src/app.rs:1684-1687 | the mark of a notification is cleared before its observers run |
| `App.App.ReleaseDroppedEntities` | crates/gpui/src/app.rs:1642-1659 | dropped entities are released, those dropped by release callbacks included, before the next effect |
| `App.App.ReleaseNext` | crates/gpui/src/app.rs:1649-1657 | an entity leaves the index before its release callbacks run |
| `App.App.UpdateWith` | crates/gpui/src/app.rs:1029-1034 | the closure runs inside the update; from outside, that is followed by one flush, after which nothing is queued |
| `App.App.BorrowWith` | crates/gpui/src/app.rs:2877-2921 | the same for a borrowed entity, which is notified before the finish |
| `TabGroups.AllTabsSplit` | crates/gpui/src/app.rs:384 | the multiset of all tabs does not depend on the order in which the groups are visited |
| `TabGroups.SystemWindowTabController.UpdateTabPosition` | crates/gpui/src/app.rs:501-512 | the tab goes to the given index of its group if there is one, the others keep their order, all tabs are kept and ids stay unique |
| `TabGroups.AddGroupConserves` | crates/gpui/src/app.rs:565-568 | putting a list under a key adds just its tabs to the table exactly when no group has the key |
| `TabGroups.AddGroupLosesNothingIff` | crates/gpui/src/app.rs:565-568 | nothing is lost exactly when no group has the key, or the list holds all tabs of the group that has it |
| `TabGroups.LostTabs` | crates/gpui/src/app.rs:565-568 | the tabs that are gone are exactly those of the group that had the key, as far as the list does not hold them |
| `TabGroups.AddGroupCanLose` | crates/gpui/src/app.rs:565-568 | with one group left under key 1 the next tab that comes alone replaces it |
| `TabGroups.ReuseOfAKey` | crates/gpui/src/app.rs:539-584 | that is reached: two tabs are added, the first one removed and a third one added, and the second one is gone |
| `TabGroups.SameIdsIff` | crates/gpui/src/app.rs:545-559 | over distinct ids the comparison of sorted ids holds exactly for a group with one tab less than the list and exactly the other ids |
| `TabGroups.ExceptMembers` | crates/gpui/src/app.rs:545-550 | leaving the new tab out of the list leaves out exactly the tabs with its id |
| `TabGroups.JoinKeepsIff` | crates/gpui/src/app.rs:561-564 | unique ids survive the joining of a tab exactly when its id is new to the table |
| `TabGroups.PutKeepsIff` | crates/gpui/src/app.rs:565-568 | they survive a new group exactly when its ids are distinct and new to all groups but one it replaces |
| `TabGroups.SystemWindowTabController.AddTab` | crates/gpui/src/app.rs:539-569 | the tab joins a group that has exactly the other ids of its list, and if there is none the list becomes a group under the number of groups; in both cases the exact condition under which ids stay unique and no group is empty, and in the second one the exact tabs that are lost |
| `TabGroups.SystemWindowTabController.RemoveTab` | crates/gpui/src/app.rs:572-584 | exactly the tab with the id leaves the table, with its group if it was alone there |
| `TabGroups.SystemWindowTabController.MoveTabToNewWindow` | crates/gpui/src/app.rs:587-595 | the tab ends alone in a group under a key not in use, and all tabs are kept |
| `TabGroups.SystemWindowTabController.MergeAllWindows` | crates/gpui/src/app.rs:598-613 | one group remains: the given tab's group and then the other groups, each once and in its old order; all tabs are kept and ids stay unique |
| `Arena.AlignedUp` | crates/gpui/src/arena.rs:56 | the padded address is a multiple of the alignment |
| `Arena.FitsIff` | crates/gpui/src/arena.rs:55-65 | a chunk has room exactly when some aligned piece of the size lies between its offset and its end |
| `Arena.ApartIff` | crates/gpui/src/arena.rs:55-65 | pieces that are apart share no address, and only such are |
| `Arena.FitsAnywhere` | crates/gpui/src/arena.rs:126-149 | an empty chunk takes a layout at every address exactly when size + align - 1 fits into it |
| `Arena.AllocateKeeps` | crates/gpui/src/arena.rs:55-65 | an allocation is aligned, inside its chunk and apart from all live ones |
| `Arena.Arena.constructor` | crates/gpui/src/arena.rs:87-96 | a new arena has one empty chunk and nothing stored |
| `Arena.Arena.ResetChunks` | crates/gpui/src/arena.rs:106-108 | the chunks up to the current one are emptied, the later ones untouched |
| `Arena.Arena.Clear` | crates/gpui/src/arena.rs:102-110 | the old token is spent, the stored values are dropped in order, all chunks are empty again and none moves |
| `Arena.Arena.CapacityIsTotal` | crates/gpui/src/arena.rs:98-100 | the capacity is what all chunks take together |
| `Arena.Arena.Advance` | crates/gpui/src/arena.rs:131-140 | the next chunk is reused if there is one and is empty in any case |
| `Arena.Arena.Alloc` | crates/gpui/src/arena.rs:113-162 | it fails exactly when neither the current nor the next chunk has room, never when size + align - 1 fits a chunk; otherwise the new piece is aligned, in one chunk, apart from all live ones, and carries the current token; the piece lies less than the alignment behind what was used before, the chunk is used up to its end, and no other chunk changes |
| `Arena.Arena.ValidUntilCleared` | crates/gpui/src/arena.rs:165-186 | a box is valid exactly while no clear has happened since its epoch |
| `Arena.ArenaBox.Map` | crates/gpui/src/arena.rs:172-204 | mapping a box keeps its token; a box that is no longer valid panics |
| `Arena.Arena.DroppedOnce` | crates/gpui/src/arena.rs:102-110 | each stored value is held or dropped, never both and never twice |
| `Arena.Arena.Drop` | crates/gpui/src/arena.rs:80-84 | dropping the arena has dropped every value ever stored, each once, oldest first |
| `Blocking.NoWakeIsLost` | crates/gpui/src/platform_scheduler.rs:74-103 | in every interleaving a parked thread has the token if a wake came since its last poll began, true is returned only for a ready future, false only past a given deadline |
| `Blocking.ReadyMeansReturning` | crates/gpui/src/platform_scheduler.rs:92-103 | once the future is ready and its wake delivered the thread can always go on and every step of its own brings it nearer to returning |
| `Blocking.OwnStepIsUnique` | crates/gpui/src/platform_scheduler.rs:74-103 | the blocked thread never has a choice |
| `Blocking.ReadyReturns` | crates/gpui/src/platform_scheduler.rs:74-103 | from any such reachable state the call returns whatever the order of the steps: a bounded number of its own, and it can always take one |
| `Blocking.WithoutDeadlineOnlyReady` | crates/gpui/src/platform_scheduler.rs:92-103 | without a deadline the call returns only for a ready future |
| `Scopes.DropOutlivesFutures` | crates/gpui/src/executor.rs:411-448 | in every interleaving the senders are the scope's own and one per future not gone, and when the drop has returned every future is gone |
| `Scopes.CanBeDropped` | crates/gpui/src/executor.rs:434-448 | until it is dropped a scope can be dropped, whatever its futures are doing |
| `Scopes.WaitingDropGoesOn` | crates/gpui/src/executor.rs:434-448 | a waiting drop can return exactly when all futures are gone, and until then some handed-over future can take a step |
| `Scopes.NeverHandedOver` | crates/gpui/src/executor.rs:118-131 | a future that the scope still holds when its drop begins keeps the drop waiting for ever |
| `Scopes.DropReturnsAlways` | crates/gpui/src/executor.rs:434-448 | otherwise the drop returns whatever the order of the steps: runs are bounded by what the futures still have to do, and none is stuck before its end |
| `Scopes.DropReturnsIff` | crates/gpui/src/executor.rs:411-448 | for every reachable scope being dropped: the drop can return, and then always does, exactly when no future is held back; and one is exactly when something was spawned and the scope dropped before the hand-over |
| `Scopes.GivenUpScope` | crates/gpui/src/executor.rs:118-131 | a closure that spawns once and gives up leaves a scope whose drop never returns |
| `LruCache.RecentIsNewestFirst` | crates/gpui/examples/image_gallery.rs:167-171 | the list of recent hashes is ordered by last use, newest first |
| `LruCache.RecentFacts` | crates/gpui/examples/image_gallery.rs:167-171 | it lists each hash ever used exactly once |
| `LruCache.SimpleLruCache.InStep` | crates/gpui/examples/image_gallery.rs:199-200 | both assertions at the start of every load hold |
| `LruCache.SimpleLruCache.FindUsage` | crates/gpui/examples/image_gallery.rs:205-209 | the position of a cached hash is always found |
| `LruCache.SimpleLruCache.Touch` | crates/gpui/examples/image_gallery.rs:204-213 | a hit moves the hash to the front |
| `LruCache.SimpleLruCache.Evict` | crates/gpui/examples/image_gallery.rs:218-227 | from a full cache the hash used longest ago is evicted, and its image dropped if it has finished loading |
| `LruCache.SimpleLruCache.Load` | crates/gpui/examples/image_gallery.rs:193-245 | after any history the cache holds exactly the max_items hashes used last, most recent first; a hit is an access to one of them; a cache without room panics on every access |
| `LruCache.LargerContainsSmaller` | crates/gpui/examples/image_gallery.rs:193-245 | on the same history a larger cache lists everything a smaller one does |
| `Encodings.LenIsOfEncoding` | crates/gpui/examples/input.rs:210-238 | a character counts for as many bytes or units as its encoding has, which decoding reads back |
| `Encodings.CharsBeforeIsFirst` | crates/gpui/examples/input.rs:210-238 | the character the loop stops at is the first at or after the offset, or the end |
| `Encodings.CountTo` | crates/gpui/examples/input.rs:210-238 | the loop converts an offset to the first character boundary at or after it |
| `Encodings.ConvertMonotone` | crates/gpui/examples/input.rs:210-238 | both conversions are monotone |
| `Encodings.ThereAndBack` | crates/gpui/examples/input.rs:210-238 | there and back rounds an offset up to the least boundary, at most to the end |
| `Encodings.RoundTrip` | crates/gpui/examples/input.rs:210-238 | on character boundaries the conversions are inverses |
| `TextInput.LastBefore` | crates/gpui/examples/input.rs:248-254 | the previous boundary is the greatest grapheme start before the offset, or 0 |
| `TextInput.FirstAfter` | crates/gpui/examples/input.rs:256-261 | the next boundary is the least grapheme start after the offset, or the end if there is none |
| `TextInput.ReplacedBoundaries` | crates/gpui/examples/input.rs:326-329 | both ends of inserted text are character boundaries of the result |
| `TextInput.CutAndPutBack` | crates/gpui/examples/input.rs:313-332 | removing a range and inserting a text where it was restores the content exactly when the text is the piece that was removed |
| `TextInput.CutOfMarkedDiffers` | crates/gpui/examples/input.rs:157-164 | with another range marked, cutting and pasting does not restore the text |
| `TextInput.ShiftedStaysIff` | crates/gpui/examples/input.rs:356-360 | an explicit selection with composed text is in the text for every ordered selection exactly when the text was composed into an empty range at the start |
| `TextInput.ShiftedEnd` | crates/gpui/examples/input.rs:356-360 | one selection ends within the text exactly when it leaves room for the end of the replaced range |
| `TextInput.ShiftedStaysInOneByteText` | crates/gpui/examples/input.rs:356-360 | in text of one-byte characters that is all an ordered selection needs |
| `TextInput.ShiftedSelectionEscapes` | crates/gpui/examples/input.rs:356-360 | selecting the whole of a composed text that replaced another one ends outside the text |
| `TextInput.TextInput.BoundariesAround` | crates/gpui/examples/input.rs:248-261 | the ends of the text and the neighbours of any offset are character boundaries, and the neighbours are the nearest grapheme starts on their sides |
| `TextInput.TextInput.SelectTo` | crates/gpui/examples/input.rs:197-208 | only the head of the (anchor, head) pair moves, the range stays ordered and the direction turns when the head passes the anchor; it is valid exactly at a character boundary |
| `TextInput.TextInput.MoveTo` | crates/gpui/examples/input.rs:166-169 | the selection becomes empty at the offset, which is valid exactly at a character boundary |
| `TextInput.TextInput.Left` | crates/gpui/examples/input.rs:49-55 | the cursor goes to the nearest grapheme start before it, or to the start of a selection |
| `TextInput.TextInput.Right` | crates/gpui/examples/input.rs:57-63 | the cursor goes to the nearest grapheme start after it, or to the end of a selection |
| `TextInput.TextInput.SelectAll` | crates/gpui/examples/input.rs:73-76 | everything is selected, whatever the direction was |
| `TextInput.TextInput.OnMouseDown` | crates/gpui/examples/input.rs:110-123 | with shift only the head moves, without it the selection is empty at the mouse; the field is valid exactly when the layout found a character boundary of the present text |
| `TextInput.TextInput.RangeFromUtf16` | crates/gpui/examples/input.rs:244-246 | any range comes out on character boundaries, and an ordered one ordered |
| `TextInput.TextInput.ReplaceTextInRange` | crates/gpui/examples/input.rs:313-332 | the text replaces the given, marked or selected range, the cursor is behind it, and both ranges stay ordered, in bounds and on boundaries |
| `TextInput.TextInput.ReplaceAndMarkTextInRange` | crates/gpui/examples/input.rs:334-363 | the composed text is marked; all invariants hold again without an explicit selection, and with one exactly when the shifted selection is in the text |
| `TextInput.TextInput.DeleteTo` | crates/gpui/examples/input.rs:86-108 | the bell rings exactly when there is nothing to delete; otherwise exactly the marked, selected or reached range goes |
| `TextInput.TextInput.Backspace` | crates/gpui/examples/input.rs:86-96 | deletes the marked range, else the selected one, else back to the nearest grapheme start |
| `TextInput.TextInput.Delete` | crates/gpui/examples/input.rs:98-108 | deletes the marked range, else the selected one, else on to the nearest grapheme start |
| `TextInput.TextInput.Paste` | crates/gpui/examples/input.rs:144-148 | the text, with a space for each line break and every other character as it is, replaces the marked range or else the selected one |
| `TextInput.TextInput.Copy` | crates/gpui/examples/input.rs:150-156 | the selected piece is copied, nothing if nothing is selected |
| `TextInput.TextInput.Cut` | crates/gpui/examples/input.rs:157-164 | the selected piece is copied, and the marked range or else the selected one removed |
| `TextInput.TextInput.CutThenPaste` | crates/gpui/examples/input.rs:144-164 | cutting and pasting restores the text exactly when the copied piece, with its line breaks as spaces, is the removed one: with nothing marked, exactly when it has no line break |
| `Color.ChannelsBack` | crates/gpui/src/color.rs:194-222 | before clamping, converting to HSL and back gives the channels through every sector and tie |
| `Color.RoundTrip` | crates/gpui/src/color.rs:677-713 | RGB to HSL and back is the identity on colours in range |
| `Color.ToHslaInjective` | crates/gpui/src/color.rs:677-713 | different colours in range have different HSL values |
| `Color.HslRoundTripIff` | crates/gpui/src/color.rs:194-222 | HSL to RGB and back is the identity on exactly the values with a hue below a full turn, no saturation in black and white and no hue in grey |
| `Color.ToHslaInRange` | crates/gpui/src/color.rs:677-713 | the HSL values of a colour in range are in range |
| `Color.ClampIsNoOp` | crates/gpui/src/color.rs:215-220 | the clamps change nothing for any HSL colour in range |
| `Color.BlendInRange` | crates/gpui/src/color.rs:58-71 | blended channels stay in range, each between the two it comes from |
| `Color.BlendIsEven` | crates/gpui/src/color.rs:58-71 | each channel goes evenly from the colour below to the colour above as the alpha goes from 0 to 1 |
| `Color.BlendAtEnds` | crates/gpui/src/color.rs:58-71 | a transparent colour leaves the one below, an opaque one hides it, also beyond both ends |
| `Color.FullTurn` | crates/gpui/src/color.rs:194-222 | a full turn of the hue changes nothing |
| `Color.ToRgbaInRange` | crates/gpui/src/color.rs:215-220 | any HSL value, also one out of range, gives channels in range |
| `Color.Primaries` | crates/gpui/src/color.rs:677-713 | pure red, green and blue lie at hue 0, 1/3 and 2/3 |
| `Dash.AtFirst` | crates/gpui/src/path_builder.rs:290-300 | the first round is the list itself, in its order |
| `Dash.DashArrayIs` | crates/gpui/src/path_builder.rs:108-121 | the list kept is of even length and goes round the given one, twice if that is odd |
| `Dash.DoublingChangesNothing` | crates/gpui/src/path_builder.rs:108-121 | repeating an odd list changes nothing that is drawn |
| `Dash.ReachesIff` | crates/gpui/src/path_builder.rs:290-300 | whatever the signs of the lengths, the loop can end exactly when the path has no length, the list as a whole goes forward, or its first round gets to the end |
| `Dash.LegalCanEnd` | crates/gpui/src/path_builder.rs:290-300 | over non-negative lengths that is exactly when one of them is positive |
| `Dash.OnDashIsPeriodic` | crates/gpui/src/path_builder.rs:286-300 | a list of even length repeats with its period |
| `Dash.DrawnCovers` | crates/gpui/src/path_builder.rs:290-300 | the parts drawn cover exactly the even-numbered segments |
| `Dash.SplitDashes` | crates/gpui/src/path_builder.rs:286-300 | the loop ends at the first segment that begins behind the path and draws the even segments before it; over non-negative lengths the parts are ordered, lie in the path, are those of the pattern however far continued, and cover a point of the path exactly when it is on a dash |

## Left out

- App.App.ReleaseEntity: only the index entry is removed, because observers, listeners and the current window of an entity are not modelled.
- App.App.ApplyNext: the flags that a refresh sets on every window are not modelled.
- App.App.InvalidateView: frame requests and update counts are not modelled.
- Dash.SplitDashes: its precondition excludes an empty array on a path with a length, on which the loop panics, and a pattern that never gets to the end of the path, on which it never stops (`Dash.ReachesIff`).
- `f32` rounding and NaN: coordinates, lengths and channels are exact reals.
- Wrap-around of `u32` orders: orders are unbounded numbers, and none exceeds the number of insertions.
- Address wrap-around and running out of memory in the allocator: addresses are unbounded integers and a new chunk is always granted.
- `shutdown`, which flushes without setting the flush flag, and the test-only redraw inside the flush.
- Focus handles released during the flush, the current window of an entity, window update stacks and quitting on the last window.
- Callbacks that never stop producing effects: scripts are finite, so the flush always ends in the model.
- The observers called for one effect are one script; which subscriptions survive a call is not modelled.
- Panics inside user closures, except that a scope may be given up before its futures are handed over.
- The values behind arena boxes: an allocation is an address, a layout and a number; initialisation and `Deref` are not modelled.
- What an image cache item contains and how it is loaded; hashes do not collide.
- Grapheme segmentation itself and the layout of the text line.
- Tessellation and path sampling: the dash loop is modelled up to the ranges it asks the sampler for.
- Tab titles, activity times, visibility and switching between tabs.
- The lists, edges, anchors, elements, rendering and platform code of the repository.
