# Verified model of the CXO object store

CXO replicates trees of immutable objects between peers. Objects are stored
under their SHA-256 and counted; a *Root* is the top of such a tree, a *head* is
a chain of Roots, a *feed* is a set of heads. This project models, in Dafny, the
parts of CXO where most can go wrong, and proves what they are for.

- **Refs** (`RefsNodes` to `RefsRuns`, `Powers`, `Trees`, `Growth`, `Merkle`,
  `Visits`, `Deletions`): a list of hashes kept as a Merkle tree of linked nodes, loaded
  lazily, changed in place, with an optional hash table of its leafs. `Refs` is a
  class over linked `RefsNode` and `RefsElement` objects. Its specification is a
  ghost graph with the value of every node's subtree (`Tree`), so that every
  operation says what it does to the elements and to the shape of the tree, and
  which node hashes are actual afterwards.
- **Object store and cache** (`Cxds`, `CacheState`, `Caching`, `CacheRuns`,
  `FillRuns`): the
  in-memory object database with reference counters, and the write-behind cache
  in front of it, with eviction, waiting for objects that are still to come, and
  counts that fillers own until they apply them or give them back. The cache is
  proved to look like a database at any moment (`L()`, the logical entries).
- **Filling a head** (`FillHead`): which object is requested from which
  connection while Root objects are received, requests are answered or fail, and
  connections go.
- **Index** (`IdxDB`, `Index`): the in-memory index of last Root objects and of
  the active head of every feed, beside the database of Roots: loading, saving,
  adding, deleting, and keeping the last Roots of every head.
- **Schemas** (`Schemas`): how many bytes of an encoding belong to a value.

A hash is the object it is the hash of (`Hashing.Hash`, `IdxDB.RootHash`), that
is, hashing is taken to be injective. `Valid()` of a class is its invariant. Every
operation keeps it, but for those whose contract says exactly when they do:
`Index.AddRoot` and `Index.AddHead`; appending to a Refs and closing a Cache, after
which `Sound()` holds; and a reply that panics in `Head`. The statistics of `MemoryCXDS` are kept up to a
drift that is known.

## Findings

Properties that one would expect and that the code does not have. Each has an
input that shows it and the exact condition under which the code does have it;
the members named are in the table of the next section.

| source | as written | input | intended, and exactly when it holds |
|---|---|---|---|
| skyobject/registry/refs_node.go:1073-1239 | appending several hashes in place leaves a subtree of depth 2 behind whose hash has been computed too early | degree 2, 17 hashes, then 8 more: `RefsRuns.MissedHash`, `RefsRuns.EightAfterSeventeen` | every node hash is actual afterwards: if and only if `AppendKeepsHashes` (`Refs.AppendHashes`), that is, the depth is at most 2, or the hashes fit into what is free in the last subtree of depth 2, or nothing is free there and they fit into one new such subtree; in numbers of elements in `RefsRuns.ChunkCondition`. One at a time always meets it (`Merkle.OneKeepsHashes`) |
| skyobject/registry/refs.go:710-756, skyobject/registry/refs_node.go:575-610 | deleting a single element by the hash table leaves its leaf node behind when that has no elements any more; deleting it by index, or without a hash table, does not | degree 2, three elements, deleting the third: `RefsRuns.EmptyLeft` | the hash after deleting a hash, updated at once, does not depend on the hash table: with a single such element if and only if its leaf node has another element, or is the root, or there is no other element (`RefsRuns.DeletionHashes`); with several, always, if there were no empty nodes before (`Refs.DeleteByHash`) |
| skyobject/cache.go:994-1093 | `Want` of a value that the cache holds gives the filler a count that is not counted | any held key with `inc` above 0: `FillRuns.HeldWant` | the hard count stays: if and only if `inc` is 0 or the value is not held (`Cache.Want`) |
| skyobject/cache.go:1155-1225 | the counter stops at zero when `Finc` gives back more than it has, the owned count does not | somebody else counts down what a filler owns: `FillRuns.StoppedFinc` | the hard count stays when counts are given back: if and only if the counter is not below them (`Cache.Finc`) |
| skyobject/cache.go:1121-1143 | `SetWanted` stores the sum of what is asked for, which may be nothing, and the store panics on that | `Want` with `inc` 0, as for the requests of other nodes (node/conn.go:781), then `SetWanted`: `FillRuns.NothingToCount` | setting a wanted value returns: if and only if it is too large or those who wait ask for something together (`Cache.SetWanted`) |
| data/cxds/memory.go:114-152 | `Set` counts a new object as used though its counter wraps to zero | a new object with `inc` 2^32: `Cxds.Wrapped` | the statistics are those of the entries: they stay so if and only if `inc` is not positive, the value is empty, the key is there already, or `inc` is not a multiple of 2^32 (`MemoryCXDS.Set`) |
| skyobject/registry/schema_helpers.go:27-48 | the kind of an element decides its size even if it is a reference, and `decodeSchema` (skyobject/registry/registry.go:294-313) accepts any kind for one | such references in an array of two, or in a slice: `Schemas.PretendedNumbers` | the size of every encoding is its length: for every schema, if and only if it is `Honest` (`Schemas.ExactIffHonest`), that is, wherever values can be, it has no slice of such references and no array of them that is not empty |
| skyobject/index.go:327-419 | an older Root replaces the last one in the index: the guard against it never fires, as a search that finds nothing reports no Root | a Root with a seq below the last one: `Index.OlderRoot` | the index is what loading would give: if and only if the head has no Roots or its last seq is below the new one (`Index.AddRoot`) |
| skyobject/index.go:758-848 | `delRoot` looks for the active head with `setActive` (skyobject/index.go:29-44), which reads the time of the last Root of every head, also of heads without Roots | deleting the only Root of a feed: `Index.OnlyRoot` | deleting a Root that is there returns: if and only if the Root that decides, the last one afterwards or the deleted one if there is none, has not the time of the active head, or no head of the feed is without Roots afterwards (`Index.DelRoot`); what that means for `RemoveRootObjects` is in its contract |
| skyobject/index.go:660-714, skyobject/index.go:834-845 | deleting the active head leaves it the active one; deleting its last Root looks at the time of the Root before | `Index.GoneHead` | the active head is the one with the newest last Root, if it was before: after deleting a head if and only if that was not the active one (`Index.DelHead`); after deleting a Root, under the condition in `Index.DelRoot`; after a new Root if and only if it is not older than the last one of the active head, or in another head (`Index.AddRoot`, `Index.SaveRoot`) |
| skyobject/index.go:1003-1041 | `AddHead` puts a new list of heads in place of that of the feed | any new head | the index is what loading would give: if and only if the feed is not there or the head is (`Index.AddHead`) |
| node/head.go:586-606 | after a Root has been filled the lowest newer seq of every connection is forgotten, not the old ones | one connection that announces 1 and 2: `FillHead.Starved` | the Root that waits is filled from the connections that have announced it: a connection is used if and only if it knows that Root and a lower one that is newer than the one filled (`Head.HandleFillingResult`) |
| node/head.go:373-469 | replies to requests of a session that has ended are counted in the next one | a session that times out while a request runs: `FillHead.Stall`, where the filler is not told, and `FillHead.Premature`, where it is told while its own request runs | with something queued the filler is told to fail exactly if no request of the session runs: if and only if a request could be started, or there has been no such reply when none runs, or not exactly one for every request that runs otherwise (`Head.ToldRightly`). It is so whenever no session has ended while requests ran |
| node/head.go:224-265 | a reply that comes when nothing is filled is put into a list that is not there | a session that times out while a request runs, and no Root waits: `FillHead.Crash` | a reply is handled: if and only if something is filled (`Head.HandleSuccess`, `Head.HandleRequestFailure`); otherwise a session has ended while requests ran (`Head.NoReply`) |

## Model

| member | source | states |
|---|---|---|
| `Powers.PowLoop` | skyobject/registry/refs.go:1090-1100 | the loop over the bits of the exponent computes the power |
| `Growth.DepthToFit` | skyobject/registry/refs.go:1113-1135 | the depth found is the least one, from where the search starts, whose capacity is enough |
| `Growth.LeastDepthUnique` | skyobject/registry/refs.go:1113-1135 | there is only one such depth, so where a search starts that starts below does not matter |
| `Growth.AppendOneIs` | skyobject/registry/refs_node.go:1154-1239 | appending where room is keeps the shape, adds the hash at the end, and takes one free place |
| `Growth.AppendAllSplit` | skyobject/registry/refs.go:1599-1619 | appending in two goes is appending at once |
| `Growth.AppendAllPacked` | skyobject/registry/refs.go:1143-1167 | appending to a packed tree gives the packed tree of all elements, with all the rest free |
| `Trees.LenBound` | skyobject/registry/refs.go:1090-1135 | a tree of a depth has at most so many elements |
| `Trees.SkipLocates` | skyobject/registry/refs_node.go:296-337 | going through the branches by their lengths finds the one that has the i-th element, and the index in it |
| `Trees.SetAtIsUpdate` | skyobject/registry/refs_node.go:427-451 | replacing down the tree replaces the i-th element and nothing else |
| `Trees.DeleteAtIsRemoval` | skyobject/registry/refs_node.go:470-558 | deleting down the tree, dropping what becomes empty, removes the i-th element and nothing else |
| `Trees.RemoveAtIsRemoval` | skyobject/registry/refs_node.go:575-610 | so does deleting from a leaf upwards, which keeps empty nodes |
| `Deletions.ClearedIs` | skyobject/registry/refs_node.go:575-610 | a tree without a hash, emptied nodes kept, has the other elements in their order |
| `Deletions.ClearedOnce` | skyobject/registry/refs_node.go:575-610 | of a single element that is the tree with its index removed from the leaf upwards |
| `Deletions.TrimmedIs` | skyobject/registry/refs.go:765-802 | a tree without a hash and without the nodes that get empty by that has the other elements in their order |
| `Deletions.TrimmedDeleteAt` | skyobject/registry/refs.go:765-802 | deleting one occurrence after another by index leads there |
| `Deletions.TrimmedNoBlanks` | skyobject/registry/refs.go:765-802 | there are no empty nodes in it if there were none |
| `Deletions.RoutesAgree` | skyobject/registry/refs.go:710-802 | with a single element both ways leave the same tree if and only if its leaf node has another element or is the root |
| `Merkle.HashOfInjective` | skyobject/registry/refs_node.go:208-231 | trees of a depth with the same hash are the same |
| `Merkle.RootHashInjective` | skyobject/registry/refs.go:537-561 | two Refs with the same hash are both empty or the same |
| `Merkle.ReadIsStored` | skyobject/registry/refs_node.go:163-179 | what is read by a hash has that hash |
| `Merkle.RootRoundTrip` | skyobject/registry/refs.go:79-120 | what has been stored is read back by its hash: the same elements, and the same tree unless there are none |
| `Merkle.OneKeepsHashes` | skyobject/registry/refs_node.go:1154-1239 | appending one hash meets the condition under which node hashes stay actual |
| `Merkle.FreeTwoAll` | skyobject/registry/refs_node.go:1073-1151 | how the room in the last subtree of depth 2 goes down, and starts again, as hashes are appended |
| `RefsHeap.Refs.Initialize` | skyobject/registry/refs.go:79-120 | loading: the error for what cannot be decoded, each with its condition, else a valid Refs with the value its hash stands for, all hashes actual, and the nodes below the root in memory if and only if the flags ask for it |
| `RefsHeap.Refs.Reload` | skyobject/registry/refs.go:230-241 | forgetting all but the hash and loading again gives the same Refs; refused while iterating |
| `RefsHeap.Refs.LoadNodeIfNeed` | skyobject/registry/refs_node.go:188-201 | loading a node adds nodes and leafs and changes no value |
| `RefsHeap.Refs.ElementByIndex` | skyobject/registry/refs_node.go:296-337 | the leaf found is the one at this position |
| `RefsHeap.Refs.HashByIndex` | skyobject/registry/refs.go:480-502 | the i-th hash, or the index is out of range; nothing but loading happens |
| `RefsHeap.Refs.NodeIndex` | skyobject/registry/refs_node.go:269-289 | the index of the first element below a node |
| `RefsHeap.Refs.IndexInRefs` | skyobject/registry/refs_node.go:238-251 | the index of a leaf, found upwards, is its position in the list |
| `RefsHeap.Refs.BubbleContentChanges` | skyobject/registry/refs_node.go:403-424 | a change is carried to the root: hashes are actual, or nodes are marked if updating is lazy |
| `RefsHeap.Refs.UpdateHash` | skyobject/registry/refs.go:581-608 | the hash of the Refs is that of its value, and stored, if all node hashes are actual |
| `RefsHeap.Refs.SetHashByIndex` | skyobject/registry/refs.go:614-636 | replaces the i-th hash, keeping hashes and index valid |
| `RefsHeap.Refs.DelElementFromIndex` | skyobject/registry/refs_index.go:22-44 | takes one leaf out of the entry of its hash, and the entry out if it becomes empty |
| `RefsHeap.Refs.DeleteElementByIndex` | skyobject/registry/refs_node.go:470-558 | deletes below a node: its subtree without the i-th element, nodes above not touched |
| `RefsHeap.Refs.DeleteByIndex` | skyobject/registry/refs.go:681-706 | deletes the i-th hash, and makes running iterators find their place again |
| `RefsHeap.Refs.DeleteElement` | skyobject/registry/refs_node.go:575-610 | deletes a leaf found by the hash table; every length above is one less |
| `RefsHeap.Refs.DeleteByHashUsingHashTable` | skyobject/registry/refs.go:710-756 | deletes all elements with a hash by the hash table, and which tree that leaves, so which hash: a single one goes from its node, which stays, and hashes above are actual at once; several are marked, and the walk takes away the branches that are empty; what is left of the marks if updating is lazy |
| `RefsHeap.Refs.DescendDeleting` | skyobject/registry/refs.go:765-802 | deletes them while descending, from the last to the first, starting again after each; what is left is the tree without them and without the nodes that get empty by that |
| `RefsHeap.Refs.DeleteByHash` | skyobject/registry/refs.go:765-802 | either way: the other elements in their order, in exactly which tree, under its hash if updating is not lazy; not found if and only if there was none; running iterators are told |
| `RefsHeap.Refs.AscendNode` | skyobject/registry/refs_node.go:618-729 | the part of a walk that is below a node |
| `RefsHeap.Refs.AscendFrom` | skyobject/registry/refs.go:863-924 | calls the function on each element from an index up, with its index, until it stops |
| `RefsHeap.Refs.DescendNode` | skyobject/registry/refs_node.go:737-859 | the part of a walk down that is below a node, also when the function deletes the element it is called with |
| `RefsHeap.Refs.DescendFrom` | skyobject/registry/refs.go:964-1024 | calls the function on each element from an index down, until it stops |
| `Visits.CallsAll` | skyobject/registry/refs.go:863-924 | a walk that is not stopped calls on every element once, in order, with its index |
| `Visits.KillLast` | skyobject/registry/refs.go:765-802 | a walk down that stops at a hash ends at its last occurrence |
| `RefsHeap.Refs.FreeSpaceOnTailNode` | skyobject/registry/refs_node.go:1014-1065 | the search for free space, which ends early, finds enough if and only if there is enough |
| `RefsHeap.Refs.AppendNode` | skyobject/registry/refs_node.go:1154-1239 | appends one hash at the tail, leaving lengths and hashes of upper nodes to be told later |
| `RefsHeap.Refs.AppendEach` | skyobject/registry/refs.go:1310-1365 | appends all hashes; how node hashes stand then is known exactly |
| `RefsHeap.Refs.AppendInPlace` | skyobject/registry/refs.go:1599-1619 | the tree with the hashes appended; all node hashes are actual if and only if `AppendKeepsHashes` |
| `RefsHeap.Refs.AppendHashes` | skyobject/registry/refs.go:1530-1619 | appends in place if the hashes fit, else copies to the least depth; hashes are actual exactly under the condition, always after a copy |
| `RefsHeap.Refs.Enlarge` | skyobject/registry/refs.go:1555-1596 | copying and appending to a deeper Refs: the packed tree of the least depth, all hashes actual |
| `RefsHeap.Refs.FillSlice` | skyobject/registry/refs_node.go:868-963 | the builder of slices appends what appending in place would |
| `RefsHeap.Refs.WalkUpdatingSlice` | skyobject/registry/refs.go:1172-1185 | after one walk all lengths and hashes of what has been built are right |
| `RefsHeap.Refs.Slice` | skyobject/registry/refs.go:1222-1264 | a new Refs with the elements from i up to j, of the least depth, packed, all hashes actual; the errors for bad indices; this Refs stays |
| `RefsHeap.Refs.WalkUpdating` | skyobject/registry/refs.go:1372-1385 | after one walk every hash is actual, and the tree is what a walk leaves of it (`Swept`): a node that is not marked stays with all that is below it, of a marked one the branches without elements go |
| `RefsWalk.SweptIs` | skyobject/registry/refs_node.go:1252-1294 | what a walk leaves has the same elements, and is the same tree if no node was empty |
| `RefsWalk.SweptErased` | skyobject/registry/refs.go:728-749 | after any number of leafs have been taken out of their nodes, and the nodes above marked, a walk leaves what it would of the nodes without the hash, marked where it was |
| `RefsWalk.SweptTrimmed` | skyobject/registry/refs.go:728-749 | that is the tree without the hash and the nodes that get empty, if no node was empty before |
| `RefsHeap.Refs.Rebuild` | skyobject/registry/refs.go:1640-1673 | all hashes actual and the depth the least, elements unchanged, and exactly which tree; refused while iterating; at the same depth with a root that is not marked, hashes are actual if and only if they were |
| `RefsRuns.EditAndRebuild` | skyobject/registry/refs.go:1629-1673 | any changes, then rebuilding: the elements are those of a list, and the hash does not depend on whether updating is lazy, if the depth changes or the tree had no blank nodes |
| `RefsRuns.DeletionHashes` | skyobject/registry/refs.go:710-802 | deleting a single element, the hash does not depend on the hash table if and only if its leaf node has another element, or is the root, or there is no other element |
| `RefsRuns.EmptyLeft` | skyobject/registry/refs.go:710-802 | three elements, and two hashes of the same two that are left |
| `RefsRuns.Run` | skyobject/registry/refs.go:614-851 | any run of sets, deletions, appended hashes and rebuilding keeps the elements a list would have, and all hashes actual |
| `RefsRuns.RunAndReload` | skyobject/registry/refs.go:79-120 | after any run, loading again from the hash gives the elements the run should have left |
| `RefsRuns.AppendCanonical` | skyobject/registry/refs.go:1530-1619 | appending to a packed Refs of the least depth gives such a Refs |
| `RefsRuns.AppendChunks` | skyobject/registry/refs.go:1530-1619 | the value does not depend on how the hashes are cut into chunks; its hash does not if the chunks meet the condition |
| `RefsRuns.OneByOneOrAtOnce` | skyobject/registry/refs.go:1530-1619 | one by one or all at once, the hash is the same |
| `RefsRuns.ChunkCondition` | skyobject/registry/refs_node.go:1073-1239 | the condition for chunks, in numbers of elements |
| `RefsRuns.EightAfterSeventeen` | skyobject/registry/refs_node.go:1073-1151 | a chunk that does not meet it |
| `RefsRuns.MissedHash` | skyobject/registry/refs_node.go:1073-1151 | it leaves a node hash that is not actual |
| `Cxds.MemoryCXDS.Get` | data/cxds/memory.go:87-111 | the value, and its counter after counting; the statistics stay right |
| `Cxds.MemoryCXDS.Set` | data/cxds/memory.go:114-152 | creates or counts; the statistics stay right if and only if a new counter does not wrap to zero |
| `Cxds.MemoryCXDS.Inc` | data/cxds/memory.go:155-178 | counts up with wrap-around and down to zero; the statistics stay right |
| `Cxds.MemoryCXDS.IterateDel` | data/cxds/memory.go:221-251 | deletes only what it is told to delete, all of it unless stopped; the statistics stay right |
| `Cxds.Run` | data/cxds/memory.go:34-251 | after any run of operations the four statistics are the numbers and volumes of what is there and of what is counted, but for entries made with a counter that wraps to zero |
| `Cxds.Wrapped` | data/cxds/memory.go:114-152 | such an entry |
| `Caching.Sort` | skyobject/cache.go:352-357 | the rank has all items, by points |
| `Caching.Cache.Delete` | skyobject/cache.go:290-322 | writes the counter back, then the item goes, or stays blank while fillers own counts |
| `Caching.Cache.CleanDown` | skyobject/cache.go:325-408 | makes room: nothing goes if something is filled or waited for; else, of the items by points, the least number of first ones that leaves fewer than the lower boundary, if there are too many, and more if what is left is too large still, until it is small enough; only values that the database has go, and afterwards the limits hold |
| `Caching.Cache.CleansInNeed` | skyobject/cache.go:359-405 | nothing goes if there is room for one more, and if there are few enough the last one that goes was too much by size |
| `CacheState.EvictionKeeps` | skyobject/cache.go:290-408 | evicting any set of items that are not waited for changes nothing that can be seen |
| `Caching.Cache.PutItem` | skyobject/cache.go:411-450 | caches a value if it is worth it, with what goes for it exactly, the bounds on number and volume, and nothing that can be seen changes |
| `Caching.Cache.PutFillingItem` | skyobject/cache.go:454-494 | so for an item of which fillers own counts |
| `Caching.Cache.CountItem` | skyobject/cache.go:894-921 | counting a cached item is counting the logical entry; the item is touched, or goes if nobody refers to it |
| `Caching.Cache.GetNoCache` | skyobject/cache.go:550-603 | the value and the hard count; an item that is there is counted, none is added |
| `Caching.Cache.Get` | skyobject/cache.go:606-656 | the value and the hard count, from the cache or the database; which items there are then, the value among them if it is worth it |
| `Caching.Cache.Set` | skyobject/cache.go:798-860 | creates or counts; those who wait are sent the object, own their counts, and do not wait any more; which items there are then |
| `Caching.Cache.Inc` | skyobject/cache.go:924-977 | counts the logical entry; which items there are then |
| `Caching.Cache.Want` | skyobject/cache.go:994-1093 | who wants an object waits for it, or is sent it and owns counts, and the item it has then; the hard count stays exactly if the value is not held or nothing is counted |
| `Caching.AddedIs` | skyobject/cache.go:1010-1014 | what those who wait ask for adds up |
| `Caching.Cache.Unwant` | skyobject/cache.go:1097-1116 | who does not want it any more does not wait, others do |
| `Caching.Cache.SetWanted` | skyobject/cache.go:1121-1143 | only what is waited for is set |
| `Caching.Cache.Finc` | skyobject/cache.go:1155-1225 | applying a count makes it hard; giving it back leaves the hard count alone exactly if the counter does not stop at zero; what becomes of the item |
| `Caching.Cache.CloseItem` | skyobject/cache.go:257-287 | an item is written back without the counts nobody has applied |
| `Caching.Cache.Close` | skyobject/cache.go:257-287 | afterwards the database has the values the cache showed, with their hard counts |
| `CacheState.WantHard` | skyobject/cache.go:994-1093 | counting and owning the count leaves the hard count alone, owning it only takes from it |
| `CacheState.FincHard` | skyobject/cache.go:1155-1225 | what applying and giving back do to the hard count |
| `CacheRuns.Alongside` | skyobject/cache.go:550-977 | any run over the cache gives the answers, and leaves the logical entries, that the bare store would |
| `FillRuns.Step` | skyobject/cache.go:550-1225 | what any operation, of fillers or others, adds to the hard count of its key, and that it adds nothing to that of others |
| `FillRuns.Conserved` | skyobject/cache.go:550-1225 | over any run the hard count of every key grows by what has been counted and applied, and by what slips in when a counter stops at zero or a held value is wanted |
| `FillRuns.Run` | skyobject/cache.go:550-1225 | any run of getting, counting, setting, waiting, leaving, and applying on a cache is that run on what it amounts to, whatever it evicts |
| `FillRuns.RunAndClose` | skyobject/cache.go:257-287 | after any run and closing the database has every value, with the counter that the sum over the run gives |
| `FillRuns.NewLifeEnds` | skyobject/cache.go:994-1225 | the life of a new object, amid anything about others |
| `FillRuns.FillNew` | skyobject/cache.go:994-1225 | somebody waits for an object, it is set, its count is applied or given back, and the cache closed: the database has it with the count or with none |
| `FillRuns.FillOne` | skyobject/cache.go:994-1225 | wanting an object that is there, anything about others, applying or giving back, closing: the counter has grown by what was applied, unless the cache held the value at first, when as much is missing |
| `FillRuns.NothingToCount` | skyobject/cache.go:713-768 | setting a value that is wanted for nothing panics |
| `FillRuns.HeldWant` | skyobject/cache.go:1042-1045 | wanting a held value takes from its hard count |
| `FillRuns.StoppedFinc` | skyobject/cache.go:1155-1225 | a filler comes to own more than the counter has |
| `FillHead.AddKnown` | node/head.go:532-561 | the seq is inserted where it belongs |
| `FillHead.InsertIs` | node/head.go:532-561 | that keeps the list ascending and adds the seq only |
| `FillHead.LearnIs` | node/head.go:532-561 | a connection knows one Root more, and the others what they have known |
| `FillHead.RemoveKnown` | node/head.go:565-582 | the seq is removed for one connection, nothing else is |
| `FillHead.MoveForward` | node/head.go:586-606 | what is forgotten after a Root has been filled |
| `FillHead.MovedIs` | node/head.go:586-606 | a newer Root is still known from a connection if and only if it has announced one in between |
| `FillHead.BuildConnsList` | node/head.go:609-626 | the connections that know the Root, each once |
| `FillHead.Head.TryRequest` | node/head.go:433-469 | the first key is requested from the first idle connection that is still there; fatal exactly if there is none and the counter of running requests is zero |
| `FillHead.SkipIs` | node/head.go:444-456 | connections are passed over up to the first one that is still there |
| `FillHead.DueIs` | node/head.go:433-469 | what is requested next, from whom, and who is still idle then |
| `FillHead.Head.HandleRequest` | node/head.go:217-222 | a key is queued, and what is due is requested |
| `FillHead.Head.HandleSuccess` | node/head.go:224-230 | the connection is idle again, and what is due is requested; also for replies to earlier sessions; with nothing that is filled it panics |
| `FillHead.Head.HandleRequestFailure` | node/head.go:232-265 | the key is the next to be requested and the connection is not idle; after an invalid response or when closed it is forgotten, after a timeout it does not know this Root any more, and what else it and all others know stays; with nothing that is filled it panics |
| `FillHead.Head.HandleReceivedRoot` | node/head.go:267-324 | older Roots are ignored, the same one gives a place more, the newest waits; else a session starts |
| `FillHead.Head.HandleFillingResult` | node/head.go:392-419 | the Root that waits is filled next, it is newer, and by which connections |
| `FillHead.Head.HandleDelConn` | node/head.go:513-524 | the connection is not known any more; its places are dropped when their turn comes |
| `FillHead.Head.HandleError` | node/head.go:197-205 | nothing is filled and nothing waits |
| `FillHead.Head.NoStall` | node/head.go:421-469 | when no request runs, every key requested is there, or the filler has been told to fail, unless a session has been overrun |
| `FillHead.Head.ToldRightly` | node/head.go:421-469 | exactly when the filler is told to fail, and exactly when that is right |
| `FillHead.Head.NoReply` | node/head.go:224-265 | a reply can find nothing that is filled only after an overrun session |
| `FillHead.Premature` | node/head.go:224-265 | an overrun session after which the filler is told to fail while its own request runs |
| `FillHead.Crash` | node/head.go:224-265 | an overrun session whose reply panics |
| `FillHead.Stall` | node/head.go:224-265 | an overrun session after which requesting stalls |
| `FillHead.Starved` | node/head.go:586-606 | the connection that has announced the next Root is not asked for it |
| `Schemas.GetLength` | skyobject/registry/schema_helpers.go:52-57 | the length is the first four bytes, least first, an error if they are not there |
| `Schemas.SchemaArraySliceSize` | skyobject/registry/schema_helpers.go:27-48 | the loop over elements computes the size of items |
| `Schemas.GetSize` | skyobject/registry/schema.go:119-400 | the method of each kind of schema computes the size the proofs are about |
| `Schemas.SizesAre` | skyobject/registry/schema.go:119-285 | the sizes of plain values and references in bits, and the errors if there are not as many bytes |
| `Schemas.ExactIffHonest` | skyobject/registry/schema.go:119-400 | for every schema: the size of every encoding, whatever follows it, is its length, if and only if the schema is honest |
| `Schemas.PretendedNumbers` | skyobject/registry/schema_helpers.go:27-48 | schemas for which it is not, and one for which it is although its element pretends |
| `Schemas.DelimitsIffHonest` | skyobject/registry/schema.go:119-400 | the size is that of the value the bytes start with, if they do, else an error, for all bytes, if and only if the schema is honest |
| `Schemas.SizeIsExact` | skyobject/registry/schema.go:119-400 | for an honest schema: a size if and only if an encoding of that length is at the start |
| `Schemas.LooksNoFurther` | skyobject/registry/schema.go:119-400 | the size never exceeds the bytes given, and depends on no byte after it |
| `IdxDB.NewRoot` | skyobject/index.go:327-440 | when putting a Root into the index as the last one is right |
| `IdxDB.ChainGrows` | skyobject/unpack.go:244-321 | the next seq that names the last Root extends the chain |
| `IdxDB.KeepLastCount` | cxoutils/cxoutils.go:31-83 | of a chained head, the last k or all are kept |
| `Index.Database.LastOf` | skyobject/index.go:64-137 | the Root with the highest seq |
| `Index.Index.Load` | skyobject/index.go:64-137 | the index has the last Root of every head of every feed |
| `Index.Index.AddFeed` | skyobject/index.go:166-194 | a feed is added unless it is there |
| `Index.Index.FindRoot` | skyobject/index.go:197-243 | the Root from the index or the database, and the errors |
| `Index.Index.LastRoot` | skyobject/index.go:140-163 | the last Root of a head as the database has it, and the errors |
| `Index.Index.AddRoot` | skyobject/index.go:327-419 | what is refused, what is there already, and exactly when the index and the active head stay right |
| `Index.Index.AddHead` | skyobject/index.go:1003-1041 | adding a head forgets all heads of the feed |
| `Index.Index.SaveRoot` | skyobject/unpack.go:244-321 | the next seq, the hash of the one before, and the chain of the head stays a chain |
| `Index.Index.SetActive` | skyobject/index.go:29-44 | finds a head with the newest last Root, or panics exactly if some head has no Roots |
| `Index.Index.ActiveHead` | skyobject/index.go:472-485 | the head with the newest last Root, when the active head is right |
| `IdxDB.SettlesActive` | skyobject/index.go:834-845 | when the active head is right after a deletion that does not look for it |
| `Index.Index.DelRoot` | skyobject/index.go:758-848 | one Root goes, and the index has the last one of those left; exactly when it panics, and when the active head is right |
| `Index.Index.DelHead` | skyobject/index.go:660-714 | a head goes, with the hashes of its Roots; exactly when the active head is right |
| `Index.OnlyRoot` | skyobject/index.go:758-848 | deleting the only Root of a feed panics |
| `Index.GoneHead` | skyobject/index.go:660-714 | a deleted head is still the active one |
| `Index.OlderRoot` | skyobject/index.go:327-419 | an older Root makes the index wrong |
| `Index.Index.DelFeed` | skyobject/index.go:569-624 | a feed goes, with the hashes of the Roots of its heads |
| `Index.Index.Feeds` | skyobject/index.go:956-969 | all feeds, each once, also from the list kept |
| `Index.Index.HeadsOf` | skyobject/index.go:490-508 | all heads, each once |
| `IdxDB.PrunedIs` | cxoutils/cxoutils.go:31-83 | going down until a Root is not there leaves, of a chain, exactly the last ones |
| `IdxDB.CutIs` | cxoutils/cxoutils.go:31-83 | going down from a seq takes the Roots down to the first one that is not there, and no other |
| `Index.RemoveFromHead` | cxoutils/cxoutils.go:31-83 | what is left of one head, with gaps or not: the Roots from the k-th last down to the first one that is not there go; and exactly when it panics |
| `Index.RemoveRootObjects` | cxoutils/cxoutils.go:31-83 | so for all heads; it panics exactly if in some feed a head has no Roots and something is removed from a head whose last Root has the time of the active head |
| `Index.KeptChained` | cxoutils/cxoutils.go:31-83 | of chained heads exactly the last Roots are left, and they stay chained |
| `Index.Run` | skyobject/index.go:64-1041 | after any run of adding feeds, heads and Roots, saving, deleting Roots, heads and feeds, removing old Roots, and starting again after panics, the index is what loading would give; heads are chained if Roots were saved, and only heads and feeds deleted or old Roots removed |

## Left out

- Refs: lengths are 32 bits wide in the encoding and unbounded here.
- Refs: nodes that are missing or malformed below the root are an assumption of the pack (`Readable`), so loading deeper nodes does not fail; the errors of the root are modelled.
- Refs: every operation of the source initializes the Refs first; here `Initialize` is called apart.
- Refs: `Append` of another Refs, `SetDegree`, values by hash, and `Tree` are not modelled; they add walks of the same kind.
- Refs: functions called while iterating may only stop or, in `DescendDeleting`, delete; other changes of the Refs by such functions are not modelled.
- Refs: in `freeSpaceOnTail` the comment says degree^(depth+1), the code computes degree^depth of the node below; the code is followed. The loops that go up and down compare the index one off, which makes no difference.
- RefsHeap.Refs.DeleteByHash: with a hash table and lazy updating, deleting a single element makes the hashes above it actual at once and clears their marks, but not the hash of the Refs; all node hashes stay actual if they were, and otherwise only `Sound` is promised then, as a change elsewhere may not be found from the root any more.
- RefsHeap.Refs.AppendHashes: hashes that are not actual before are not made so when appending in place, so nothing is said of them; appending lazily clears the mark of the root.
- Cache: the sum of the counts that are wanted and the counter of an object have to fit 32 bits (`Fits`, `FitsWant`, `FitsWanted`).
- Caching.Cache.PutFillingItem: cleaning down never evicts here, as the item itself has no value yet and stops it; the limits may be exceeded then, so no bound is promised.
- Caching.Cache.Inc: the count returned for an object that is only in the database is 0, as in the source.
- Caching.Cache.Want: the database never loses an object, so the branch for an object that is filled and not found is not modelled.
- Caching.Cache.Finc: an application of counts that the database refuses is not modelled; the item is left without a value and without an owner then.
- Cache: the cache of registries and the statistics of time are not modelled; points are taken from a `now` that is passed in; what is sent to those who wait is returned.
- Cxds: `Del` is not modelled: nothing here calls it; counters are 32 bits wide and wrap, as in the source.
- FillHead: channels, timers, callbacks and broadcasting are parameters or left out; a rejected Root is a parameter.
- RefsHeap.Refs.Rebuild: a Refs whose root is marked, but in which a changed node cannot be found by marks from the root, is not promised anything at the same depth; lazy changes on the way to the tail, then appending, then more lazy changes elsewhere lead to that.
- RefsRuns.EditAndRebuild: a tree with blank nodes, as a reloaded one can have after a deletion by the hash table, keeps its elements; of its hash nothing is promised if the depth stays, since walking takes away blank branches of marked nodes, and updating at once does not walk.
- RefsRuns.Run: hashes are appended one at a time, as a longer append may leave hashes that are not actual.
- Index: signatures are given, and the objects of a deleted Root are not walked; the statistics and access times are not modelled.
- Index: seqs are unbounded; `RemoveRootObjects` is modelled for at least one Root to keep.
- Schemas: names, tags and the registry's encoding of schemas are not modelled; lengths are 32 bits wide.
- Nothing here is about concurrency: the mutexes of the source make each operation one step.
