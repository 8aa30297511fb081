# A verified model of a C container library

The library keeps objects in preallocated memory: a memory layout generator cuts one allocation into
aligned regions, a free list hands out fixed-size slots, an intrusive red-black tree turns the slots
into a sorted multimap, a least-recently-used cache keeps slots in a byte block in recency order, a
directory walk records directories from an explicit stack, and a slab allocator works with aligned
blocks of pages. This project models those components in Dafny and proves what each is for.

## How the modules fit together

The tree is built in layers. `RedBlack` is the algebraic tree and its zipper: the repair loops of
insertion and deletion as functions on a tree with a hole, with the one defect each loop head allows.
`Search` is lookup and order. `Arena` says when an array of cells (parent, colour, left, right, list,
value) holds a given tree below a given context, with index 0 for NULL, 1 for the shared nil
sentinel, and the node slots from 2. `Cache` is about the remembered smallest and largest node,
`Slots` about the free list, the duplicate lists and the one owner of every slot, `Multimap` is the
abstract sorted multimap with a stack of values per key, and `Store` ties an arena to a multimap
state. `BinarySearchTree.Bst` is the imperative tree: every loop and pointer write of the original,
proved against those layers. Its `Valid()` says that the arena holds a red-black search tree with
matching parent links, that the caches name its two ends, and that every slot is on the free list, in
the tree or in one duplicate list; `Model()` is the multimap. Every operation keeps `Valid()`, so it
holds after every run, and `Serve` states the refinement for whole runs. These are the operations as
they are meant; `Remembered` and the members named `...AsWritten` are about the operations as they
are written, with the lookup in the cached nodes and without the write to the list link. `PackedWord`
shows that packing the colour into the parent word can be read as two separate fields by any program,
and carries out the rotations and the transplant on packed nodes.

`MemoryBlock`, `Recency` and `Accounting` carry `LruCache`. `WalkOrder` is the recursive walk that
`FileWalk` refines, and `FileTree` says in terms of the directories alone what a walk must visit and
record: that is the recursive walk and nothing else. `Words` is 64-bit arithmetic by binary digits
and carries `MemoryLayout` and `SlabAllocator`.

Where the code and its evident purpose disagree, the exact condition under which the code meets the
purpose is proved:

- The keyed take first asks `cache.previous` and the two cached ends, and if one of them has the key
  it copies the value and removes nothing. It is a take exactly if the tree is empty or none of the
  three has the key (`Bst.TakeAsWritten`); in particular a take right after a put of the same key
  never removes anything (`Bst.PutThenTake`).
- The put attaches to `cache.previous` if that has the key, although the node may have become a
  duplicate outside the tree or a free slot, even the very slot just allocated; and it never writes
  the list link of a node it links into the tree, although a slot that was freed as a duplicate, or
  was never used, still has one. It is a put exactly if the remembered node is nil, has another key,
  is the tree's node of the key, or is a duplicate followed by nothing but equal values, and if,
  when the key is new, the slot at the head of the free list has a null list link. If the remembered
  slot is free, or that link is stale, the memory stands for no multimap at all (`Bst.PutAsWritten`).
  Put 1, put 2, take the largest, put 2 loses a value (`Bst.PutTakePut`); three puts under one key,
  take the smallest, put another key spoils the memory (`Bst.PutsTakePut`).
- Taking out the last value of a tree of one node reaches `assert(node == tree->root)` when the root
  is already nil, so the assertion fails whenever it is reached (`Bst.UpdateCacheDelete`); the model
  goes on as if it read "was the root".
- Linking tests the comparator for -1 and the cache update for -1 and 1, while the lookup tests signs
  (`Search.LinkOrderedIff`, `Bst.UpdateCacheInsert`).
- Size arithmetic is not checked for overflow (`MemoryLayout.WellPlacedIffRoomy`), descriptions are
  not padded to their alignment (`MemoryLayout.MakeDescStride`), and the slab configuration check is
  inverted (`SlabAllocator.ConfigureAsWritten`).

## Model

| member | source | states |
|---|---|---|
| `RedBlack.InsertRoundStep` | src/binary_search_tree.c:329-377 | one round of the insertion loop keeps "red node below red parent or red root" as the only defect, moves two levels up, and does not change the final tree |
| `RedBlack.InsertFixSound` | src/binary_search_tree.c:324-380 | from any tree with only that defect, the repair yields a red-black tree with the same in-order sequence |
| `RedBlack.InsertSound` | src/binary_search_tree.c:212-232 | filling a hole of a red-black tree yields a red-black tree with exactly the new element added at the hole's place |
| `RedBlack.DeleteRoundStep` | src/binary_search_tree.c:383-438 | one round of the deletion loop keeps "one black missing on paths through the node" as the only defect and lowers the rank (0 if red, else depth + 1), also when a red sibling pushes the node down |
| `RedBlack.DeleteFixSound` | src/binary_search_tree.c:382-441 | from any tree with only that defect, the repair yields a red-black tree with the same in-order sequence |
| `RedBlack.DeleteFocusReady` | src/binary_search_tree.c:237-267 | unlinking leaves a red-black tree if the unlinked colour was red, and exactly the repairable defect if it was black |
| `RedBlack.DeleteSound` | src/binary_search_tree.c:234-268 | deleting any node of any red-black tree yields a red-black tree whose in-order sequence is the old one without that node |
| `RedBlack.HeightBound` | src/binary_search_tree.c:324-441 | a red-black tree of n nodes has height at most 2 log2(n + 1) |
| `Search.LocateMiss` | src/binary_search_tree.c:186-210 | a lookup that ends at nil is in a tree without the key, and the key fits between what lies before and after the hole |
| `Search.LocateThrough` | src/binary_search_tree.c:192-207 | a lookup from the root passes through every hole whose surroundings allow the key |
| `Search.UniqueHole` | src/binary_search_tree.c:186-210 | any hole that can take a key without breaking the order is the one the lookup returns |
| `Search.LookupCost` | src/binary_search_tree.c:186-210 | a lookup among n nodes makes at most 2 log2(n + 1) comparisons |
| `Search.CallsOnTheWay` | src/binary_search_tree.c:192-207 | the descent compares once for each link it follows, and once for the node it finds |
| `Search.LinkOrderedIff` | src/binary_search_tree.c:202-228 | lookup goes left on any negative result but linking tests for -1: the order is kept exactly if the comparator's result is not below -1 |
| `Search.InsertFixKeepsEdge` | src/binary_search_tree.c:329-377 | links strictly below the node at the loop head survive the rest of the insertion repair |
| `Search.InsertExtreme` | src/binary_search_tree.c:288-293 | a new smallest or largest node is still the left or right child of the same parent after all rotations |
| `Cache.EdgeLink` | src/binary_search_tree.c:288-293 | an edge of the tree is the corresponding link in memory |
| `Cache.LoneChild` | src/binary_search_tree.c:305-321 | a node with one child is black and the child is a red leaf |
| `Cache.SmallestGone` | src/binary_search_tree.c:305-312 | after deleting the smallest node, its stale right or parent link names the new smallest node |
| `Cache.LargestGone` | src/binary_search_tree.c:313-321 | after deleting the largest node, its stale left or parent link names the new largest node |
| `Cache.CacheRemove` | src/binary_search_tree.c:300-322 | the caches coincide exactly if the deleted node was alone, and otherwise only the end that was deleted changes |
| `Arena.RotateLeftFocus` | src/binary_search_tree.c:443-464 | the six link writes of a left rotation turn a memory that holds a tree into one that holds the rotated tree |
| `Arena.RotateRightFocus` | src/binary_search_tree.c:466-487 | the same for a right rotation |
| `Arena.SpliceFocus` | src/binary_search_tree.c:489-504 | replacing a node by its only subtree in memory is replacing it in the tree |
| `Arena.DeepVacating` | src/binary_search_tree.c:251-254 | taking the successor out of the depth of the right subtree and giving it that subtree leaves the memory ready for it to replace the node |
| `Arena.LinkFocus` | src/binary_search_tree.c:215-229 | linking a fresh red node below the hole's parent puts it into the hole |
| `Slots.OwnedPush` | src/free_list.c:17-23 | moving the newest free slot to the end of a key's chain keeps exactly one owner per slot |
| `Slots.OwnedPop` | src/free_list.c:25-31 | freeing the newest slot of a key keeps exactly one owner per slot, and drops the key with its last slot |
| `Slots.OneOwner` | src/free_list.c:11-43 | no slot is in two places of the free list, the tree and the duplicate lists |
| `Slots.PushChain` | src/binary_search_tree.c:155-158 | attaching appends to the values of the key |
| `Slots.PopChain` | src/binary_search_tree.c:159-165 | detaching removes the newest value of the key |
| `Multimap.ApplyConserves` | src/binary_search_tree.c:85-134 | each request keeps free slots plus stored values |
| `Multimap.RunConserves` | src/binary_search_tree.c:85-134 | free slots plus stored values are the same after any run |
| `Multimap.ApplyDone` | src/binary_search_tree.c:85-134 | every request does to stacks and room what is said of it in those terms: full without room, bad key or empty exactly when the key, or everything, is missing, otherwise the newest value of that key, or of the least or greatest key, and all other keys are left alone |
| `Multimap.DoneOnce` | src/binary_search_tree.c:85-134 | that leaves no choice: outcome and new state are determined |
| `Multimap.RunDone` | src/binary_search_tree.c:85-134 | a run goes from state to state, each request doing that |
| `Multimap.PushThenPop` | src/binary_search_tree.c:85-124 | taking a key right after putting it gives the value back and restores the multimap |
| `Multimap.NewestFirst` | src/binary_search_tree.c:155-165 | values put under one key come back newest first, and leave the multimap as it was |
| `Multimap.DrainInOrder` | src/binary_search_tree.c:131-134 | repeatedly taking the smallest yields values in ascending key order |
| `Store.AttachDone` | src/binary_search_tree.c:155-158 | attaching the slot in hand to its key's node is a push on the multimap and keeps the whole store valid |
| `Store.LinkDone` | src/binary_search_tree.c:103-106 | linking the slot in hand, with nothing on its list, where the lookup ended is a push on the multimap and keeps the whole store valid |
| `Store.DetachDone` | src/binary_search_tree.c:282-285 | detaching and freeing the newest slot is a pop on the multimap and keeps the whole store valid |
| `Store.DropDone` | src/binary_search_tree.c:278-281 | deleting the node of a key's last value and freeing it is a pop on the multimap and keeps the whole store valid |
| `Store.CachedOldest` | src/binary_search_tree.c:167-184 | the cached nodes hold the oldest values under the least and the greatest key |
| `BinarySearchTree.Bst.constructor` | src/binary_search_tree.c:62-83 | an initialised tree is valid, holds nothing, and has all slots free |
| `BinarySearchTree.Bst.LinkMemory` | src/free_list.c:33-43 | the loop threads all slots on one free chain |
| `BinarySearchTree.Bst.AllocSlot` | src/free_list.c:17-23 | the head of the free list is handed out, or NULL if the count is zero |
| `BinarySearchTree.Bst.FreeSlot` | src/free_list.c:25-31 | NULL is passed over; any other slot becomes the head of the free list and the count grows, its link overlaying the parent word |
| `BinarySearchTree.Bst.RotateLeft` | src/binary_search_tree.c:443-464 | the memory holds the rotated tree, and nothing outside it changes |
| `BinarySearchTree.Bst.RotateRight` | src/binary_search_tree.c:466-487 | the memory holds the rotated tree, and nothing outside it changes |
| `BinarySearchTree.Bst.InsertRepairRound` | src/binary_search_tree.c:329-377 | one round in memory is one round on the tree |
| `BinarySearchTree.Bst.InsertLoop` | src/binary_search_tree.c:329-377 | the loop ends with the memory holding the repaired tree; its invariant is the single allowed defect |
| `BinarySearchTree.Bst.FixupInsert` | src/binary_search_tree.c:324-380 | insertion repair in memory is insertion repair on the tree, with a black root |
| `BinarySearchTree.Bst.DeleteRepairRound` | src/binary_search_tree.c:383-438 | one round in memory is one round on the tree |
| `BinarySearchTree.Bst.FixupDelete` | src/binary_search_tree.c:382-441 | deletion repair in memory is deletion repair on the tree, started from nil's overwritten parent link if the replacement is nil |
| `BinarySearchTree.Bst.Find` | src/binary_search_tree.c:186-210 | for any comparator whose sign is the key order: the node or nil and the parent are those of the lookup on the tree, the last answer has the sign of the side taken, and the comparator is called once for each node on the way, the found one included, so at most 2 log2(n + 1) times in a red-black tree of n nodes |
| `BinarySearchTree.Bst.LocalMinimum` | src/binary_search_tree.c:506-511 | the first node of the subtree in order, which is its leftmost |
| `BinarySearchTree.Bst.LocalMaximum` | src/binary_search_tree.c:513-518 | the last node of the subtree in order, which is its rightmost |
| `BinarySearchTree.Bst.Transplant` | src/binary_search_tree.c:489-504 | the parent's link and the new child's parent link are moved, nil's included, and nothing else |
| `BinarySearchTree.Bst.ExtractSuccessor` | src/binary_search_tree.c:251-254 | the successor leaves the right subtree and takes it over |
| `BinarySearchTree.Bst.KeepSuccessor` | src/binary_search_tree.c:255-257 | a successor that is the right child keeps its subtree, whose parent link, perhaps nil's, is set |
| `BinarySearchTree.Bst.Unlink` | src/binary_search_tree.c:237-263 | all four shapes of unlinking leave the memory holding the tree without the node, focused where a black may be missing |
| `BinarySearchTree.Bst.DeleteNode` | src/binary_search_tree.c:234-268 | deleting any node leaves a red-black tree of the other nodes with their identities and values; only nil's parent field changes otherwise |
| `BinarySearchTree.Bst.InsertNode` | src/binary_search_tree.c:212-232 | inserting at the location found, for any answer of the right sign not below -1, leaves a red-black tree with one more node; nothing else changes |
| `BinarySearchTree.Bst.UpdateCacheInsert` | src/binary_search_tree.c:288-298 | after the repair the caches name the two ends of the new tree exactly if the answer was -1, 0 or 1 or the parent is not the end on that side |
| `BinarySearchTree.Bst.UpdateCacheDelete` | src/binary_search_tree.c:300-322 | from the unlinked node's stale links the caches name the two ends of the new tree, or nil; if the node was the only one, it is not the root any more where the assertion asks |
| `BinarySearchTree.Bst.AttachNode` | src/binary_search_tree.c:155-158 | the attached node becomes the head of the base node's list |
| `BinarySearchTree.Bst.DetachNode` | src/binary_search_tree.c:159-165 | the head of the list is taken off, or the base node itself if the list is empty |
| `BinarySearchTree.Bst.CheckEnds` | src/binary_search_tree.c:173-183 | exactly the cached end with the key, the largest tried first, and nil if neither end of a tree that is not empty has it |
| `BinarySearchTree.Bst.CheckCache` | src/binary_search_tree.c:167-184 | the remembered node if it has the key, whatever it has become, and otherwise what the ends give |
| `BinarySearchTree.Bst.Put` | src/binary_search_tree.c:85-109 | full if no slot is free, and otherwise a push on the multimap; remembered is the cached end with the key, or else the slot filled |
| `BinarySearchTree.Bst.PutNew` | src/binary_search_tree.c:85-109 | a put of a key that is not there remembers a node with the value put |
| `BinarySearchTree.Bst.DetachAndDelete` | src/binary_search_tree.c:270-286 | the newest value of the node's key leaves, and the node with its last value; no slot's contents change, and a slot out of a list of more than two is freed with its list link |
| `BinarySearchTree.Bst.Take` | src/binary_search_tree.c:111-124 | empty, bad key, or a pop of the key on the multimap |
| `BinarySearchTree.Bst.TakeAsWritten` | src/binary_search_tree.c:111-124 | a take of the multimap exactly if the tree is empty or neither the remembered node nor an end has the key; otherwise the value given is the one in the remembered node if that has the key, else the oldest value of the key, and the memory stays as it was |
| `BinarySearchTree.Bst.TakeRemembered` | src/binary_search_tree.c:111-124 | if the remembered node has the key, its value is given and nothing in memory changes |
| `BinarySearchTree.Bst.PutThenTake` | src/binary_search_tree.c:85-124 | from any state, a put that meets its condition and then a take of its key, both as written, leave the value in place and give the value of the node that the put remembers |
| `BinarySearchTree.Bst.PutsThenTake` | src/binary_search_tree.c:85-124 | put 1, 3 and 2, take 2: the value comes back, but the key is at neither end and is not removed |
| `BinarySearchTree.Bst.AttachCached` | src/binary_search_tree.c:92-96 | attaching to a cached slot: the newest value if the slot is the tree's node, in the middle of the stack if it is a duplicate, and nothing valid if it is free |
| `BinarySearchTree.Bst.PutAsWritten` | src/binary_search_tree.c:85-109 | the result stands for the multimap with the value pushed exactly if the remembered node is harmless and the slot for a new key has no list link, and for no multimap if the remembered node answers from a free slot or that link is stale; attached to a duplicate, the value comes before it in age; which node is remembered next |
| `BinarySearchTree.Bst.LinkAsWritten` | src/binary_search_tree.c:212-232 | the new node is linked and the caches are right, with its list link as it was |
| `BinarySearchTree.Bst.LinkedStale` | src/binary_search_tree.c:212-232 | linked with a list link left from before, the memory stands for no multimap |
| `BinarySearchTree.Bst.TakeThenPut` | src/binary_search_tree.c:85-134 | from any state in which the greatest key is remembered and has one value: take the largest, then a put of that key as written is lost and the memory stands for no multimap |
| `BinarySearchTree.Bst.PutTakePut` | src/binary_search_tree.c:85-134 | put 1, put 2, take the largest, put 2: so it is for this run |
| `BinarySearchTree.Bst.TakeThenPutNew` | src/binary_search_tree.c:85-134 | from any state with more than two values under the least key: take the smallest, then a put of a new key as written leaves memory that stands for no multimap |
| `BinarySearchTree.Bst.PutsTakePut` | src/binary_search_tree.c:85-134 | three puts under one key, take the smallest, put another key: so it is for this run |
| `BinarySearchTree.Bst.StandsForModel` | include/jcl/binary_search_tree.h:35-44 | the memory of a valid tree stands for its multimap and for no other |
| `Remembered.StoreUnique` | include/jcl/binary_search_tree.h:14-44 | tree, free list and duplicate lists are determined by the memory |
| `Remembered.SlotLost` | src/binary_search_tree.c:92-96 | memory in which a slot has left the free list without joining anything belongs to no store |
| `Remembered.WedgeDone` | src/binary_search_tree.c:155-158 | attached to a duplicate, the value comes before it in age, and the store stays valid |
| `Remembered.JoinedIsPushIff` | src/binary_search_tree.c:155-158 | that is a push exactly if everything from the duplicate on is the same value |
| `Remembered.StaleLink` | src/binary_search_tree.c:159-165 | a store stops being one when the list link of a node with nothing attached is set to anything but NULL |
| `BinarySearchTree.Bst.TakeSmallest` | src/binary_search_tree.c:131-134 | empty, or a pop of the least key |
| `BinarySearchTree.Bst.TakeLargest` | src/binary_search_tree.c:126-129 | empty, or a pop of the greatest key |
| `BinarySearchTree.Bst.ServeOne` | src/binary_search_tree.c:85-134 | a put is refused if there is no room and otherwise adds the newest value of its key; a take of a key gives its newest value, or changes nothing if the key is absent; a take of an end does so for the least or greatest key, or answers empty; the values of all other keys stay |
| `BinarySearchTree.Bst.Serve` | src/binary_search_tree.c:85-134 | any sequence of requests keeps the tree valid and gives the answers and the final state of the multimap, where each request does what `Multimap.RunDone` says |
| `PackedWord.PackedIff` | src/binary_search_tree.c:520-547 | a word is the packing of an even address and a colour exactly if it unpacks to both |
| `PackedWord.ParentSet` | src/binary_search_tree.c:525-529 | setting the parent keeps the colour |
| `PackedWord.ColorSet` | src/binary_search_tree.c:536-540 | setting the colour keeps the parent |
| `PackedWord.OddParentForgetsColor` | src/binary_search_tree.c:542-547 | an odd address would lose the colour and itself |
| `PackedWord.WordMeans` | src/binary_search_tree.c:520-547 | a word is an even address plus one for black; the parent is the word without its lowest bit |
| `PackedWord.PacksDetermines` | src/binary_search_tree.c:520-534 | the words determine every parent and colour |
| `PackedWord.StepMeans` | src/binary_search_tree.c:520-547 | what each kind of access does: reads change nothing, the writes set parent, colour or both of the named node, a free-list link is that parent and red, and everything else stays |
| `PackedWord.SetThenGet` | src/binary_search_tree.c:520-547 | after each kind of write, parent and colour read at the node are those written, or those from before for the half not written, and reads of other nodes show what they showed |
| `PackedWord.RunPasses` | src/binary_search_tree.c:520-547 | a run is a sequence of memories, each one access from the one before, chosen from what was read up to there |
| `PackedWord.ShowsDone` | src/binary_search_tree.c:520-547 | an access that turns one packing into the next does to the words, as numbers, what its kind says |
| `PackedWord.Nodes.Parent` | src/binary_search_tree.c:520-523 | the even address that, packed with the word's colour, is the word |
| `PackedWord.Nodes.Color` | src/binary_search_tree.c:531-534 | the colour that, packed with the word's parent, is the word |
| `PackedWord.Nodes.SetParent` | src/binary_search_tree.c:525-529 | the node's parent changes, its colour and all other words stay |
| `PackedWord.Nodes.SetColor` | src/binary_search_tree.c:536-540 | the node's colour changes, its parent and all other words stay |
| `PackedWord.Nodes.SetParentColor` | src/binary_search_tree.c:542-547 | parent and colour are those given, all other words stay |
| `PackedWord.Nodes.SetNext` | src/free_list.c:25-31 | a free-list link is the word itself and reads as that parent, red; all other words stay |
| `PackedWord.Nodes.Access` | src/binary_search_tree.c:520-547 | each access to packed words agrees with the access to separate fields, in effect and in what is read; as a number, the word becomes the address given plus the old or the given colour bit, a free-list link the address alone, a read changes nothing, and all other words stay |
| `PackedWord.Nodes.Execute` | src/binary_search_tree.c:520-547 | every program, choosing each access from all it has read, reads the same from packed words as from separate fields, for any number of steps |
| `PackedWord.PackedTree.WriteBelow` | src/binary_search_tree.c:450-453 | the first writes of a rotation on packed nodes are those on separate fields |
| `PackedWord.PackedTree.WriteAbove` | src/binary_search_tree.c:454-463 | so are the others |
| `PackedWord.PackedTree.RotateLeft` | src/binary_search_tree.c:443-464 | a left rotation on packed nodes rotates the tree that the memory stands for |
| `PackedWord.PackedTree.RotateRight` | src/binary_search_tree.c:466-487 | so does a right rotation |
| `PackedWord.PackedTree.Transplant` | src/binary_search_tree.c:489-504 | a transplant on packed nodes moves one link down and one link up, nil's included, and nothing else |
| `MemoryBlock.IndexIsProduct` | src/memory_block.c:13-15 | the address of a slot is base plus index times size |
| `MemoryBlock.MemMove` | src/memory_block.c:25-27 | the overlapping copy leaves the old source bytes at the destination |
| `MemoryBlock.ReadSlot` | src/memory_block.c:21-23 | exactly the bytes from base plus index times size on |
| `MemoryBlock.WriteSlot` | src/memory_block.c:17-19 | the slot at base plus index times size holds the bytes given; the other slots and the bytes outside the block stay |
| `MemoryBlock.Promote` | src/lru_cache.c:59-64 | slot i moves to the front, slots before it move up by one, later slots and the bytes outside the block stay |
| `Recency.MostRecentIsRecency` | src/lru_cache.c:35-57 | the recency list holds each accessed key once, ordered by last access, latest first |
| `Recency.RecencyUnique` | src/lru_cache.c:35-57 | there is only one such list |
| `Recency.HeldIsMostRecent` | src/lru_cache.c:35-57 | after any trace, a cache of capacity c holds the first c keys of the recency list |
| `Recency.HeldInclusion` | src/lru_cache.c:35-57 | a smaller cache holds a prefix of what a larger one holds, on the same trace |
| `Recency.MissesMonotone` | src/lru_cache.c:35-57 | a larger cache never misses more often |
| `LruCache.Lru.constructor` | src/lru_cache.c:18-27 | an initialised cache is empty, with nothing loaded or evicted |
| `LruCache.Lru.FindSlot` | src/lru_cache.c:36-43 | the slot with the key, or the count if there is none |
| `LruCache.Lru.AccessHit` | src/lru_cache.c:38-42 | the hit slot, as the callback left it, is rotated to the front; the trace grows |
| `LruCache.Lru.CallEvict` | src/lru_cache.c:52 | the callback is given the slot, which holds what the callback leaves; the key it was given is on record |
| `LruCache.Lru.CallMiss` | src/lru_cache.c:55 | the callback is given the slot, which holds what the callback leaves; its key is on record as loaded |
| `LruCache.Lru.AccessFresh` | src/lru_cache.c:45-56 | with room left, the next slot as the miss callback leaves it goes to the front; one load, no eviction |
| `LruCache.Lru.AccessOver` | src/lru_cache.c:49-56 | in a full cache the last slot goes through the evict and then the miss callback to the front; one eviction, of that entry, and one load |
| `LruCache.Lru.Access` | src/lru_cache.c:35-57 | every access keeps the slots equal to what least-recently-used replacement holds for the whole trace; a hit slot as the hit callback left it moves to the front, a miss puts the next slot, or in a full cache the last one after the evict callback, there as the miss callback leaves it, with the load and the eviction on record and the other slots in order |
| `LruCache.Lru.Release` | src/lru_cache.c:29-33 | every slot in use goes through the evict callback once, in order, and holds what that leaves; the other slots and all bytes outside stay; the evicted keys are then, as a multiset, the loaded keys |
| `Accounting.AccountsMean` | src/lru_cache.c:35-57 | after any trace: distinct keys, the most recent ones in order, and misses equal evictions plus entries held |
| `WalkOrder.OrderStacked` | src/file_walk.c:401-423 | paths on top of the stack are walked before those below |
| `WalkOrder.OrderNoDup` | src/file_walk.c:131-171 | no path is visited twice |
| `WalkOrder.VisitedIffReachable` | src/file_walk.c:131-171 | exactly the paths at the end of a chain of readable directories within the length limit are visited |
| `WalkOrder.RecordedAre` | src/file_walk.c:145-158 | a directory is recorded, with its entries, exactly if it was visited and could be read |
| `WalkOrder.WalkRecord` | src/file_walk.c:131-171 | the record holds every readable directory reached through readable ones, with its entries, exactly once |
| `FileTree.OpenedLists` | src/file_walk.c:142-158 | a directory goes on record with a list of entries exactly if it can be listed, no entry fails it, it is not the empty path with a subdirectory in it, and the list is that of its entries that are neither dot nor unsupported, in order |
| `FileTree.KidsMean` | src/file_walk.c:401-423 | the paths pushed for a readable directory are the path, a slash and the name, for exactly the subdirectories whose path is within the limit, in listing order; other directories push none |
| `FileTree.VisitedMeans` | src/file_walk.c:131-171 | a path is visited exactly if a way down leads to it from the start, each path being that of a subdirectory of a readable directory before it |
| `FileTree.OrderVisits` | src/file_walk.c:131-171 | the walk visits everything reachable, nothing twice, a directory before what is below it, and of two subdirectories of one directory the one listed later first, with everything below it |
| `FileTree.VisitsUnique` | src/file_walk.c:131-171 | no other sequence of visits does that |
| `FileTree.RecordedMeans` | src/file_walk.c:145-158 | the record has, in the order of the visits, exactly the readable directories among them, with their entries |
| `FileTree.RecordsUnique` | src/file_walk.c:145-158 | no other record does that |
| `FileTree.PathInitMeans` | src/file_io.c:40-54 | a start path loses one trailing slash unless it is only that, and is refused exactly if what remains is longer than the limit |
| `FileWalk.Vector.Push` | src/file_walk.c:258-271 | the element is appended; a full array is doubled, and only a full one, with its contents kept |
| `FileWalk.Vector.Pop` | src/file_walk.c:273-278 | the last element is removed, or an error if there is none |
| `WalkOrder.ScanMeans` | src/file_walk.c:372-399 | a scan fails exactly if an entry that is neither dot nor unsupported is of unknown kind or has an overlong name; otherwise it keeps exactly the entries that are neither, in order |
| `FileWalk.ScanDir` | src/file_walk.c:372-387 | the loop over the listing computes the scan |
| `WalkOrder.ComposedIsStored` | src/file_io.c:100-107 | a composed path is stored unchanged |
| `FileWalk.Start` | src/file_walk.c:91-120 | a walk with only the start path on its stack, or an error exactly if that path is too long |
| `FileWalk.Walk.PushDirPaths` | src/file_walk.c:401-423 | the subdirectories' paths within the limit are pushed in listing order; an empty parent path fails |
| `FileWalk.Walk.ReadDir` | src/file_walk.c:145-158 | a readable directory pushes its children and is recorded; any other changes nothing |
| `FileWalk.Walk.Step` | src/file_walk.c:131-171 | the top path is visited and its children take its place on the stack; visited paths followed by what the stack leads to stay the recursive preorder |
| `FileWalk.Walk.Run` | src/file_walk.c:131-171 | stepping until the stack is empty terminates; visits and record are those of the recursive walk, and so the ones that the directories themselves determine |
| `WalkOrder.StepProgress` | src/file_walk.c:142-158 | replacing the top path by its children keeps the remaining walk |
| `Words.ValidAlignIff` | src/memory_layout_generator.c:8-10 | the bit test accepts exactly the powers of two |
| `Words.MaskWord` | src/memory_layout_generator.c:28 | masking with the complement of a power of two less one rounds down to a multiple of it |
| `MemoryLayout.AlignSizeIsLeast` | src/memory_layout_generator.c:25-29 | absent overflow, the mask form is the least multiple of the alignment not below the size |
| `MemoryLayout.AlignWraps` | src/memory_layout_generator.c:25-29 | with overflow the mask form is zero |
| `MemoryLayout.AppendPlaced` | src/memory_layout_generator.c:31-39 | the appended region follows the base, is aligned, ends at the new size, and both alignments divide the new one |
| `MemoryLayout.LayoutSound` | src/memory_layout_generator.c:44-58 | appended regions follow one another without overlap, aligned, within the total |
| `MemoryLayout.AppendLeast` | src/memory_layout_generator.c:31-39 | absent overflow, a region starts at the least aligned offset after the base and the size is where it ends; the alignment is the larger of the two |
| `MemoryLayout.LayoutSnug` | src/memory_layout_generator.c:44-58 | absent overflow, every region starts at the least aligned offset after the one before it, and the total ends with the last: nothing is wasted |
| `MemoryLayout.LayoutLargest` | src/memory_layout_generator.c:44-58 | the total alignment is the largest of all, overflow or not |
| `MemoryLayout.PlacedOnlyIfRoomy` | src/memory_layout_generator.c:44-58 | regions that lie after the base within a block are possible only without size overflow |
| `MemoryLayout.WellPlacedIffRoomy` | src/memory_layout_generator.c:41-70 | memory record, component list, header and components are disjoint, within the total and aligned exactly if no size computation overflowed |
| `MemoryLayout.LayOut` | src/memory_layout_generator.c:42-58 | the offsets, or an error exactly if the header or a component description is invalid |
| `MemoryLayout.MemoryInit` | src/memory_layout_generator.c:41-77 | the block asked of the allocator has the total size and alignment of the layout and everything is at its address: each component keeps its description, all regions are well placed exactly if nothing overflowed, and are then packed without waste |
| `MemoryLayout.RoundToLarger` | src/binary_search_tree.c:51-60 | rounding to the larger of two alignments is rounding to the second if the size is a multiple of the first |
| `MemoryLayout.ValueRecovered` | src/binary_search_tree.c:51-79 | the value offset recomputed from the combined description is the discarded one, and the value size what was asked for, for every alignment, overflow or not |
| `MemoryLayout.SlotsAlignedIff` | src/free_list.c:36-38 | slots one size apart are all aligned exactly if the size is a multiple of the alignment |
| `MemoryLayout.MakeDescStride` | src/binary_search_tree.c:51-60 | the node slots are all aligned exactly if the value's extent is a multiple of the larger of the two alignments |
| `MemoryLayout.MakeDescMeans` | src/binary_search_tree.c:51-60 | absent overflow, a tree node is one object of the larger alignment that ends with its value, at the least aligned offset after the node |
| `MemoryLayout.MisalignedSlot` | src/memory_layout_generator.c:36 | a one-byte value puts the second slot at a misaligned address |
| `SlabAllocator.PagesBound` | src/slab_allocator.c:135-136 | the page count is far below the bound it is tested against, rounds up if the request is at most 2^63, and wraps to zero within a page of 2^64 |
| `SlabAllocator.SlabSize` | src/slab_allocator.c:135-142 | the doubling loop yields the least power of two pages that holds the request if that is at most 2^63, and a size too small (0, or one page) otherwise |
| `SlabAllocator.ConfigureAsWritten` | src/slab_allocator.c:142-144 | as written, the check rejects exactly the requests of at most 2^63 that the loop serves with the least size that holds them, accepts the others with the size 0 or one page, and the assertion never holds |
| `SlabAllocator.AlignedMmap` | src/slab_allocator.c:156-189 | what stays mapped of the reservation is exactly the first aligned block of the size in it; the trims are non-empty whole pages that sum to the size; masking an address gives the block exactly if it is inside |
| `SlabAllocator.FindSlabIff` | src/slab_allocator.c:191-193 | masking an address leads to an aligned block exactly if the address is inside it |

## Left out

- BinarySearchTree.Bst.Put: tries the cached ends and not the remembered node, and clears the list link of a newly linked node; without these two repairs it is `PutAsWritten`. The key passed in is taken to be the key of the value. `tree->attach` is not a field of the tree, so `bst_attach_node` stands for it. The comparator answers -1, 0 or 1.
- BinarySearchTree.Bst.PutAsWritten: the key passed in is taken to be the key of the value, `bst_attach_node` stands for `tree->attach`, and the comparator answers -1, 0 or 1.
- BinarySearchTree.Bst.PutsThenTake: the puts that lead to the state are those that are meant; so it is in `PutTakePut` and `PutsTakePut`.
- Store.LinkDone: the cleared list link is that of the put as it is meant; with the link left alone it is `LinkedStale`.
- BinarySearchTree.Bst.Take: goes to the lookup directly; with the lookup in the cached nodes it is `TakeAsWritten`. `bst_detach_node` stands for `tree->detach`, which is not a field of the tree.
- BinarySearchTree.Bst.UpdateCacheDelete: the assertion that the only node is the root, which fails as it is written, does not stop the model.
- BinarySearchTree.Bst.Find: keys are integers; the sign of the comparator's answer is taken to be their order.
- BinarySearchTree.Bst.InsertNode: an answer below -1, for which the link goes to the wrong side, is excluded here; what it does to the order is `LinkOrderedIff`.
- BinarySearchTree.Bst.constructor: the free list's own validity test of its component and the test for a missing comparator are not modelled.
- BinarySearchTree.Bst.Serve: runs of the operations as they are meant; a run as written leaves the multimap as soon as one of its steps is outside the conditions above.
- The tree keeps parent and colour as two fields of a cell; that the packed word can stand for them is `PackedWord.Nodes.Execute`, and of the tree's operations the rotations and the transplant are written out on packed nodes.
- The size and alignment of a slot's value are not part of the tree's cells: a value is its key and its bytes.
- `obj_count` of a tree's description, which places several objects in one node, is treated as one extent.
- LruCache.Lru.constructor: the extra slot that `jfs_lru_make_desc` asks for makes the capacity one larger than the count asked for; the model takes the capacity as it is. Callbacks are functions on the bytes of a slot that keep its size.
- LruCache.Lru.Access: a callback that installs a different key than the one requested, or that changes a key on a hit, is excluded by `Callbacks`.
- FileWalk.Walk.Step: the return value and the error code are left out; they disagree on what "more" means.
- The file system does not change during a walk, and names in a directory are non-empty, without slashes and distinct; a failing `readdir` is part of `Denied`.
- MemoryLayout.MemoryInit: a layout without descriptions is excluded, as the original asserts; the allocator is a function that returns aligned addresses.
- SlabAllocator.SlabSize: the number of bytes needed is a parameter; the product that computes it, which may itself overflow, and the other settings of the configuration are not modelled.
- SlabAllocator.AlignedMmap: the reservation is a parameter, aligned to pages and within the address range.
- Allocation failure everywhere, freeing of strings and vectors, and moving vectors into arrays of exact size.
- Slab caches, batches, stores, locking and atomics, which are declared or stubbed only.
- `src/error.c`, `src/net_socket.c` and the read and write loops of `src/file_io.c`, which are wrappers around system calls.
