# datastructures, in Dafny

This project models the core of the Python package `datastructures` and proves properties about the model. The package contains:

- an array-backed binary tree;
- max and min heaps on that tree, with a priority queue that tracks each value's slot;
- two fixed-capacity open-addressing hash maps:
  - the package's tombstone map;
  - an older, stand-alone script that deletes by backward shift;
- a bounded deque and a linked list;
- binary search and an iterative quicksort;
- Dijkstra's algorithm over an adjacency matrix.

Each Python method that raises becomes a function that returns a `Result`. Loops whose termination is not guaranteed return `Err(Loops)` when they would run forever.

Modules, one per source file, plus three shared ones:

| module | file | models |
|---|---|---|
| `Results`, `ExtInt` | results.dfy | The `Result`/`Option` types. `ExtInt` is an integer or `Inf`; it stands in for `float('inf')`, which Dijkstra puts into the queue as a key. |
| `Cyclic` | cyclic.dfy | The `(i + 1) % n` probe step, in closed form: the slot `w` steps after `home`, and the step distance between two slots. |
| `Seqs` | seqs.dfy | Reversal, and rotation by `n` of a sequence. Both the deque and the linked list use them. |
| `BinaryTree` | tree.dfy | `BinaryTree`, as a sequence of slots. Each slot holds a payload or the sentinel hole. |
| `Heap` | heap.dfy | `MaxHeap` and `MinHeap`, as one definition with an `Order` parameter. Also `heapify`, the key changes, and `heapsort`. |
| `PriorityQueue` | priority_queue.dfy | `PriorityQueue`: a min heap plus the `value2idx` map, and the hooks that maintain it. |
| `TombstoneMap` | hash_map.dfy | `datastructures/fixed_hash_map.py`, together with a corrected variant. |
| `LegacyMap` | legacy_hash_map.dfy | `FixedHashMap.py`, with item objects modelled as shared references. Also a corrected value-semantics variant of the backward shift. |
| `Deque` | deque.dfy | `Deque`, as a sequence plus an optional `maxlen`. |
| `LinkedList` | linked_list.dfy | `LinkedList`, as a sequence. |
| `DivideAndConquer` | divide_and_conquer.dfy | `_is_sorted`, `binary_search`, `_partition` and `quicksort`, as methods with loop invariants. |
| `Graph` | graph.dfy | `SimpleGraph`: its constructor, `set_edge_weight`, `dijkstra_path` and `shortest_path`. |

Python's `hash()` is a function parameter of both maps. Heap keys are `ExtInt`. The sorting functions work on `int`.

## Model

| member | source | states |
|---|---|---|
| Cyclic.PosIsModulus | datastructures/fixed_hash_map.py:49 | For fewer than `capacity` steps, the slot reached `w` steps after `home` is `(home + w) % capacity`. |
| Cyclic.PosNext | datastructures/fixed_hash_map.py:49 | One `(i + 1) % capacity` step from the slot reached after `w` steps lands on the slot reached after `w + 1`. After `capacity` steps the probe is back at its home slot. |
| Cyclic.PosInjective | datastructures/fixed_hash_map.py:45-52 | Within one lap, the probe never visits the same slot twice. |
| Cyclic.DistPos | FixedHashMap.py:70-72 | The cyclic distance from the home slot to the slot reached after `w` steps is `w`, for `w < n`. |
| Seqs.Reverse | datastructures/deque.py:160-164 | Position `i` of the result holds the element at position `len - 1 - i`. This is the order in which repeated prepending leaves the items. |
| Seqs.RightOfRotated | datastructures/deque.py:215-216 | Moving the last element of a sequence rotated by `n` to the front gives the sequence rotated by `n + 1`. |
| Seqs.LeftOfRotated | datastructures/deque.py:218-219 | Moving the first element of a sequence rotated by `n` to the back gives the sequence rotated by `n - 1`. |
| Seqs.RotatedCompose | datastructures/deque.py:211-219 | Rotating by `a` and then by `b` is rotating by `a + b`, so the rotations add up. |
| Seqs.RotatedInverse | datastructures/deque.py:211-219 | Rotating by `n` and then by `-n` gives back the original sequence. |
| BinaryTree.ChildrenOfParent | datastructures/tree.py:101-111 | For every index, the parent of its left child and of its right child is that index, and the right child sits right after the left one. |
| BinaryTree.ParentOfChild | datastructures/tree.py:101-111 | Every index `j >= 1` has its parent in `[0, j)` and is the left or right child of that parent. |
| BinaryTree.NodeCount | datastructures/tree.py:72-73 | `node_count` never exceeds the storage length. |
| BinaryTree.NodeCountCountsOccupied | datastructures/tree.py:72-73 | `node_count` is the number of occupied indices, which is the storage length minus the number of sentinels. |
| BinaryTree.NodeCountOfPermutation | datastructures/tree.py:72-76 | Rearranging the slots does not change `node_count`. |
| BinaryTree.GetNode | datastructures/tree.py:21-26 | Succeeds exactly for an in-range occupied index and returns its payload. An out-of-range or negative index gives the range error, and a sentinel slot gives the null-node error. |
| BinaryTree.CheckExtend | datastructures/tree.py:117-120 | Pads with sentinels to length `index + 1` when the index is past the end. It never changes an existing slot. |
| BinaryTree.SetNode | datastructures/tree.py:28-37 | Fails for a negative index, and for a non-root index whose parent slot is missing or a sentinel. Otherwise it stores the value at that index, grows storage to `index + 1` when needed, fills any new slot with a sentinel, and leaves every other slot unchanged. |
| BinaryTree.SetThenGet | tests/test_tree.py:18-37 | `get_node(i)` after a successful `set_node(i, v)` returns `v`, and every other old index reads as before. |
| BinaryTree.IsLeaf | datastructures/tree.py:54-60 | `is_leaf(i)`: neither child index is an occupied slot inside storage. `LeafHasNoOccupiedChild` characterises it. |
| BinaryTree.LeafHasNoOccupiedChild | datastructures/tree.py:54-60 | `is_leaf(i)` holds exactly when no occupied slot has `i` as its parent. |
| BinaryTree.AddLeft | datastructures/tree.py:62-65 | Succeeds only when the left child's index is already inside storage, because storage is extended only up to `index`. It then writes exactly that slot. |
| BinaryTree.AddRight | datastructures/tree.py:67-70 | The same for the right child's index. |
| BinaryTree.AddLeftCanOrphan | datastructures/tree.py:62-65 | `add_left` does not check that its parent index holds a node. It can place a node under a sentinel. |
| BinaryTree.SwapSlots | datastructures/tree.py:75-76 | Exchanges exactly the two slots and keeps everything else. The slot multiset and `node_count` are unchanged. |
| BinaryTree.Swap | datastructures/tree.py:75-76 | Succeeds exactly when both indices are valid Python list indices (negatives count from the end). It then exchanges the two addressed slots. |
| BinaryTree.Root | datastructures/tree.py:78-82 | Fails on empty storage. Otherwise it returns slot 0, which may be the sentinel. |
| BinaryTree.TrimHolePairs | datastructures/tree.py:179-183 | Removes only trailing sentinels, never the first slot, and stops when the last two slots are not both sentinels. |
| BinaryTree.Cleanup | datastructures/tree.py:171-185 | The result is a prefix of the input, so no occupied slot moves, and only sentinels are dropped. A lone remaining slot is a node, the last two slots are never both sentinels, and `node_count` is unchanged. |
| BinaryTree.PrefixDropsOnlyHoles | datastructures/tree.py:171-185 | Cutting off a tail made only of sentinels keeps `node_count`. |
| BinaryTree.Remove | datastructures/tree.py:84-90 | Succeeds exactly for an in-range leaf. Otherwise it gives the range error or the non-leaf error. On success the slot becomes a sentinel and storage is cleaned up; the index no longer holds a node, and `node_count` drops by one if it did. |
| BinaryTree.SetNodeKeepsNoOrphans | datastructures/tree.py:28-37 | If every node's parent is a node, that still holds after any `set_node`. |
| BinaryTree.RemoveKeepsNoOrphans | datastructures/tree.py:84-90 | If every node's parent is a node, that still holds after any `remove`. |
| BinaryTree.EmptyTreeRejects | tests/test_tree.py:6-15 | On an empty tree, `root`, `remove(0)`, `get_node(0)`, `add_left(0, _)` and `add_right(0, _)` all fail. |
| Heap.DominatesMeans | datastructures/heap.py:107-117 | The heap order between a parent and a child is `parent >= child` for `MaxHeap` and `parent <= child` for `MinHeap`. It is the negation of the strict test each class's sifts use. |
| Heap.SwapItems | datastructures/heap.py:138 | Exchanges two items and keeps the rest. The item multiset is unchanged. |
| Heap.BestOfThreeDominates | datastructures/heap.py:119-136 | The index `_sift_down` picks (`largest` for `MaxHeap`, `smallest` for `MinHeap` at lines 172-189) is the index itself or one of its in-range children. Its key is in heap order over all three. |
| Heap.SiftDown | datastructures/heap.py:172-192 | Sifting down only permutes the items. |
| Heap.SiftDownRestores | datastructures/heap.py:119-139 | Suppose heap order holds everywhere at or after `lo`, except that the item at `i` may be out of order with its children, and its parent dominates them. Then sifting down from `i` restores heap order from `lo` on. |
| Heap.SiftUp | datastructures/heap.py:141-144 | Sifting up only permutes the items. |
| Heap.SiftUpRestores | datastructures/heap.py:194-197 | When only the item at `i` may be out of order with its parent, sifting up restores heap order everywhere. |
| Heap.RootDominates | datastructures/heap.py:110 | In a heap-ordered array the root's key dominates every key, so it is the largest for a max heap and the smallest for a min heap. |
| Heap.Storage | datastructures/heap.py:42-44 | The tree storage of a heap is its items in slots `0 .. size - 1`, followed by at most one sentinel. |
| Heap.SizeIsItemCount | datastructures/heap.py:64-65 | `size()`, the tree's `node_count`, equals the number of items. |
| Heap.GetRoot | datastructures/heap.py:28-29 | Fails on an empty heap. Otherwise it returns the root's value, whose key dominates every other key. |
| Heap.ExtractRoot | datastructures/heap.py:31-47 | Fails with heap underflow exactly when the heap is empty. Otherwise it returns the old root's value and removes exactly that item; the size drops by one and heap order is kept. One spare sentinel remains when two or more items were present. |
| Heap.SwapOut | datastructures/heap.py:43-45 | Swapping the root with the last item, dropping the last slot and sifting down removes exactly the root item and keeps heap order. |
| Heap.ExtractKeepsOrder | datastructures/heap.py:43-45 | After the root is swapped with the last item and the last slot is dropped, sifting down from 0 restores heap order. |
| Heap.ExtractOneIsTreeRemove | datastructures/heap.py:35-36 | For a one-item heap, the tree `remove(0)` empties storage completely. |
| Heap.ExtractManyIsTreeRemove | datastructures/heap.py:43-44 | For two or more items, the tree `swap(0, n - 1)` followed by `remove(n - 1)` leaves exactly the swapped items in `0 .. n - 2` and one sentinel. |
| Heap.LastLeafRemoved | datastructures/heap.py:44 | Removing the last item of a heap of two or more items leaves the shorter prefix plus one sentinel, which `_cleanup` keeps. |
| Heap.SwapIsTreeSwap | datastructures/heap.py:43 | Swapping two heap items is the tree's `swap` on the heap's storage. |
| Heap.Insert | datastructures/heap.py:49-52 | The size grows by one, the multiset gains exactly the new item, and heap order is kept. |
| Heap.InsertKeepsOrder | datastructures/heap.py:49-52 | Appending an item to a heap-ordered array and sifting it up keeps heap order. |
| Heap.InsertIsTreeSetNode | datastructures/heap.py:50-51 | `set_node(node_count(), item)` on a heap without a spare sentinel appends the item to the storage. |
| Heap.Zip | datastructures/heap.py:58 | `zip(keys, iterable)`: pairs position by position, truncated to the shorter input. |
| Heap.SiftDownAll | datastructures/heap.py:61-62 | The bottom-up loop only permutes the items. |
| Heap.SiftDownAllOrders | datastructures/heap.py:59-62 | If heap order already holds from index `k` on, sifting down `k - 1, ..., 0` establishes heap order everywhere. |
| Heap.FrontierSifted | datastructures/heap.py:61-62 | Sifting down index `i`, when heap order holds after it, extends heap order to start at `i`. |
| Heap.Heapify | datastructures/heap.py:54-62 | The result holds exactly the zipped items, with no spare sentinel, and is heap-ordered. |
| Heap.New | datastructures/heap.py:23-26 | A heap built from values and keys is heap-ordered, and it is empty unless both are given. |
| Heap.RaisedKeyNeedsSiftUp | datastructures/heap.py:146-151 | Giving an item a key that dominates its old one, then sifting it up, keeps heap order. That is what `MaxHeap._increase_key` and `MinHeap._decrease_key` do. |
| Heap.LoweredKeyNeedsSiftDown | datastructures/heap.py:153-158 | Giving an item a key that its old key dominates, then sifting it down, keeps heap order. That is what `MaxHeap._decrease_key` and `MinHeap._increase_key` do. |
| Heap.RekeyIsTreeSetNode | datastructures/heap.py:150 | Re-keying item `i` through `set_node` replaces just that slot. |
| Heap.IncreaseKey | datastructures/heap.py:146-151 | Succeeds exactly for an occupied index whose key does not go down; a lower key gives "new key is smaller". Otherwise only that item's key changes and heap order is kept, in both classes. |
| Heap.DecreaseKey | datastructures/heap.py:153-158 | Succeeds exactly for an occupied index whose key does not go up; a higher key gives "new key is greater". Otherwise only that item's key changes and heap order is kept, in both classes. |
| Heap.UpdateIndexPriority | datastructures/heap.py:67-75 | Succeeds exactly for an occupied index. An equal key changes nothing. Otherwise only that item's key changes and heap order is kept. |
| Heap.DrainOrder | datastructures/heap.py:19 | Repeated `extract_root` yields every item exactly once. |
| Heap.ExtractAll | datastructures/heap.py:19 | The list of extracted values equals the values of the drain order. |
| Heap.DrainIsSorted | tests/test_heap.py:9-18 | Extraction yields keys in order: non-increasing from a `MaxHeap`, non-decreasing from a `MinHeap`. |
| Heap.RootDominatesAll | datastructures/heap.py:164 | The root's key dominates the key of every stored item. |
| Heap.Heapsort | datastructures/heap.py:11-19 | Returns a permutation of the input, ascending by default and descending with `reverse`. |
| Heap.HeapsortFacts | datastructures/heap.py:14-19 | For any valid heap keyed by its values, extracting everything gives a permutation of the data, ascending from a min heap and descending from a max heap. |
| PriorityQueue.ConsistentMeansDistinct | datastructures/heap.py:281-283 | A `value2idx` map that matches the slots forces every stored value to be unique. |
| PriorityQueue.IndexMatchesSlots | datastructures/heap.py:217-220 | In a valid queue, `value2idx[v] == k` exactly when slot `k` holds value `v`. |
| PriorityQueue.ItemAt | datastructures/heap.py:244 | Reading `nodes[i].value` fails with `IndexError` outside `[-len, len)` and with `AttributeError` on a sentinel. Otherwise it returns the addressed item. |
| PriorityQueue.SwapHook | datastructures/heap.py:241-246 | For two non-negative in-range indices, the ones the sifts pass, the `swap` override swaps the items like the tree does and keeps `value2idx` equal to the slot positions. |
| PriorityQueue.RemoveLastHook | datastructures/heap.py:248-250 | The `remove` override applied to the last item, as `extract_root` uses it. It deletes that item's map entry, failing with `KeyError` if there is none, and keeps the map consistent with the shortened items. |
| PriorityQueue.DropOld | datastructures/heap.py:253-258 | An index past storage leaves the map alone, because the `IndexError` is caught. A sentinel slot raises an escaping `AttributeError`. An occupied slot has its value's entry removed. |
| PriorityQueue.DropOldFixed | datastructures/heap.py:253-258 | Corrected: a sentinel slot has no entry to drop, so it also leaves the map alone. |
| PriorityQueue.SetAfterDrop | datastructures/heap.py:259-261 | Fails on a duplicate value. Otherwise it maps the value to the index and performs the tree `set_node`. |
| PriorityQueue.SetNodeHook | datastructures/heap.py:252-261 | The `set_node` override, case by case. Past storage, no entry is dropped. On an occupied slot, the old value's entry is deleted, or `KeyError` if it has none. A sentinel slot raises `AttributeError`. Then a value still present gives `ValueError`. On success the map is the old map, minus the old value's entry, plus `value -> index`, and the tree's `set_node` is applied. |
| PriorityQueue.SetNodeHookFixed | datastructures/heap.py:252-261 | Corrected: a sentinel slot drops no entry, like an index past storage. The `KeyError` and `ValueError` cases and the resulting map are as for the code as written. |
| PriorityQueue.RekeyThroughHook | datastructures/heap.py:150 | Re-keying an item through the hook succeeds and keeps the map consistent. |
| PriorityQueue.SiftDownHooked | datastructures/heap.py:172-192 | Sifting down through the swap hook moves the items exactly as the plain min heap does and keeps the map consistent. |
| PriorityQueue.SiftUpHooked | datastructures/heap.py:194-197 | The same for sifting up. |
| PriorityQueue.SiftDownAllHooked | datastructures/heap.py:59-62 | The same for the bottom-up heapify loop. |
| PriorityQueue.NodesSetter | datastructures/heap.py:232-239 | The `nodes` setter fails only on a repeated value. |
| PriorityQueue.NodesSetterTracks | datastructures/heap.py:232-239 | The setter succeeds exactly when all values are distinct. It then maps each value to its slot. |
| PriorityQueue.New | datastructures/heap.py:224-226 | The constructor rejects repeated values. Otherwise it builds the same min heap as `MinHeap(iterable, keys)`, with a consistent map. |
| PriorityQueue.Insert | datastructures/heap.py:277-279 | Fails for a value already present, and, as written, whenever a spare sentinel follows the items. Otherwise it is the min heap's `insert`, and the queue stays valid. |
| PriorityQueue.InsertFixed | datastructures/heap.py:277-279 | Corrected: fails only for a value already present. |
| PriorityQueue.InsertConsistent | datastructures/heap.py:259-260 | Appending a fresh item and mapping its value to the new slot keeps the map consistent. |
| PriorityQueue.ExtractRoot | datastructures/heap.py:31-47 | Fails with underflow on an empty queue. Otherwise the heap part changes exactly as the min heap's `extract_root`, and the queue stays valid. |
| PriorityQueue.DecreaseKeyHooked | datastructures/heap.py:206-211 | Succeeds exactly when the min heap's `_decrease_key` does, changes the heap part as it does, and keeps the map consistent. |
| PriorityQueue.IncreaseKeyHooked | datastructures/heap.py:199-204 | The same for `_increase_key`. |
| PriorityQueue.UpdateValuePriority | datastructures/heap.py:263-275 | Fails exactly for a value not in the map. Otherwise the heap part changes as `update_index_priority` at that value's slot, the map stays consistent, and the value ends up stored with the new key. |
| PriorityQueue.UpdateLands | datastructures/heap.py:263-275 | Whichever branch runs, the value afterwards sits at the slot the map names, with the new key. |
| PriorityQueue.InsertAfterExtractFails | datastructures/heap.py:252-258 | As written, after extracting from a queue of two or more items, inserting any fresh value fails with `AttributeError`. |
| PriorityQueue.InsertAfterExtractExample | datastructures/heap.py:252-258 | Example: the queue holding 1 and 2 loses its root, and inserting 3 then fails. |
| PriorityQueue.InsertFixedAfterExtract | datastructures/heap.py:252-258 | Corrected: after any extraction, a fresh value can be inserted and the queue stays valid. |
| TombstoneMap.New | datastructures/fixed_hash_map.py:34-37 | `capacity` unused slots (no key, no tombstone) and size 0. |
| TombstoneMap.Probe | datastructures/fixed_hash_map.py:45-52 | Returns the first step, within the bound, whose slot stops the probe. Past the bound it fails with `KeyError`, after every slot passed let the probe continue. |
| TombstoneMap.ProbeFindsFirstStop | datastructures/fixed_hash_map.py:45-52 | The first stopping step within the bound is exactly what the probe returns. |
| TombstoneMap.Steps | datastructures/fixed_hash_map.py:39-53 | An unhashable key gives `ValueError`. Capacity 0 gives `ZeroDivisionError`, and a negative capacity `IndexError`. Otherwise the result is the first stopping step from `hash(key) % capacity`, or `KeyError` once the count reaches the bound. |
| TombstoneMap.FindSlot | datastructures/fixed_hash_map.py:39-53 | `_find_slot` as written gives up once its step count reaches `size`. A found slot lies fewer than `max(size, 1)` steps from the key's home, and every slot before it continues the probe. It is never a tombstone, and it is either empty or holds the key. `KeyError` means the first `max(size, 1)` slots all continue the probe. |
| TombstoneMap.FindSlotFixed | datastructures/fixed_hash_map.py:39-53 | Corrected: it probes the whole ring of `capacity` slots. `KeyError` means that no slot stops the probe. A found slot is the first stop from the key's home. |
| TombstoneMap.FindSlotWithin | datastructures/fixed_hash_map.py:39-53 | The slot found is never a tombstone, and it is either empty or holds the key. |
| TombstoneMap.Get | datastructures/fixed_hash_map.py:55-63 | As written, succeeds whenever the probe does: it returns the value of the found slot, or `None` for an empty slot. A returned value is stored under the key. |
| TombstoneMap.Set | datastructures/fixed_hash_map.py:65-73 | Fails with `MemoryError` whenever `size >= capacity`, before probing. Otherwise it stores the pair in the found slot and clears its tombstone; `size` grows exactly when the slot was empty. It never goes above `capacity`, and no tombstone becomes an empty slot. |
| TombstoneMap.Delete | datastructures/fixed_hash_map.py:75-80 | Succeeds whenever the probe does. It turns the found slot into a tombstone and decrements `size`. |
| TombstoneMap.Keys | datastructures/fixed_hash_map.py:85-86 | Lists exactly the keys of the slots that hold one, one entry per such slot. |
| TombstoneMap.KeysInSlotOrder | datastructures/fixed_hash_map.py:85-86 | The keys of two consecutive runs of slots are the first run's keys followed by the second's, so keys come out in slot order. |
| TombstoneMap.SetThenGet | tests/test_fixed_hash_map.py:16-18 | Right after a successful `set(k, v)`, `get(k)` returns `v`. |
| TombstoneMap.AbsentKeyAccepted | datastructures/fixed_hash_map.py:57 | As written, `get` of a key never stored returns `None`, and `delete` of it succeeds and drives `size` to -1. |
| TombstoneMap.CollisionRejected | datastructures/fixed_hash_map.py:50-52 | As written, with one key stored, a second key with the same home slot cannot be set. |
| TombstoneMap.NewIsValid | datastructures/fixed_hash_map.py:34-37 | A new map satisfies the map invariant and has no keys. |
| TombstoneMap.FoundAtItsSlot | datastructures/fixed_hash_map.py:39-53 | With the corrected bound, probing for a stored key finds its slot. |
| TombstoneMap.KeysDistinct | datastructures/fixed_hash_map.py:65-73 | In a valid map, no key is stored in two slots. |
| TombstoneMap.GetFixed | datastructures/fixed_hash_map.py:55-63 | Corrected `get`: a returned value is stored under the key. |
| TombstoneMap.GetFixedExact | datastructures/fixed_hash_map.py:55-63 | In a valid map, the corrected `get` returns `v` exactly when the pair `(key, v)` is stored, and fails with `KeyError` for a hashable key that is not stored. |
| TombstoneMap.SetFixed | datastructures/fixed_hash_map.py:65-73 | The corrected `set`, with the probe bound at `capacity`, behaves like `set` at the slot that probe finds. |
| TombstoneMap.DeleteFixed | datastructures/fixed_hash_map.py:75-80 | The corrected `delete` tombstones an occupied slot only. |
| TombstoneMap.SetFixedKeepsValid | datastructures/fixed_hash_map.py:65-73 | The corrected `set` keeps the invariant that every stored key is found by its own probe, and a following `get` returns the new value. |
| TombstoneMap.DeleteFixedKeepsValid | datastructures/fixed_hash_map.py:75-80 | The corrected `delete` keeps the invariant, and the key is gone afterwards. |
| TombstoneMap.CollisionAccepted | datastructures/fixed_hash_map.py:50-52 | With the corrected bound, the colliding second key of `CollisionRejected` is accepted. |
| LegacyMap.HomeOf | FixedHashMap.py:25 | The home slot `hash(key) % capacity` lies in `[0, capacity)`. |
| LegacyMap.Probe | FixedHashMap.py:26-27 | Returns the first slot on the probe path that is empty or holds the key. Without one it reports non-termination. |
| LegacyMap.ProbeFindsFirstStop | FixedHashMap.py:24-28 | The first stopping slot is exactly what the probe returns. |
| LegacyMap.FindSlot | FixedHashMap.py:24-28 | Capacity 0 gives `ZeroDivisionError` and a negative capacity `IndexError`. Otherwise it returns the first empty-or-matching slot from the home slot, or loops. |
| LegacyMap.FindSlotLoops | FixedHashMap.py:24-28 | The loop runs forever exactly when no slot is empty or holds the key. |
| LegacyMap.NewTable | FixedHashMap.py:19-22 | `capacity` empty slots and size 0. |
| LegacyMap.NewTableIsValid | FixedHashMap.py:19-22 | A new table satisfies the table invariant and has no keys. |
| LegacyMap.TableGet | FixedHashMap.py:45-51 | A returned value is stored under the key. Probe failures pass through, and an empty found slot gives `KeyError`. |
| LegacyMap.TableGetExact | FixedHashMap.py:45-51 | In a valid table, `get` returns `v` exactly when `(key, v)` is stored. An absent key gives `KeyError` when an empty slot exists, and loops forever otherwise. |
| LegacyMap.FoundAtItsSlot | FixedHashMap.py:24-28 | In a valid table, probing for a stored key finds its slot. |
| LegacyMap.TableSet | FixedHashMap.py:30-43 | Rejects a non-string key, then a full table. Otherwise it writes the pair into the found slot, overwriting a present key without changing `size` or filling an empty slot and incrementing `size`. |
| LegacyMap.TableSetKeepsValid | FixedHashMap.py:30-43 | `set` keeps the table invariant, and a following `get` returns the new value. |
| LegacyMap.Keys | FixedHashMap.py:86-87 | Lists exactly the keys of the non-empty slots, one entry per slot. |
| LegacyMap.KeysInSlotOrder | FixedHashMap.py:86-87 | The keys of two consecutive runs of slots are the first run's keys followed by the second's. |
| LegacyMap.InBetweenIsDist | FixedHashMap.py:72 | The "cyclically between `i` and `j`" test holds exactly when `k` is closer to `i` than `j` is, and not `i` itself, going forward around the table. |
| LegacyMap.Scan | FixedHashMap.py:64-73 | The inner loop passes only entries whose home lies cyclically in `(i, j]`. It stops at an empty slot, or at an entry that may move into the hole. |
| LegacyMap.StopClosesHole | FixedHashMap.py:64-68 | When the scan reaches an empty slot, every stored key is again reachable from its home. |
| LegacyMap.MoveKeepsHole | FixedHashMap.py:70-79 | Moving the found entry into the hole keeps every other key reachable, with the new hole at `j`. |
| LegacyMap.ShiftFixed | FixedHashMap.py:58-79 | The corrected shift copies contents instead of sharing the item object. It only permutes the slots. |
| LegacyMap.ShiftFixedCloses | FixedHashMap.py:58-79 | After the corrected shift, every stored key is reachable from its home and no key is stored twice. |
| LegacyMap.TableDelete | FixedHashMap.py:53-81 | Corrected `delete`: succeeds exactly when the found slot holds the key. `size` drops by exactly one, and the slots lose exactly that entry and gain one empty slot. |
| LegacyMap.TableDeleteKeepsValid | FixedHashMap.py:53-81 | The corrected `delete` keeps the table invariant. No slot holds the deleted key afterwards, and an empty slot remains. |
| LegacyMap.TableDeleteThenGet | FixedHashMap.py:53-81 | After the corrected `delete`, `get` of that key fails, and `get` of every other key is unchanged. |
| LegacyMap.TableDeleteKeepsEntry | FixedHashMap.py:78 | Corrected: on the example of `DeleteLosesEntry`, the moved key "b" is still found. |
| LegacyMap.View | FixedHashMap.py:22 | The table a store shows reads each slot through the item object it references. |
| LegacyMap.NewStore | FixedHashMap.py:19-22 | A new store has one fresh item object per slot and shows the new table. |
| LegacyMap.Get | FixedHashMap.py:45-51 | `get` reads through the found slot's reference. Probe failures pass through, and a falsy object gives `KeyError`. A returned value is held under the key by the object some slot refers to. |
| LegacyMap.GetIsTableGet | FixedHashMap.py:45-51 | Reading through the references gives the same answer as `get` on the list of objects the slots show. |
| LegacyMap.GetExact | FixedHashMap.py:45-51 | While the objects form a valid map, `get` returns `v` exactly when some slot's object holds the key with `v`. |
| LegacyMap.Set | FixedHashMap.py:30-43 | `set` mutates an item object in place. It behaves as the table's `set` as long as no two slots share an object. |
| LegacyMap.SetIntoFalsySlot | FixedHashMap.py:40-43 | Setting into an empty found slot writes the referenced object and increments `size`. |
| LegacyMap.ShiftAsWritten | FixedHashMap.py:58-79 | As written, the shift clears the object the hole references and leaves every other stored object untouched. |
| LegacyMap.Delete | FixedHashMap.py:53-81 | As written, `delete` succeeds exactly when the key is found, decrements `size`, and clears the found slot's object. |
| LegacyMap.ShiftShares | FixedHashMap.py:78 | Example: the shift makes two slots share one object and then clears that object. |
| LegacyMap.DeleteShares | FixedHashMap.py:53-81 | Example: the whole `delete` leaves two slots referencing one cleared object. |
| LegacyMap.DeleteLosesEntry | FixedHashMap.py:63 | As written, deleting "a" from a table holding "a" and "b" on the same home slot also loses "b". `size` says 1, but no key is left. |
| LegacyMap.BeforeIsBuilt | FixedHashMap.py:30-43 | The example's starting table is what two `set` calls build. |
| Deque.New | datastructures/deque.py:76-89 | Rejects a negative `maxlen`. Otherwise the deque keeps the last `maxlen` items of the iterable, and `maxlen` is stored as given. |
| Deque.Append | datastructures/deque.py:99-112 | Leaves the last `maxlen` items of the old items followed by `v`. With `maxlen == 0` nothing changes. |
| Deque.AppendLeft | datastructures/deque.py:114-127 | Leaves the first `maxlen` items of `v` followed by the old items. |
| Deque.KeepLastThenAppend | datastructures/deque.py:154-158 | Trimming to the last `maxlen` items after each append equals trimming once at the end. |
| Deque.KeepFirstThenPrepend | datastructures/deque.py:160-164 | Trimming to the first `maxlen` items after each prepend equals trimming once at the end. |
| Deque.Extend | datastructures/deque.py:154-158 | Leaves the last `maxlen` items of the old items followed by the snapshot, so `d.extend(d)` doubles the items when unbounded. |
| Deque.ExtendLeft | datastructures/deque.py:160-164 | Leaves the first `maxlen` items of the reversed snapshot followed by the old items. |
| Deque.Pop | datastructures/deque.py:166-177 | Fails with `IndexError` exactly on an empty deque. Otherwise it returns the last item and removes only it. |
| Deque.PopLeft | datastructures/deque.py:179-190 | Fails with `IndexError` exactly on an empty deque. Otherwise it returns the first item and removes only it. |
| Deque.StepRightIsOneRight | datastructures/deque.py:215-216 | `appendleft(pop())` on a valid non-empty deque moves the last item to the front, even at `maxlen`. |
| Deque.StepLeftIsOneLeft | datastructures/deque.py:218-219 | `append(popleft())` moves the first item to the back. |
| Deque.StepsRight | datastructures/deque.py:214-216 | `n` such steps rotate the items right by `n`. |
| Deque.StepsLeft | datastructures/deque.py:217-219 | `n` such steps rotate the items left by `n`. |
| Deque.Rotate | datastructures/deque.py:211-219 | `rotate(n)` rotates the items by `n` and keeps the length and `maxlen`. An empty deque is unchanged. |
| Deque.RotateRoundTrip | datastructures/deque.py:211-219 | `rotate(n)` followed by `rotate(-n)` restores the deque. |
| Deque.GetNode | datastructures/deque.py:275-296 | Succeeds exactly for an index in `[-len, len)`, addressing one position, with negatives counted from the end. Anything else gives `IndexError`. |
| Deque.Get | datastructures/deque.py:298-301 | Returns the item at that position. |
| Deque.SetItem | datastructures/deque.py:303-305 | Replaces only the addressed item. |
| Deque.DelItem | datastructures/deque.py:307-319 | Removes only the addressed item. |
| Deque.IndexFrom | datastructures/deque.py:235-247 | The scan returns the first position at or after its start that holds `x` within the bounds. Otherwise it fails after seeing no `x` there. |
| Deque.Index | datastructures/deque.py:226-248 | Like `list.index`: `start` and `stop` default to the ends and are clamped after negatives count from the end. It returns the first position in that range holding `x`, or fails with `ValueError` when none does. |
| Deque.Insert | datastructures/deque.py:250-270 | Fails with `IndexError` exactly when the deque is at `maxlen`. Otherwise, like `list.insert`, it puts `x` at the clamped position and shifts the rest. |
| Deque.ReverseDeque | datastructures/deque.py:192-197 | Position `i` receives the item at position `len - 1 - i`. |
| Deque.ReverseTwice | datastructures/deque.py:192-197 | Reversing twice restores the deque. |
| Deque.ExtendTimes | datastructures/deque.py:377-378 | `k` extends by a snapshot leave the last `maxlen` items of the old items followed by `k` copies. |
| Deque.Mul | datastructures/deque.py:369-379 | `d * k` holds the last `maxlen` items of `k` copies of `d`, and nothing for `k <= 0`. |
| Deque.IMul | datastructures/deque.py:388-397 | `d *= k` holds the same items. |
| Deque.MulAgreesWithIMul | datastructures/deque.py:369-397 | `d * k` and `d *= k` agree. |
| Deque.Add | datastructures/deque.py:355-363 | `d + e` keeps the last `maxlen` of `d`'s items followed by `e`'s items, under `d`'s `maxlen`. |
| Deque.Equal | datastructures/deque.py:339-343 | `==` on deques: equal lengths and equal items position by position. `EqualIsSameItems` characterises it. |
| Deque.EqualIsSameItems | datastructures/deque.py:339-343 | Deque equality is equality of the item sequences; `maxlen` is ignored. |
| LinkedList.Init | datastructures/linked_list.py:48-56 | `__init__` yields exactly the given items, whatever the list held before. |
| LinkedList.Clear | datastructures/linked_list.py:76-80 | Leaves an empty list with `count == 0`. |
| LinkedList.Append | datastructures/linked_list.py:58-65 | Adds `v` at the tail, keeps the old items, and increments `count`. |
| LinkedList.AppendLeft | datastructures/linked_list.py:67-74 | Adds `v` at the head, keeps the old items, and increments `count`. |
| LinkedList.Pop | datastructures/linked_list.py:90-100 | Fails with `ValueError` exactly on an empty list. Otherwise it returns the last item and removes only it. |
| LinkedList.PopLeft | datastructures/linked_list.py:102-112 | Fails with `ValueError` exactly on an empty list. Otherwise it returns the first item and removes only it. |
| LinkedList.PopUndoesAppend | datastructures/linked_list.py:58-112 | `pop` after `append(v)`, and `popleft` after `appendleft(v)`, return `v` and the original list. |
| LinkedList.Extend | datastructures/linked_list.py:82-84 | Appends the items in order. |
| LinkedList.ExtendLeft | datastructures/linked_list.py:86-88 | Prepends the items one by one, so they end up reversed in front. |
| LinkedList.StepsRight | datastructures/linked_list.py:120-122 | `n` steps of `appendleft(pop())` rotate right by `n`. On an empty list the first `pop` fails. |
| LinkedList.StepsLeft | datastructures/linked_list.py:123-125 | `n` steps of `append(popleft())` rotate left by `n`. On an empty list the first `popleft` fails. |
| LinkedList.Rotate | datastructures/linked_list.py:119-125 | Rotates by `n` and keeps `count`. A non-zero rotation of an empty list fails, because there is no empty-list guard. |
| LinkedList.RotateRoundTrip | datastructures/linked_list.py:119-125 | On a non-empty list, `rotate(n)` followed by `rotate(-n)` restores it. |
| LinkedList.ScanForward | datastructures/linked_list.py:139-141 | The forward walk from the head reaches position `index` exactly when it is in range, and the item there is `items[index]`. |
| LinkedList.ScanBackward | datastructures/linked_list.py:144-146 | The backward walk from the tail reaches position `index` exactly when it is in range, and the item there is `items[index]`. |
| LinkedList.GetItemAsWritten | datastructures/linked_list.py:130-146 | As written: `IndexError` for `index >= count`. For `0 <= index < count` the walk reaches the index and reads `.val` off a stored value, raising `AttributeError`. A negative index falls through both walks and returns `None`. |
| LinkedList.GetItem | datastructures/linked_list.py:130-146 | Corrected lookup: `IndexError` exactly for `index >= count`. For `0 <= index < count` it returns the item at that position, and a negative index gives `None` as in the code. |
| LinkedList.GetItemAsWrittenFailsOnItems | datastructures/linked_list.py:130-146 | The as-written lookup raises `AttributeError` exactly where the corrected one returns an item, and agrees with it everywhere else. |
| LinkedList.GetItemAsWrittenExample | datastructures/linked_list.py:139-141 | `LinkedList([1])[0]` raises `AttributeError` as written, where the corrected lookup returns 1. |
| LinkedList.Equal | datastructures/linked_list.py:168-169 | `==` as written: `all` over `zip`, which compares only the common prefix. `EqualIsCommonPrefix` characterises it. |
| LinkedList.EqualFixed | datastructures/linked_list.py:168-169 | Corrected: equal lengths as well as a matching common prefix. `EqualFixedIsEquality` characterises it. |
| LinkedList.EqualIsCommonPrefix | datastructures/linked_list.py:168-169 | As written, `==` holds exactly when the two lists agree on their common prefix. |
| LinkedList.EqualIgnoresLength | datastructures/linked_list.py:168-169 | As written, `[1, 2] == [1]` holds although the lists differ. |
| LinkedList.EqualFixedIsEquality | datastructures/linked_list.py:168-169 | Corrected: comparing lengths as well makes `==` exactly list equality. |
| DivideAndConquer.IsSorted | datastructures/divide_and_conquer.py:6-7 | `_is_sorted`: every adjacent pair is non-decreasing. `IsSortedIsPairwise` characterises it. |
| DivideAndConquer.IsSortedIsPairwise | datastructures/divide_and_conquer.py:6-7 | Adjacent pairs in order is equivalent to every pair of positions in order. |
| DivideAndConquer.BinarySearch | datastructures/divide_and_conquer.py:10-52 | Raises `ValueError` exactly on unsorted input. Otherwise it returns -1 or an index where `checker_fn` holds and fails just before. For a checker that is false on a prefix and true after it, that is the first true index, and -1 exactly when there is none. |
| DivideAndConquer.Swap | datastructures/divide_and_conquer.py:83 | Exchanges two positions and keeps the rest and the multiset. |
| DivideAndConquer.MiddlePermuted | datastructures/divide_and_conquer.py:56-88 | A permutation that leaves both ends alone permutes the middle range. |
| DivideAndConquer.WholePermuted | datastructures/divide_and_conquer.py:56-88 | A permuted middle range with both ends unchanged is a permutation of the whole list. |
| DivideAndConquer.MedianOfThree | datastructures/divide_and_conquer.py:64-73 | The three conditional swaps only permute `[start, end]` and leave everything outside it alone. |
| DivideAndConquer.Partition | datastructures/divide_and_conquer.py:56-88 | Returns `p` in `[start, end]`, with `[start, end]` a permutation of its old contents and the rest untouched. Everything before `p` satisfies `cmp(_, pivot)`, and nothing after `p` does. |
| DivideAndConquer.SameRangeMeans | datastructures/divide_and_conquer.py:105-115 | Two positions share a pending range exactly when some stacked range holds both. |
| DivideAndConquer.PendingShrinks | datastructures/divide_and_conquer.py:108-115 | Replacing a popped range by the two halves strictly lowers the number of pending positions, so the loop terminates. |
| DivideAndConquer.StepSettles | datastructures/divide_and_conquer.py:108-115 | A partition step keeps in order every pair of positions that no pending range holds together. |
| DivideAndConquer.StepKeepsStack | datastructures/divide_and_conquer.py:112-115 | Every range pushed satisfies `lo < hi`, lies inside the original `[start, end]`, and the pending ranges stay disjoint. |
| DivideAndConquer.QuicksortStep | datastructures/divide_and_conquer.py:107-115 | One loop iteration keeps the outside untouched, the list a permutation, the stack in bounds and disjoint, and settled pairs in order. It shrinks the pending count. |
| DivideAndConquer.Quicksort | datastructures/divide_and_conquer.py:91-115 | Raises `ValueError` exactly when `start >= end` or `start < 0`, and `IndexError` when `end` is past the list. Otherwise it sorts `[start, end]` (ascending, or descending with `reverse`) as a permutation of its contents and leaves the rest unchanged. |
| DivideAndConquer.AscendingIsSorted | datastructures/divide_and_conquer.py:6-7 | An ascending quicksort result passes `_is_sorted`. |
| Graph.Zeros | datastructures/graph.py:31 | An `n` by `n` matrix of zeros; a negative size gives none. |
| Graph.New | datastructures/graph.py:22-34 | Fails when both `size` and `adj_mat` are given or neither is. With a matrix, the size is its length. With a size, the graph has an `n` by `n` zero matrix. |
| Graph.DisconnectedHasNoPaths | datastructures/graph.py:10-13 | A graph built from a size has no edge, so only one-node paths. |
| Graph.Assign | datastructures/graph.py:39 | `a[i][j] = w` succeeds exactly for Python list indices inside the matrix, and changes exactly that one cell. |
| Graph.SetEdgeWeight | datastructures/graph.py:36-41 | Writes `[source][target]`, and also `[target][source]` unless `directed` is set. It fails if either write is out of range, and nothing else changes. |
| Graph.UndirectedStaysSymmetric | datastructures/graph.py:36-41 | An undirected write on a symmetric square matrix keeps it symmetric, with the weight in both cells. |
| Graph.ExtendPath | datastructures/graph.py:60 | Extending a path by an edge adds that edge's weight. |
| Graph.PrefixLighter | tests/test_graph.py:26-35 | With non-negative weights, no prefix of a path weighs more than the path. |
| Graph.ExtractTracks | datastructures/graph.py:51 | Extracting from the queue removes exactly the root item, whose key is least. |
| Graph.UpdateTracks | datastructures/graph.py:64 | `update_value_priority` changes exactly that value's key in the queue. |
| Graph.StartTracks | datastructures/graph.py:44-47 | The initial queue holds each node keyed by its initial distance. |
| Graph.NodeOptimal | datastructures/graph.py:50-52 | With non-negative weights, the node of least tentative distance among the unvisited ones already has its shortest distance. |
| Graph.ExtractFromQueue | datastructures/graph.py:51-52 | The extracted node is unvisited, has the least distance among unvisited nodes, and leaves the queue. |
| Graph.Relax | datastructures/graph.py:53-64 | Visited neighbours and zero-weight entries are skipped. `dist` and `prev` change only when `alt < dist[neighbor]`, and then `prev[neighbor] = node`. The queue keeps mirroring `dist`. |
| Graph.SoundAfterUpdate | datastructures/graph.py:60-63 | After an improvement, every `prev` link still explains its node's distance through an edge. |
| Graph.RelaxKeeps | datastructures/graph.py:53-64 | One inner-loop step keeps the inner invariant. |
| Graph.RelaxNeighbors | datastructures/graph.py:53-64 | The inner loop over all neighbours re-establishes the outer invariant. |
| Graph.Visit | datastructures/graph.py:50-64 | One outer iteration extracts one new node, never one seen before, and keeps the invariant. |
| Graph.Dijkstra | datastructures/graph.py:43-66 | Fails exactly when the source is not a Python index of a node or a row cannot be read. Otherwise every node is extracted exactly once and `prev` explains `dist`, with `dist[source] == 0`. With non-negative weights, `dist[v]` is at most the weight of every path from the source to `v`. |
| Graph.StartHolds | datastructures/graph.py:44-48 | The initial `dist`, `prev` and queue satisfy the loop invariant. |
| Graph.AllVisited | datastructures/graph.py:50 | When the queue is empty, every node has been visited exactly once, and with non-negative weights the distances are final. |
| Graph.Chain | datastructures/graph.py:72-74 | The `while u is not None` loop returns a walk ending at `u`, starting at a node with no predecessor, and linking each node to the next through `prev`. |
| Graph.ShortestPath | datastructures/graph.py:68-76 | An empty result when `prev[target]` is `None` and `target != source`. Otherwise the `prev` chain into `target`, in order. A target outside `prev` gives `IndexError`. |
| Graph.ChainIsPath | datastructures/graph.py:68-76 | For a reached node, the `prev` chain is a path from the source whose weight is the node's distance. |
| Graph.ShortestPathIsShortest | tests/test_graph.py:26-38 | Takes `prev` and `dist` satisfying Dijkstra's guarantee with non-negative weights. An unreached target then has no path and gets an empty result. A reached target gets a path from the source of weight `dist[target]`, and no path is lighter. |
| ExtInt.LessIsStrictTotalOrder | datastructures/graph.py:61 | `<` on distances that may be infinite is a strict total order: irreflexive, asymmetric, transitive and total. |
| ExtInt.Plus | datastructures/graph.py:60 | `dist[node] + weight` stays infinite for an infinite distance, and a finite distance grows by exactly the weight. |

## Left out

- Python 2 truthiness in FixedHashMap.py: the file defines `__nonzero__`, which is Python 2's truth hook. The model follows it, so an item is truthy when its key is set. Under Python 3 every item object would be truthy.
- FixedHashMap.py's `TypeError` for an unhashable key is not modelled; `hash` is a total function parameter there. Python `None` keys are not modelled in either map, because keys are a generic type (and `Str` in the legacy map).
- `load()` in both maps returns a float and is not modelled.
- `SimpleGraph.visualize` draws with matplotlib and networkx, and is not modelled. Neither are the `__main__` demonstration blocks.
- `__str__`, `__repr__`, `get_str_node` and the tree's box-drawing renderer produce text only and are not modelled.
- The tree's `left`, `right` and `parent` are `get_node` at the computed index. They have no separate member; `GetNode` and the index lemmas cover them. `node_exists` is the predicate `NodeExists`.
- heap.py calls `parent_index`, `left_index` and `right_index`, which the tree class defines only with a leading underscore. As written, every `heapify`, `_sift_up` and `_sift_down` therefore raises `AttributeError`. So `MaxHeap(iterable, keys)`, `PriorityQueue(...)`, any `extract_root` of two or more items, and hence `dijkstra_path` all fail. The model uses the tree's formulas, which is what the names evidently refer to.
- tests/test_heap.py calls `extract_max`, which does not exist; the model follows `extract_root`.
- Heap.Heapsort: elements are `int` and keys are the elements themselves. Other comparable types are not modelled.
- Graph.Dijkstra: a row too short to read raises `IndexError` in Python partway through the run. The model checks readability up front and fails before any work, so the partial state at the raise is not modelled. The function also returns the extraction order as an extra output.
- Graph.Dijkstra: optimality is stated only for graphs with non-negative weights. With negative weights the model still proves that `prev` explains `dist`, but not minimality.
- Graph.ShortestPath: the `while u is not None` loop is bounded by a `fuel` parameter. A `prev` chain with a cycle, on which Python loops forever, gives `Err(Loops)` once the fuel runs out. Its `dist` parameter is unused in the source and is omitted. tests/test_graph.py:37 calls it with three arguments, which the four-argument signature rejects.
- `float('inf')` is replaced by `ExtInt.Inf`, and distances are integers. Float arithmetic is not modelled.
- The state after an escaping exception is not modelled. An operation that fails returns `Err` and no partial mutation.
- PriorityQueue.SwapHook: modelled only for the non-negative in-range indices that the sifts pass. The public `swap` also accepts negative list indices, and then stores the negative index in `value2idx`. For example, `swap(-1, 0)` on two items maps the first value to -1 while it sits in slot 1, so the map is no longer consistent. That case is not modelled.
- PriorityQueue.RemoveLastHook: modelled only for the last slot, which is the only one `extract_root` removes. The public `remove(i)` of another leaf, and `remove` of a sentinel slot, are not modelled.
- LinkedList.GetItemAsWritten: the `AttributeError` assumes the stored values have no `val` attribute of their own. A value that does have one would be read through it instead; that case is not modelled.
- PriorityQueue.UpdateValuePriority, PriorityQueue.DecreaseKeyHooked and PriorityQueue.IncreaseKeyHooked require the map to be consistent with the slots. That holds for every queue the public operations build, and it keeps the Python map lookups in range.
- LegacyMap.FindSlot: the Python loop never terminates when no slot is empty or holds the key. The model returns `Err(Loops)` instead.
- Deque: the mutation-during-iteration guard is left out. It fires only when user comparison callbacks mutate the deque, and element equality is pure here.
- Deque: `__lt__` is left out. Its rule (shorter first, then all elements less) disagrees with the lexicographic order tests/test_deque.py:181 expects.
- Deque: `count`, `copy`, `clear`, `remove` and `__contains__` are not part of the modelled core. Each is a plain scan or rebuild of the sequence.
- Deque: pointer-level node mechanics, `__del__`, pickling and copying are abstracted away, because the deque is a sequence.
- LinkedList: `reverse` is left out. It iterates values rather than nodes, so on a non-empty list it assigns attributes to the stored values, and the outcome depends on their Python type.
- LinkedList.Extend: the iterable is a snapshot sequence. `l.extend(l)`, which in Python keeps iterating over the list it is growing, is not modelled.
- DivideAndConquer.MedianOfThree: only the permutation is stated. The comment at divide_and_conquer.py:74 claims the end holds the median afterwards, which the three swaps do not guarantee.
- DivideAndConquer: the sorts work on `int` lists. Dynamic `TypeError`s, for non-int indices or multipliers and from `isinstance` checks, cannot occur under Dafny's typing.
- Python's randomised `hash()` is a parameter of both hash maps.

## Findings

| source | as written | input that shows it | evidently intended | confidence | as-written member | corrected member |
|---|---|---|---|---|---|---|
| datastructures/heap.py:252-258 | `PriorityQueue.set_node` catches only `IndexError` when reading the old slot's value. After an extraction from two or more items, `_cleanup` keeps one trailing sentinel at index `node_count()`, and `insert` then reads `.value` off it, raising `AttributeError`. | Keys and values 1 and 2; `extract_root()`, then `insert(3, 3)` | A sentinel slot has no old value to drop, so insert succeeds | high, not executed | PriorityQueue.InsertAfterExtractFails, PriorityQueue.InsertAfterExtractExample | PriorityQueue.InsertFixed, PriorityQueue.InsertFixedAfterExtract |
| datastructures/fixed_hash_map.py:57 | `if self.data[key_idx] is not None` is always true, because the slot holds a `HashItem` object. `get` of an absent key returns `None`, and `delete` of it tombstones an empty slot and decrements `size`. | Capacity 4, `hash(7) = 7`; `get(7)` returns `None`; `delete(7)` leaves `size == -1` | The truthiness test `if self.data[key_idx]`, raising `KeyError` for an absent key | high, not executed | TombstoneMap.AbsentKeyAccepted | TombstoneMap.GetFixed, TombstoneMap.GetFixedExact |
| datastructures/fixed_hash_map.py:50-52 | The probe gives up once the step count reaches `size`, the number of stored keys, instead of `capacity`. A colliding key cannot be inserted next to a single stored key. | Capacity 4, identity hash; `set(0, 10)`, then `set(4, 20)` raises `KeyError` | Probe up to `capacity` slots | high, not executed | TombstoneMap.CollisionRejected | TombstoneMap.CollisionAccepted, TombstoneMap.SetFixedKeepsValid |
| FixedHashMap.py:78 | `self.data[i] = self.data[j]` makes two slots share one `HashItem`. The next round's `self.data[i].clear()` (line 63) then wipes the entry just moved. | Capacity 3, every hash 0; `set("a", 1)`, `set("b", 2)`, `delete("a")`, then `get("b")` fails | Move the entry's contents and empty slot `j` | high, not executed | LegacyMap.DeleteLosesEntry, LegacyMap.ShiftAsWritten | LegacyMap.TableDelete, LegacyMap.TableDeleteKeepsEntry, LegacyMap.TableDeleteThenGet |
| datastructures/linked_list.py:139-146 | `__getitem__` walks `enumerate(self)` and `enumerate(reversed(self))`. Both yield the stored values, not the nodes, and it then returns `node.val`, so every in-range index reads `.val` off a value and raises `AttributeError`. | `LinkedList([1])[0]` | Return the value at that position (`return node`, or walk the nodes through `_iter`) | high, not executed | LinkedList.GetItemAsWritten, LinkedList.GetItemAsWrittenExample | LinkedList.GetItem, LinkedList.GetItemAsWrittenFailsOnItems |
| datastructures/linked_list.py:168-169 | `__eq__` zips the two lists, so it compares only their common prefix. | `LinkedList([1, 2]) == LinkedList([1])` is true | Also compare lengths, as `Deque.__eq__` does | high, not executed | LinkedList.EqualIgnoresLength | LinkedList.EqualFixedIsEquality |
