/** Max and min heaps stored in the array-backed binary tree. A heap's tree
    storage is always an occupied prefix (the items) followed by at most one
    trailing hole, the one `_cleanup` keeps after an extraction; the model
    keeps the items and a flag for that spare hole, and the lemmas at the end
    show that each storage change is exactly what the tree operations do.
    `MaxHeap` and `MinHeap` are one definition with an `Order` parameter;
    `Beats` spells out, per order, the strict comparison each class uses. */
module Heap {
  import opened Results
  import opened ExtInt
  import BinaryTree

  /** The `HeapItem(key, value)` named tuple. */
  datatype Item<T> = Item(key: ExtInt, value: T)

  /** Which class: `MaxHeap` or `MinHeap`. */
  datatype Order = Max | Min

  /** The errors of heap.py: "heap underflow", a tree `ValueError`, the two
      key-update direction checks, reading `.value` off the hole sentinel,
      and the priority queue's uniqueness and lookup errors. */
  datatype HeapError =
    | Underflow
    | TreeFailure(cause: BinaryTree.TreeError)
    | KeySmaller          // "new key is smaller than current key"
    | KeyGreater          // "new key is greater than current key"
    | SentinelHasNoValue  // AttributeError: the sentinel object has no `.value`
    | DuplicateValue      // "all items must be unique in the priority queue"
    | ValueNotFound       // "... not found in tree location lookup table"
    | KeyMissing          // KeyError: `del value2idx[v]` for a value with no entry
    | ListIndexError      // IndexError: a Python list index outside `[-len, len)`

  /** `a` must sit above `b`: for `MaxHeap` the code tests `b < a`
      (`largest` / `parent.key < node.key`), for `MinHeap` it tests `a < b`
      (`smallest` / `parent.key > node.key`). */
  predicate Beats(o: Order, a: ExtInt, b: ExtInt) {
    match o
    case Max => Less(b, a)
    case Min => Less(a, b)
  }

  /** The heap order between a parent key `a` and a child key `b`:
      `a >= b` in a max heap and `a <= b` in a min heap. */
  predicate Dominates(o: Order, a: ExtInt, b: ExtInt) {
    !Beats(o, b, a)
  }

  lemma DominatesMeans(o: Order, a: ExtInt, b: ExtInt)
    ensures o == Max ==> (Dominates(o, a, b) <==> LessEq(b, a))
    ensures o == Min ==> (Dominates(o, a, b) <==> LessEq(a, b))
  {
  }

  lemma BeatsDominates(o: Order, a: ExtInt, b: ExtInt)
    requires Beats(o, a, b)
    ensures Dominates(o, a, b)
  {
  }

  lemma DominatesTransitive(o: Order, a: ExtInt, b: ExtInt, c: ExtInt)
    requires Dominates(o, a, b) && Dominates(o, b, c)
    ensures Dominates(o, a, c)
  {
  }

  function Parent(k: int): int { BinaryTree.ParentIndex(k) }

  /** Every parent/child pair whose parent index is at least `lo` and is not
      `skip` is in heap order. */
  ghost predicate OrderedExcept<T>(o: Order, a: seq<Item<T>>, lo: int, skip: int) {
    forall k {:trigger a[k], Parent(k)} :: 1 <= k < |a| && Parent(k) >= lo && Parent(k) != skip ==>
      Dominates(o, a[Parent(k)].key, a[k].key)
  }

  /** Every parent/child pair whose parent index is at least `lo` is in heap
      order. */
  ghost predicate OrderedFrom<T>(o: Order, a: seq<Item<T>>, lo: int) {
    OrderedExcept(o, a, lo, -1)
  }

  /** Heap property H1: every parent key is `>=` (max) or `<=` (min) its
      children's keys. */
  ghost predicate HeapOrdered<T>(o: Order, a: seq<Item<T>>) {
    OrderedFrom(o, a, 0)
  }

  /** Exchange two items (the tree's `swap` on the occupied prefix). */
  function SwapItems<T>(a: seq<Item<T>>, i: nat, j: nat): (r: seq<Item<T>>)
    requires i < |a| && j < |a|
    ensures |r| == |a|
    ensures r[i] == a[j] && r[j] == a[i]
    ensures forall k :: 0 <= k < |a| && k != i && k != j ==> r[k] == a[k]
    ensures multiset(r) == multiset(a)
  {
    BinaryTree.SwapIsPermutation(a, i, j);
    a[i := a[j]][j := a[i]]
  }

  /** The child `_sift_down` picks: the left child if it beats the node, then
      the right child if it beats whichever of those two won. */
  function BestOfThree<T>(o: Order, a: seq<Item<T>>, i: nat): (b: nat)
    requires i < |a|
    ensures b < |a|
    ensures b == i || b == BinaryTree.LeftIndex(i) || b == BinaryTree.RightIndex(i)
  {
    var l := BinaryTree.LeftIndex(i);
    var r := BinaryTree.RightIndex(i);
    var best := if l < |a| && Beats(o, a[l].key, a[i].key) then l else i;
    if r < |a| && Beats(o, a[r].key, a[best].key) then r else best
  }

  /** The node `BestOfThree` picks dominates the node and both of its
      children that lie inside the heap. */
  lemma BestOfThreeDominates<T>(o: Order, a: seq<Item<T>>, i: nat)
    requires i < |a|
    ensures var b := BestOfThree(o, a, i);
      && Dominates(o, a[b].key, a[i].key)
      && (b != i ==> Beats(o, a[b].key, a[i].key))
      && (forall c :: 1 <= c < |a| && Parent(c) == i ==> Dominates(o, a[b].key, a[c].key))
  {
    var l := BinaryTree.LeftIndex(i);
    var r := BinaryTree.RightIndex(i);
    var first := if l < |a| && Beats(o, a[l].key, a[i].key) then l else i;
    var b := BestOfThree(o, a, i);
    forall c | 1 <= c < |a| && Parent(c) == i
      ensures Dominates(o, a[b].key, a[c].key)
    {
      BinaryTree.ParentOfChild(c);
      BinaryTree.ChildrenOfParent(i);
      if c == l {
        if b == r {
          if first == l {
            BeatsDominates(o, a[r].key, a[l].key);
          } else {
            BeatsDominates(o, a[r].key, a[i].key);
            DominatesTransitive(o, a[r].key, a[i].key, a[l].key);
          }
        }
      } else {
        assert c == r;
      }
    }
    if b != i {
      if b == r && first != i {
        BeatsDominates(o, a[r].key, a[l].key);
        BeatsDominates(o, a[l].key, a[i].key);
        LessIsStrictTotalOrder(a[i].key, a[l].key, a[r].key);
        LessIsStrictTotalOrder(a[r].key, a[l].key, a[i].key);
      }
    }
  }

  /** `_sift_down`: swap the node with the child that beats it most and
      continue from that child, until no child beats it. */
  function SiftDown<T>(o: Order, a: seq<Item<T>>, i: nat): (r: seq<Item<T>>)
    ensures |r| == |a|
    ensures multiset(r) == multiset(a)
    decreases |a| - i
  {
    if i >= |a| then a
    else
      var best := BestOfThree(o, a, i);
      if best != i then SiftDown(o, SwapItems(a, i, best), best) else a
  }

  /** What `_sift_down(i)` needs to restore order on every pair with parent
      at least `lo`: all such pairs are ordered except those below `i`, and
      `i`'s parent (when it is in range) already dominates `i`'s children. */
  ghost predicate SiftDownReady<T>(o: Order, a: seq<Item<T>>, i: nat, lo: nat) {
    && OrderedExcept(o, a, lo, i)
    && (i >= 1 && Parent(i) >= lo ==>
          forall k :: 1 <= k < |a| && Parent(k) == i ==> Dominates(o, a[Parent(i)].key, a[k].key))
  }

  /** `_sift_down(i)` restores heap order on all pairs with parent at least
      `lo`: with `lo == 0` after an extraction or a key change, with
      `lo == i` during `heapify`. */
  lemma {:induction false} SiftDownRestores<T>(o: Order, a: seq<Item<T>>, i: nat, lo: nat)
    requires lo <= i < |a|
    requires SiftDownReady(o, a, i, lo)
    ensures OrderedFrom(o, SiftDown(o, a, i), lo)
    decreases |a| - i
  {
    var best := BestOfThree(o, a, i);
    BestOfThreeDominates(o, a, i);
    if best == i {
      forall k | 1 <= k < |a| && Parent(k) >= lo
        ensures Dominates(o, a[Parent(k)].key, a[k].key)
      {
      }
    } else {
      var b := SwapItems(a, i, best);
      BinaryTree.ChildrenOfParent(i);
      assert Parent(best) == i;
      forall k | 1 <= k < |b| && Parent(k) >= lo && Parent(k) != best
        ensures Dominates(o, b[Parent(k)].key, b[k].key)
      {
        BinaryTree.ParentOfChild(k);
        if Parent(k) == i {
          if k == best {
            BeatsDominates(o, a[best].key, a[i].key);
          }
        } else if k == i {
          assert Dominates(o, a[Parent(i)].key, a[best].key);
        } else {
          assert k != best;
        }
      }
      forall k | 1 <= k < |b| && Parent(k) == best
        ensures Dominates(o, b[Parent(best)].key, b[k].key)
      {
        BinaryTree.ParentOfChild(k);
      }
      SiftDownRestores(o, b, best, lo);
    }
  }

  /** `_sift_up`: while the node beats its parent, swap them and continue
      from the parent's index. */
  function SiftUp<T>(o: Order, a: seq<Item<T>>, i: nat): (r: seq<Item<T>>)
    requires i < |a|
    ensures |r| == |a|
    ensures multiset(r) == multiset(a)
    decreases i
  {
    if i > 0 && Beats(o, a[i].key, a[Parent(i)].key) then
      BinaryTree.ParentOfChild(i);
      SiftUp(o, SwapItems(a, i, Parent(i)), Parent(i))
    else a
  }

  /** What `_sift_up(i)` needs: every pair is ordered except the one between
      `i` and its parent, and `i`'s parent dominates `i`'s children. */
  ghost predicate SiftUpReady<T>(o: Order, a: seq<Item<T>>, i: nat) {
    && (forall k :: 1 <= k < |a| && k != i ==> Dominates(o, a[Parent(k)].key, a[k].key))
    && (i >= 1 ==> forall k :: 1 <= k < |a| && Parent(k) == i ==> Dominates(o, a[Parent(i)].key, a[k].key))
  }

  /** `_sift_up(i)` restores heap order. */
  lemma {:induction false} SiftUpRestores<T>(o: Order, a: seq<Item<T>>, i: nat)
    requires i < |a|
    requires SiftUpReady(o, a, i)
    ensures HeapOrdered(o, SiftUp(o, a, i))
    decreases i
  {
    if i > 0 && Beats(o, a[i].key, a[Parent(i)].key) {
      var p := Parent(i);
      BinaryTree.ParentOfChild(i);
      var b := SwapItems(a, i, p);
      BeatsDominates(o, a[i].key, a[p].key);
      forall k | 1 <= k < |b| && k != p
        ensures Dominates(o, b[Parent(k)].key, b[k].key)
      {
        BinaryTree.ParentOfChild(k);
        if k == i {
        } else if Parent(k) == i {
        } else if Parent(k) == p {
          DominatesTransitive(o, a[i].key, a[p].key, a[k].key);
        } else {
        }
      }
      if p >= 1 {
        forall k | 1 <= k < |b| && Parent(k) == p
          ensures Dominates(o, b[Parent(p)].key, b[k].key)
        {
          BinaryTree.ParentOfChild(p);
          if k != i {
            DominatesTransitive(o, a[Parent(p)].key, a[p].key, a[k].key);
          }
        }
      }
      SiftUpRestores(o, b, p);
    } else {
      forall k | 1 <= k < |a|
        ensures Dominates(o, a[Parent(k)].key, a[k].key)
      {
      }
    }
  }

  /** In heap order the root dominates every item: the root of a max heap
      holds the largest key, that of a min heap the smallest. */
  lemma {:induction false} RootDominates<T>(o: Order, a: seq<Item<T>>, k: nat)
    requires HeapOrdered(o, a)
    requires k < |a|
    ensures Dominates(o, a[0].key, a[k].key)
    decreases k
  {
    if k > 0 {
      BinaryTree.ParentOfChild(k);
      RootDominates(o, a, Parent(k));
      DominatesTransitive(o, a[0].key, a[Parent(k)].key, a[k].key);
    }
  }

  /** The heap object: its order, its occupied prefix, and whether storage
      carries the one trailing hole `_cleanup` keeps. */
  datatype Heap<T> = Heap(order: Order, items: seq<Item<T>>, spare: bool)

  /** The representation invariant: heap order, and a spare hole only after
      an occupied slot. */
  ghost predicate Valid<T>(h: Heap<T>) {
    HeapOrdered(h.order, h.items) && (h.spare ==> |h.items| >= 1)
  }

  /** The tree storage the heap object holds. */
  function Storage<T>(h: Heap<T>): (s: seq<BinaryTree.Slot<Item<T>>>)
    ensures |s| == |h.items| + (if h.spare then 1 else 0)
    ensures forall k :: 0 <= k < |h.items| ==> s[k] == BinaryTree.Node(h.items[k])
    ensures h.spare ==> s[|h.items|].Hole?
  {
    seq(|h.items|, k requires 0 <= k < |h.items| => BinaryTree.Node(h.items[k]))
      + (if h.spare then [BinaryTree.Hole] else [])
  }

  /** `size` / `node_count` of a heap is the number of items: the spare
      hole, if any, is the only hole in storage. */
  lemma SizeIsItemCount<T>(h: Heap<T>)
    ensures BinaryTree.NodeCount(Storage(h)) == |h.items|
  {
    var s := Storage(h);
    var w := s[..|h.items|];
    assert BinaryTree.Hole !in multiset(w);
    assert s == w + (if h.spare then [BinaryTree.Hole] else []);
    assert multiset(s)[BinaryTree.Hole] == if h.spare then 1 else 0;
    BinaryTree.NodeCountCountsOccupied(s);
  }

  function Size<T>(h: Heap<T>): nat {
    |h.items|
  }

  function Empty<T>(o: Order): Heap<T> {
    Heap(o, [], false)
  }

  /** `get_root`: the value at slot 0 (`root()` fails on empty storage). */
  function GetRoot<T>(h: Heap<T>): (r: Result<T, HeapError>)
    requires Valid(h)
    ensures r.Ok? <==> |h.items| >= 1
    ensures r.Ok? ==> r.value == h.items[0].value
    ensures r.Ok? ==> forall k :: 0 <= k < |h.items| ==> Dominates(h.order, h.items[0].key, h.items[k].key)
  {
    match BinaryTree.Root(Storage(h))
    case Err(e) => Err(TreeFailure(e))
    case Ok(slot) =>
      if slot.Hole? then Err(SentinelHasNoValue)
      else
        assert forall k :: 0 <= k < |h.items| ==> Dominates(h.order, h.items[0].key, h.items[k].key) by {
          forall k | 0 <= k < |h.items| { RootDominates(h.order, h.items, k); }
        }
        Ok(slot.payload.value)
  }

  /** `extract_root`: "heap underflow" on an empty heap; otherwise the old
      root's value is returned, the size drops by exactly one, the remaining
      items are the old ones minus the root, and heap order is kept. With
      two or more items the last one is swapped to the root, its old slot
      removed (leaving the spare hole) and the root sifted down. */
  function ExtractRoot<T>(h: Heap<T>): (r: Result<(T, Heap<T>), HeapError>)
    ensures r.Ok? <==> |h.items| >= 1
    ensures r.Err? ==> r.error == Underflow
    ensures r.Ok? ==> r.value.0 == h.items[0].value
    ensures r.Ok? ==> r.value.1.order == h.order
    ensures r.Ok? ==> |r.value.1.items| == |h.items| - 1
    ensures r.Ok? ==> r.value.1.spare == (|h.items| >= 2)
    ensures r.Ok? ==> multiset(r.value.1.items) + multiset{h.items[0]} == multiset(h.items)
    ensures r.Ok? && Valid(h) ==> Valid(r.value.1)
  {
    var n := |h.items|;
    if n < 1 then Err(Underflow)
    else if n == 1 then
      assert h.items == [h.items[0]];
      Ok((h.items[0].value, Heap(h.order, [], false)))
    else Ok((h.items[0].value, SwapOut(h)))
  }

  /** The heap `extract_root` leaves behind when it holds two or more
      items: the last item swapped to the root, the old root's slot
      removed and the new root sifted down. */
  function SwapOut<T>(h: Heap<T>): (r: Heap<T>)
    requires |h.items| >= 2
    ensures r.order == h.order && r.spare
    ensures multiset(r.items) + multiset{h.items[0]} == multiset(h.items)
    ensures HeapOrdered(h.order, h.items) ==> HeapOrdered(r.order, r.items)
  {
    var n := |h.items|;
    var swapped := SwapItems(h.items, 0, n - 1);
    var rest := swapped[..n - 1];
    assert swapped == rest + [h.items[0]];
    var sifted := SiftDown(h.order, rest, 0);
    ExtractKeepsOrder(h, swapped, rest);
    Heap(h.order, sifted, true)
  }

  /** What `extract_root` leaves with a single item: an empty heap. */
  lemma ExtractRootSingle<T>(h: Heap<T>)
    requires |h.items| == 1
    ensures ExtractRoot(h) == Ok((h.items[0].value, Heap(h.order, [], false)))
  {
  }

  /** What `extract_root` leaves with two or more items: the last item
      swapped to the root, the old root dropped, the new root sifted down. */
  lemma ExtractKeepsOrder<T>(h: Heap<T>, swapped: seq<Item<T>>, rest: seq<Item<T>>)
    requires |h.items| >= 2
    requires swapped == SwapItems(h.items, 0, |h.items| - 1)
    requires rest == swapped[..|h.items| - 1]
    ensures HeapOrdered(h.order, h.items) ==> HeapOrdered(h.order, SiftDown(h.order, rest, 0))
  {
    if HeapOrdered(h.order, h.items) {
      forall k | 1 <= k < |rest| && Parent(k) >= 0 && Parent(k) != 0
        ensures Dominates(h.order, rest[Parent(k)].key, rest[k].key)
      {
        BinaryTree.ParentOfChild(k);
      }
      SiftDownRestores(h.order, rest, 0, 0);
    }
  }

  /** `insert`: the item is stored at index `node_count()` and sifted up;
      the size grows by one, the items gain exactly that item, and heap
      order is kept. */
  function Insert<T>(h: Heap<T>, key: ExtInt, value: T): (r: Heap<T>)
    ensures r.order == h.order && !r.spare
    ensures |r.items| == |h.items| + 1
    ensures multiset(r.items) == multiset(h.items) + multiset{Item(key, value)}
    ensures Valid(h) ==> Valid(r)
  {
    var n := |h.items|;
    var grown := h.items + [Item(key, value)];
    InsertKeepsOrder(h, grown);
    Heap(h.order, SiftUp(h.order, grown, n), false)
  }

  lemma InsertKeepsOrder<T>(h: Heap<T>, grown: seq<Item<T>>)
    requires |grown| == |h.items| + 1 && grown[..|h.items|] == h.items
    ensures HeapOrdered(h.order, h.items) ==> HeapOrdered(h.order, SiftUp(h.order, grown, |h.items|))
  {
    var n := |h.items|;
    if HeapOrdered(h.order, h.items) {
      forall k | 1 <= k < |grown| && k != n
        ensures Dominates(h.order, grown[Parent(k)].key, grown[k].key)
      {
        BinaryTree.ParentOfChild(k);
        assert grown[k] == h.items[k] && grown[Parent(k)] == h.items[Parent(k)];
      }
      forall k | 1 <= k < |grown| && Parent(k) == n
        ensures false
      {
        BinaryTree.ParentOfChild(k);
      }
      SiftUpRestores(h.order, grown, n);
    }
  }

  /** `zip(keys, iterable)`: pairs up to the shorter of the two inputs. */
  function Zip<T>(keys: seq<ExtInt>, values: seq<T>): (r: seq<Item<T>>)
    ensures |r| == if |keys| < |values| then |keys| else |values|
    ensures forall k :: 0 <= k < |r| ==> r[k] == Item(keys[k], values[k])
  {
    var n := if |keys| < |values| then |keys| else |values|;
    seq(n, k requires 0 <= k < n => Item(keys[k], values[k]))
  }

  /** The `for` loop of `heapify`: sift down indices `k-1`, `k-2`, ..., `0`. */
  function SiftDownAll<T>(o: Order, a: seq<Item<T>>, k: nat): (r: seq<Item<T>>)
    ensures |r| == |a|
    ensures multiset(r) == multiset(a)
    decreases k
  {
    if k == 0 then a else SiftDownAll(o, SiftDown(o, a, k - 1), k - 1)
  }

  /** Bottom-up heapify establishes heap order once every pair with parent
      at least `k` is ordered. */
  lemma {:induction false} SiftDownAllOrders<T>(o: Order, a: seq<Item<T>>, k: nat)
    requires k <= |a|
    requires OrderedFrom(o, a, k)
    ensures HeapOrdered(o, SiftDownAll(o, a, k))
    decreases k
  {
    if k > 0 {
      FrontierSifted(o, a, k - 1);
      SiftDownAllOrders(o, SiftDown(o, a, k - 1), k - 1);
      OrderedAfterStep(o, a, k);
    } else {
      OrderedWhenDone(o, a, k);
    }
  }

  lemma OrderedAfterStep<T>(o: Order, a: seq<Item<T>>, k: nat)
    requires k > 0 && HeapOrdered(o, SiftDownAll(o, SiftDown(o, a, k - 1), k - 1))
    ensures HeapOrdered(o, SiftDownAll(o, a, k))
  {
  }

  lemma OrderedWhenDone<T>(o: Order, a: seq<Item<T>>, k: nat)
    requires k == 0 && OrderedFrom(o, a, k)
    ensures HeapOrdered(o, SiftDownAll(o, a, k))
  {
  }

  /** Sifting down index `i` extends the ordered part down to it. */
  lemma FrontierSifted<T>(o: Order, a: seq<Item<T>>, i: nat)
    requires i < |a| && OrderedFrom(o, a, i + 1)
    ensures OrderedFrom(o, SiftDown(o, a, i), i)
  {
    ReadyAtFrontier(o, a, i);
    SiftDownRestores(o, a, i, i);
  }

  /** Index `i` is ready to sift down once every pair with parent above
      `i` is ordered: its own parent lies below it. */
  lemma ReadyAtFrontier<T>(o: Order, a: seq<Item<T>>, i: nat)
    requires i < |a| && OrderedFrom(o, a, i + 1)
    ensures SiftDownReady(o, a, i, i)
  {
    if i >= 1 {
      BinaryTree.ParentOfChild(i);
    }
  }

  /** `heapify(iterable, keys)`: storage becomes `zip(keys, values)` as a
      contiguous prefix (old contents dropped) and every index from the
      parent of the last one down to 0 is sifted down, which yields heap
      order. */
  function Heapify<T>(o: Order, keys: seq<ExtInt>, values: seq<T>): (r: Heap<T>)
    ensures r.order == o && !r.spare
    ensures multiset(r.items) == multiset(Zip(keys, values))
    ensures Valid(r)
  {
    var a := Zip(keys, values);
    var start := Parent(|a| - 1) + 1;
    assert 0 <= start <= |a|;
    forall k | 1 <= k < |a|
      ensures Parent(k) < start
    {
    }
    SiftDownAllOrders(o, a, start);
    Heap(o, SiftDownAll(o, a, start), false)
  }

  /** The `BaseHeap(iterable, keys)` constructor: heapify only when both are
      given. */
  function New<T>(o: Order, values: Option<seq<T>>, keys: Option<seq<ExtInt>>): (r: Heap<T>)
    ensures Valid(r)
    ensures values.None? || keys.None? ==> r == Empty(o)
  {
    if keys.Some? && values.Some? then Heapify(o, keys.value, values.value) else Empty(o)
  }

  /** The item `i` gets a new key, its value kept. */
  function Rekey<T>(a: seq<Item<T>>, i: nat, key: ExtInt): (r: seq<Item<T>>)
    requires i < |a|
    ensures |r| == |a| && r[i] == Item(key, a[i].value)
  {
    a[i := Item(key, a[i].value)]
  }

  /** The node read at the start of every key change: `get_node(index)` on
      the heap's storage. */
  function NodeAt<T>(h: Heap<T>, i: int): (r: Result<Item<T>, HeapError>)
    ensures r.Ok? <==> 0 <= i < |h.items|
    ensures r.Ok? ==> r.value == h.items[i]
  {
    match BinaryTree.GetNode(Storage(h), i)
    case Ok(item) => Ok(item)
    case Err(e) => Err(TreeFailure(e))
  }

  /** After raising a key in a max heap (or lowering one in a min heap) the
      node may beat its parent: `_sift_up` repairs it. */
  lemma RaisedKeyNeedsSiftUp<T>(o: Order, a: seq<Item<T>>, i: nat, key: ExtInt)
    requires HeapOrdered(o, a) && i < |a|
    requires Dominates(o, key, a[i].key)
    ensures HeapOrdered(o, SiftUp(o, Rekey(a, i, key), i))
  {
    var b := Rekey(a, i, key);
    forall k | 1 <= k < |b| && k != i
      ensures Dominates(o, b[Parent(k)].key, b[k].key)
    {
      BinaryTree.ParentOfChild(k);
      if Parent(k) == i {
        DominatesTransitive(o, key, a[i].key, a[k].key);
      }
    }
    if i >= 1 {
      forall k | 1 <= k < |b| && Parent(k) == i
        ensures Dominates(o, b[Parent(i)].key, b[k].key)
      {
        BinaryTree.ParentOfChild(k);
        BinaryTree.ParentOfChild(i);
        DominatesTransitive(o, a[Parent(i)].key, a[i].key, a[k].key);
      }
    }
    SiftUpRestores(o, b, i);
  }

  /** After lowering a key in a max heap (or raising one in a min heap) a
      child may beat the node: `_sift_down` repairs it. */
  lemma LoweredKeyNeedsSiftDown<T>(o: Order, a: seq<Item<T>>, i: nat, key: ExtInt)
    requires HeapOrdered(o, a) && i < |a|
    requires Dominates(o, a[i].key, key)
    ensures HeapOrdered(o, SiftDown(o, Rekey(a, i, key), i))
  {
    var b := Rekey(a, i, key);
    forall k | 1 <= k < |b| && Parent(k) >= 0 && Parent(k) != i
      ensures Dominates(o, b[Parent(k)].key, b[k].key)
    {
      BinaryTree.ParentOfChild(k);
      if k == i {
        DominatesTransitive(o, a[Parent(i)].key, a[i].key, key);
      }
    }
    if i >= 1 {
      forall k | 1 <= k < |b| && Parent(k) == i
        ensures Dominates(o, b[Parent(i)].key, b[k].key)
      {
        BinaryTree.ParentOfChild(k);
        BinaryTree.ParentOfChild(i);
        DominatesTransitive(o, a[Parent(i)].key, a[i].key, a[k].key);
      }
    }
    SiftDownRestores(o, b, i, 0);
  }

  /** The key change both `_increase_key` and `_decrease_key` end in: store
      the new item with `set_node`, then sift up for a max heap's increase
      or a min heap's decrease, and sift down otherwise. */
  function Repair<T>(h: Heap<T>, i: nat, key: ExtInt, up: bool): (r: Heap<T>)
    requires i < |h.items|
    ensures r.order == h.order && r.spare == h.spare
    ensures multiset(r.items) == multiset(Rekey(h.items, i, key))
  {
    var b := Rekey(h.items, i, key);
    Heap(h.order, if up then SiftUp(h.order, b, i) else SiftDown(h.order, b, i), h.spare)
  }

  /** `_increase_key`: rejects a smaller key; otherwise max sifts up and min
      sifts down. The heap keeps its order and gains the new key in place
      of the old one. */
  function IncreaseKey<T>(h: Heap<T>, i: int, key: ExtInt): (r: Result<Heap<T>, HeapError>)
    ensures r.Ok? <==> 0 <= i < |h.items| && !Less(key, h.items[i].key)
    ensures 0 <= i < |h.items| && Less(key, h.items[i].key) ==> r == Err(KeySmaller)
    ensures r.Ok? ==> r.value.order == h.order && r.value.spare == h.spare
    ensures r.Ok? ==> multiset(r.value.items) == multiset(Rekey(h.items, i, key))
    ensures r.Ok? && Valid(h) ==> Valid(r.value)
  {
    var cur :- NodeAt(h, i);
    if Less(key, cur.key) then Err(KeySmaller)
    else
      var up := h.order == Max;
      var r := Repair(h, i, key, up);
      assert Valid(h) ==> Valid(r) by {
        if Valid(h) {
          if up {
            RaisedKeyNeedsSiftUp(h.order, h.items, i, key);
          } else {
            LoweredKeyNeedsSiftDown(h.order, h.items, i, key);
          }
        }
      }
      Ok(r)
  }

  /** `_decrease_key`: rejects a greater key; otherwise max sifts down and
      min sifts up. */
  function DecreaseKey<T>(h: Heap<T>, i: int, key: ExtInt): (r: Result<Heap<T>, HeapError>)
    ensures r.Ok? <==> 0 <= i < |h.items| && !Less(h.items[i].key, key)
    ensures 0 <= i < |h.items| && Less(h.items[i].key, key) ==> r == Err(KeyGreater)
    ensures r.Ok? ==> r.value.order == h.order && r.value.spare == h.spare
    ensures r.Ok? ==> multiset(r.value.items) == multiset(Rekey(h.items, i, key))
    ensures r.Ok? && Valid(h) ==> Valid(r.value)
  {
    var cur :- NodeAt(h, i);
    if Less(cur.key, key) then Err(KeyGreater)
    else
      var up := h.order == Min;
      var r := Repair(h, i, key, up);
      assert Valid(h) ==> Valid(r) by {
        if Valid(h) {
          if up {
            RaisedKeyNeedsSiftUp(h.order, h.items, i, key);
          } else {
            LoweredKeyNeedsSiftDown(h.order, h.items, i, key);
          }
        }
      }
      Ok(r)
  }

  /** `update_index_priority`: a smaller key goes through `_decrease_key`, a
      greater one through `_increase_key`, an equal one changes nothing.
      The only failure is an index that holds no item. */
  function UpdateIndexPriority<T>(h: Heap<T>, i: int, key: ExtInt): (r: Result<Heap<T>, HeapError>)
    ensures r.Ok? <==> 0 <= i < |h.items|
    ensures r.Ok? && key == h.items[i].key ==> r.value == h
    ensures r.Ok? ==> r.value.order == h.order && r.value.spare == h.spare
    ensures r.Ok? ==> multiset(r.value.items) == multiset(Rekey(h.items, i, key))
    ensures r.Ok? && Valid(h) ==> Valid(r.value)
  {
    var cur :- NodeAt(h, i);
    if Less(key, cur.key) then DecreaseKey(h, i, key)
    else if Less(cur.key, key) then IncreaseKey(h, i, key)
    else
      LessIsStrictTotalOrder(key, cur.key, key);
      assert Rekey(h.items, i, key) == h.items;
      Ok(h)
  }

  /** The items in the order repeated `extract_root` takes them out. */
  function DrainOrder<T>(h: Heap<T>): (r: seq<Item<T>>)
    ensures multiset(r) == multiset(h.items)
    decreases |h.items|
  {
    match ExtractRoot(h)
    case Err(_) => []
    case Ok((_, rest)) => [h.items[0]] + DrainOrder(rest)
  }

  /** The values of a sequence of items. */
  function Values<T>(a: seq<Item<T>>): (r: seq<T>)
    ensures |r| == |a|
    ensures forall k :: 0 <= k < |a| ==> r[k] == a[k].value
  {
    seq(|a|, k requires 0 <= k < |a| => a[k].value)
  }

  /** `[heap.extract_root() for _ in range(heap.size())]`. */
  function ExtractAll<T>(h: Heap<T>): (r: seq<T>)
    ensures r == Values(DrainOrder(h))
    decreases |h.items|
  {
    match ExtractRoot(h)
    case Err(_) =>
      assert DrainOrder(h) == [];
      []
    case Ok((v, rest)) =>
      assert DrainOrder(h) == [h.items[0]] + DrainOrder(rest);
      ValuesCons(h.items[0], DrainOrder(rest));
      [v] + ExtractAll(rest)
  }

  lemma ValuesCons<T>(x: Item<T>, a: seq<Item<T>>)
    ensures Values([x] + a) == [x.value] + Values(a)
  {
  }

  /** Keys in `o`'s order, highest priority first. */
  ghost predicate SortedBy<T>(o: Order, a: seq<Item<T>>) {
    forall i, j :: 0 <= i < j < |a| ==> Dominates(o, a[i].key, a[j].key)
  }

  /** Repeated `extract_root` on a valid heap yields items in priority order
      (descending keys from a `MaxHeap`, ascending from a `MinHeap`). */
  lemma {:induction false} DrainIsSorted<T>(h: Heap<T>)
    requires Valid(h)
    ensures SortedBy(h.order, DrainOrder(h))
    decreases |h.items|
  {
    if |h.items| >= 1 {
      var rest := ExtractRoot(h).value.1;
      DrainIsSorted(rest);
      var tail := DrainOrder(rest);
      var root := h.items[0];
      assert DrainOrder(h) == [root] + tail;
      RootDominatesAll(h);
      assert forall x :: x in multiset(tail) ==> x in multiset(h.items);
      SortedCons(h.order, root, tail);
    }
  }

  /** The root dominates every item of a valid heap. */
  lemma RootDominatesAll<T>(h: Heap<T>)
    requires Valid(h) && |h.items| >= 1
    ensures forall x :: x in multiset(h.items) ==> Dominates(h.order, h.items[0].key, x.key)
  {
    forall x | x in multiset(h.items)
      ensures Dominates(h.order, h.items[0].key, x.key)
    {
      var k :| 0 <= k < |h.items| && h.items[k] == x;
      RootDominates(h.order, h.items, k);
    }
  }

  /** Prepending an item that dominates a sorted tail keeps it sorted. */
  lemma SortedCons<T>(o: Order, x: Item<T>, tail: seq<Item<T>>)
    requires SortedBy(o, tail)
    requires forall y :: y in multiset(tail) ==> Dominates(o, x.key, y.key)
    ensures SortedBy(o, [x] + tail)
  {
    var d := [x] + tail;
    forall i, j | 0 <= i < j < |d|
      ensures Dominates(o, d[i].key, d[j].key)
    {
      assert d[j] == tail[j - 1];
      if i == 0 {
        assert tail[j - 1] in multiset(tail);
      } else {
        assert d[i] == tail[i - 1];
      }
    }
  }

  /** Items that carry their own value as key, as `heapsort` builds them. */
  ghost predicate KeyedByValue(a: seq<Item<int>>) {
    forall k :: 0 <= k < |a| ==> a[k].key == Fin(a[k].value)
  }

  /** `Values` distributes over concatenation. */
  lemma ValuesAppend<T>(a: seq<Item<T>>, b: seq<Item<T>>)
    ensures Values(a + b) == Values(a) + Values(b)
  {
  }

  /** Taking one item out of a sequence takes its value out of the values. */
  lemma ValuesWithout<T>(b: seq<Item<T>>, j: nat)
    requires j < |b|
    ensures multiset(Values(b)) == multiset(Values(b[..j] + b[j + 1..])) + multiset{b[j].value}
  {
    assert b == b[..j] + [b[j]] + b[j + 1..];
    ValuesAppend(b[..j] + [b[j]], b[j + 1..]);
    ValuesAppend(b[..j], [b[j]]);
    ValuesAppend(b[..j], b[j + 1..]);
  }

  /** Reordering items reorders their values the same way. */
  lemma {:induction false} ValuesOfPermutation<T>(a: seq<Item<T>>, b: seq<Item<T>>)
    requires multiset(a) == multiset(b)
    ensures multiset(Values(a)) == multiset(Values(b))
    decreases |a|
  {
    if |a| == 0 {
      assert |b| == |multiset(b)| == 0;
    } else {
      var x := a[0];
      assert x in multiset(b);
      var j :| 0 <= j < |b| && b[j] == x;
      var b' := b[..j] + b[j + 1..];
      assert b == b[..j] + [x] + b[j + 1..];
      assert multiset(b') == multiset(b) - multiset{x};
      assert a == [x] + a[1..];
      assert multiset(a[1..]) == multiset(a) - multiset{x};
      ValuesOfPermutation(a[1..], b');
      ValuesWithout(a, 0);
      assert a[..0] + a[1..] == a[1..];
      ValuesWithout(b, j);
    }
  }

  /** `heapsort(iterable, reverse)`: each datum is both key and value; a min
      heap gives ascending order, `reverse=True` a max heap and descending
      order. */
  function Heapsort(data: seq<int>, reverse: bool): (r: seq<int>)
    ensures multiset(r) == multiset(data)
    ensures !reverse ==> forall i, j :: 0 <= i < j < |r| ==> r[i] <= r[j]
    ensures reverse ==> forall i, j :: 0 <= i < j < |r| ==> r[i] >= r[j]
  {
    var keys := seq(|data|, k requires 0 <= k < |data| => Fin(data[k]));
    var h := Heapify(if reverse then Max else Min, keys, data);
    HeapsortFacts(data, keys, h);
    ExtractAll(h)
  }

  lemma HeapsortFacts(data: seq<int>, keys: seq<ExtInt>, h: Heap<int>)
    requires |keys| == |data| && forall k :: 0 <= k < |data| ==> keys[k] == Fin(data[k])
    requires Valid(h) && multiset(h.items) == multiset(Zip(keys, data))
    ensures multiset(ExtractAll(h)) == multiset(data)
    ensures h.order == Min ==> forall i, j :: 0 <= i < j < |ExtractAll(h)| ==> ExtractAll(h)[i] <= ExtractAll(h)[j]
    ensures h.order == Max ==> forall i, j :: 0 <= i < j < |ExtractAll(h)| ==> ExtractAll(h)[i] >= ExtractAll(h)[j]
  {
    var z := Zip(keys, data);
    var d := DrainOrder(h);
    assert Values(z) == data;
    ValuesOfPermutation(d, z);
    DrainIsSorted(h);
    assert KeyedByValue(z);
    KeyedPermutation(z, d);
    SortedValues(h.order, d);
  }

  /** Reordering keeps every item keyed by its value. */
  lemma KeyedPermutation(a: seq<Item<int>>, b: seq<Item<int>>)
    requires KeyedByValue(a) && multiset(a) == multiset(b)
    ensures KeyedByValue(b)
  {
    forall k | 0 <= k < |b|
      ensures b[k].key == Fin(b[k].value)
    {
      assert b[k] in multiset(a);
    }
  }

  /** Items keyed by their values and sorted by priority have their values
      sorted: ascending for a min heap, descending for a max heap. */
  lemma SortedValues(o: Order, d: seq<Item<int>>)
    requires KeyedByValue(d) && SortedBy(o, d)
    ensures o == Min ==> forall i, j :: 0 <= i < j < |d| ==> Values(d)[i] <= Values(d)[j]
    ensures o == Max ==> forall i, j :: 0 <= i < j < |d| ==> Values(d)[i] >= Values(d)[j]
  {
    forall i, j | 0 <= i < j < |d|
      ensures o == Min ==> d[i].value <= d[j].value
      ensures o == Max ==> d[i].value >= d[j].value
    {
      assert Dominates(o, d[i].key, d[j].key);
    }
  }

  // ---- Storage bridge: each heap step is the tree operation on storage ----

  /** A swap of two items is the tree's `swap` on storage. */
  lemma SwapIsTreeSwap<T>(h: Heap<T>, i: nat, j: nat)
    requires i < |h.items| && j < |h.items|
    ensures BinaryTree.Swap(Storage(h), i, j)
      == Ok(Storage(Heap(h.order, SwapItems(h.items, i, j), h.spare)))
  {
    var s := Storage(h);
    var t := Storage(Heap(h.order, SwapItems(h.items, i, j), h.spare));
    var u := BinaryTree.SwapSlots(s, i, j);
    assert |u| == |t|;
    forall k | 0 <= k < |t|
      ensures u[k] == t[k]
    {
    }
    assert u == t;
  }

  /** `insert`'s `set_node(node_count(), item)` succeeds and appends the
      item, overwriting the spare hole when there is one. */
  lemma InsertIsTreeSetNode<T>(h: Heap<T>, item: Item<T>)
    ensures BinaryTree.SetNode(Storage(h), |h.items|, item)
      == Ok(Storage(Heap(h.order, h.items + [item], false)))
  {
    var n := |h.items|;
    var s := Storage(h);
    if n > 0 {
      BinaryTree.ParentOfChild(n);
      assert BinaryTree.NodeExists(s, Parent(n));
    }
    var u := BinaryTree.SetNode(s, n, item).value;
    var t := Storage(Heap(h.order, h.items + [item], false));
    assert |u| == |t|;
    forall k | 0 <= k < |t|
      ensures u[k] == t[k]
    {
    }
    assert u == t;
  }

  /** A key change's `set_node(index, item)` on an existing item succeeds
      and replaces just that item. */
  lemma RekeyIsTreeSetNode<T>(h: Heap<T>, i: nat, key: ExtInt)
    requires i < |h.items|
    ensures BinaryTree.SetNode(Storage(h), i, Item(key, h.items[i].value))
      == Ok(Storage(Heap(h.order, Rekey(h.items, i, key), h.spare)))
  {
    var s := Storage(h);
    if i > 0 {
      BinaryTree.ParentOfChild(i);
      assert BinaryTree.NodeExists(s, Parent(i));
    }
    var u := BinaryTree.SetNode(s, i, Item(key, h.items[i].value)).value;
    var t := Storage(Heap(h.order, Rekey(h.items, i, key), h.spare));
    assert |u| == |t|;
    forall k | 0 <= k < |t|
      ensures u[k] == t[k]
    {
    }
    assert u == t;
  }

  /** `_cleanup` leaves storage alone when its second-to-last slot is
      occupied. */
  lemma CleanupKeeps<T>(s: seq<BinaryTree.Slot<T>>)
    requires |s| >= 2 && s[|s| - 2].Node?
    ensures BinaryTree.Cleanup(s) == s
  {
  }

  /** `_cleanup` drops exactly one slot from storage ending in two holes
      after an occupied slot. */
  lemma CleanupDropsOne<T>(s: seq<BinaryTree.Slot<T>>)
    requires |s| >= 3 && s[|s| - 1].Hole? && s[|s| - 2].Hole? && s[|s| - 3].Node?
    ensures BinaryTree.Cleanup(s) == s[..|s| - 1]
  {
    var p := s[..|s| - 1];
    assert p[|p| - 2].Node?;
    assert BinaryTree.TrimHolePairs(p) == p;
  }

  /** `extract_root` on a one-item heap: `remove(0)` empties storage. */
  lemma ExtractOneIsTreeRemove<T>(h: Heap<T>)
    requires |h.items| == 1
    ensures BinaryTree.Remove(Storage(h), 0) == Ok([])
  {
    var s := Storage(h);
    var holed := s[0 := BinaryTree.Hole];
    if h.spare {
      assert holed == [BinaryTree.Hole, BinaryTree.Hole];
      assert holed[..1] == [BinaryTree.Hole];
    } else {
      assert holed == [BinaryTree.Hole];
    }
    assert BinaryTree.TrimHolePairs(holed) == [BinaryTree.Hole];
  }

  /** `extract_root` with two or more items: `swap(0, n-1)` then
      `remove(n-1)` leaves the first `n-1` swapped items followed by one
      spare hole. */
  lemma ExtractManyIsTreeRemove<T>(h: Heap<T>)
    requires |h.items| >= 2
    ensures var n := |h.items|;
      var swapped := BinaryTree.Swap(Storage(h), 0, n - 1);
      && swapped.Ok?
      && BinaryTree.Remove(swapped.value, n - 1)
           == Ok(Storage(Heap(h.order, SwapItems(h.items, 0, n - 1)[..n - 1], true)))
  {
    var n := |h.items|;
    SwapIsTreeSwap(h, 0, n - 1);
    var a := SwapItems(h.items, 0, n - 1);
    LastLeafRemoved(Heap(h.order, a, h.spare));
  }

  /** Removing the last item of a heap of two or more items leaves the
      shorter prefix and one spare hole. */
  lemma LastLeafRemoved<T>(h: Heap<T>)
    requires |h.items| >= 2
    ensures var n := |h.items|;
      BinaryTree.Remove(Storage(h), n - 1) == Ok(Storage(Heap(h.order, h.items[..n - 1], true)))
  {
    var m := |h.items| - 1;
    var s := Storage(h);
    BinaryTree.ChildrenOfParent(m);
    assert BinaryTree.IsLeaf(s, m);
    if h.spare {
      HoledSpare(h, m);
    } else {
      HoledNoSpare(h, m);
    }
  }

  /** With a spare hole after it, clearing the last item leaves two
      trailing holes, and `_cleanup` drops one. */
  lemma HoledSpare<T>(h: Heap<T>, m: nat)
    requires h.spare && m >= 1 && |h.items| == m + 1
    ensures BinaryTree.Cleanup(Storage(h)[m := BinaryTree.Hole]) == Storage(Heap(h.order, h.items[..m], true))
  {
    var holed := Storage(h)[m := BinaryTree.Hole];
    var want := Storage(Heap(h.order, h.items[..m], true));
    assert |want| == m + 1;
    assert holed[m - 1] == BinaryTree.Node(h.items[m - 1]);
    CleanupDropsOne(holed);
    forall k | 0 <= k < m + 1
      ensures holed[..m + 1][k] == want[k]
    {
    }
    assert holed[..m + 1] == want;
  }

  /** Without a spare hole, clearing the last item leaves one trailing
      hole, which `_cleanup` keeps. */
  lemma HoledNoSpare<T>(h: Heap<T>, m: nat)
    requires !h.spare && m >= 1 && |h.items| == m + 1
    ensures BinaryTree.Cleanup(Storage(h)[m := BinaryTree.Hole]) == Storage(Heap(h.order, h.items[..m], true))
  {
    var holed := Storage(h)[m := BinaryTree.Hole];
    var want := Storage(Heap(h.order, h.items[..m], true));
    assert |want| == m + 1;
    assert holed[m - 1] == BinaryTree.Node(h.items[m - 1]);
    CleanupKeeps(holed);
    forall k | 0 <= k < m + 1
      ensures holed[k] == want[k]
    {
    }
    assert holed == want;
  }
}
