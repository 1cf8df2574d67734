/** `PriorityQueue`: a `MinHeap` whose `value2idx` map records, for every
    stored value, the slot that holds it. The map is kept up to date by the
    class's overrides of `swap`, `remove` and `set_node` and by the `nodes`
    setter; each of those hooks is modelled here, the sifts are re-run
    through the swap hook, and every operation is shown to leave the heap
    part exactly as the plain min heap would while keeping the map equal to
    the slot positions. */
module PriorityQueue {
  import opened Results
  import opened ExtInt
  import BinaryTree
  import Heap

  type Item<T> = Heap.Item<T>
  type Slots<T> = seq<BinaryTree.Slot<Item<T>>>

  /** The queue: the min heap's items and spare-hole flag, and `value2idx`. */
  datatype PQ<T(==)> = PQ(items: seq<Item<T>>, spare: bool, index: map<T, int>)

  /** The min heap the queue's storage holds. */
  function AsHeap<T(==)>(pq: PQ<T>): Heap.Heap<T> {
    Heap.Heap(Heap.Min, pq.items, pq.spare)
  }

  /** `value2idx[v] == i` exactly when slot `i` holds value `v`. */
  ghost predicate Consistent<T>(items: seq<Item<T>>, m: map<T, int>) {
    && (forall k :: 0 <= k < |items| ==> items[k].value in m && m[items[k].value] == k)
    && (forall v :: v in m ==> 0 <= m[v] < |items| && items[m[v]].value == v)
  }

  /** No value is stored twice. */
  ghost predicate DistinctValues<T>(items: seq<Item<T>>) {
    forall i, j :: 0 <= i < j < |items| ==> items[i].value != items[j].value
  }

  /** The queue's representation invariant: a valid min heap whose map
      tracks the slots. */
  ghost predicate Valid<T>(pq: PQ<T>) {
    Heap.Valid(AsHeap(pq)) && Consistent(pq.items, pq.index)
  }

  lemma ConsistentMeansDistinct<T>(items: seq<Item<T>>, m: map<T, int>)
    requires Consistent(items, m)
    ensures DistinctValues(items)
  {
    forall i, j | 0 <= i < j < |items|
      ensures items[i].value != items[j].value
    {
      assert m[items[i].value] == i && m[items[j].value] == j;
    }
  }

  /** The map of a valid queue answers "which slot holds `v`" exactly, in
      both directions. */
  lemma IndexMatchesSlots<T>(pq: PQ<T>, v: T, k: int)
    requires Valid(pq)
    ensures (v in pq.index && pq.index[v] == k) <==> (0 <= k < |pq.items| && pq.items[k].value == v)
  {
  }

  /** A tree error raised inside a queue operation. */
  function Lift<X>(r: Result<X, BinaryTree.TreeError>): (s: Result<X, Heap.HeapError>)
    ensures s.Ok? <==> r.Ok?
    ensures s.Ok? ==> s.value == r.value
    ensures s.Err? ==> s.error == Heap.TreeFailure(r.error)
  {
    match r
    case Ok(x) => Ok(x)
    case Err(e) => Err(Heap.TreeFailure(e))
  }

  /** `self.nodes[index]` followed by an attribute read: Python list
      indexing (negative indices count from the end, others raise
      `IndexError`), and the hole sentinel has no attributes. */
  function ItemAt<T>(s: Slots<T>, i: int): (r: Result<Item<T>, Heap.HeapError>)
    ensures r.Ok? <==> BinaryTree.InListRange(|s|, i) && s[BinaryTree.ListIndex(|s|, i)].Node?
    ensures r.Ok? ==> r.value == s[BinaryTree.ListIndex(|s|, i)].payload
    ensures !BinaryTree.InListRange(|s|, i) ==> r == Err(Heap.ListIndexError)
    ensures BinaryTree.InListRange(|s|, i) && s[BinaryTree.ListIndex(|s|, i)].Hole? ==> r == Err(Heap.SentinelHasNoValue)
  {
    if !BinaryTree.InListRange(|s|, i) then Err(Heap.ListIndexError)
    else
      match s[BinaryTree.ListIndex(|s|, i)]
      case Hole => Err(Heap.SentinelHasNoValue)
      case Node(it) => Ok(it)
  }

  // ---- The hooks ----

  /** The `swap` override: the two values' map entries are pointed at each
      other's slots, then the slots are exchanged. */
  function SwapHook<T(==)>(a: seq<Item<T>>, m: map<T, int>, i: nat, j: nat): (r: (seq<Item<T>>, map<T, int>))
    requires i < |a| && j < |a|
    ensures r.0 == Heap.SwapItems(a, i, j)
    ensures Consistent(a, m) ==> Consistent(r.0, r.1)
  {
    var b := Heap.SwapItems(a, i, j);
    var m' := m[a[i].value := j][a[j].value := i];
    assert Consistent(a, m) ==> Consistent(b, m') by {
      if Consistent(a, m) {
        ConsistentMeansDistinct(a, m);
        forall k | 0 <= k < |b|
          ensures b[k].value in m' && m'[b[k].value] == k
        {
          if k != i && k != j {
            assert a[k].value != a[i].value && a[k].value != a[j].value;
          }
        }
        forall v | v in m'
          ensures 0 <= m'[v] < |b| && b[m'[v]].value == v
        {
          if v != a[i].value && v != a[j].value {
            var k := m[v];
            assert k != i && k != j;
          }
        }
      }
    }
    (b, m')
  }

  /** The `remove` override as `extract_root` uses it on the last item:
      `del value2idx[...]` (a `KeyError` if the value has no entry), then the
      slot is removed. */
  function RemoveLastHook<T(==)>(a: seq<Item<T>>, m: map<T, int>): (r: Result<(seq<Item<T>>, map<T, int>), Heap.HeapError>)
    requires |a| >= 1
    ensures r.Ok? <==> a[|a| - 1].value in m
    ensures r.Err? ==> r.error == Heap.KeyMissing
    ensures r.Ok? ==> r.value.0 == a[..|a| - 1]
    ensures r.Ok? && Consistent(a, m) ==> Consistent(r.value.0, r.value.1)
  {
    var v := a[|a| - 1].value;
    if v !in m then Err(Heap.KeyMissing)
    else
      var b := a[..|a| - 1];
      var m' := m - {v};
      assert Consistent(a, m) ==> Consistent(b, m') by {
        if Consistent(a, m) {
          ConsistentMeansDistinct(a, m);
          forall k | 0 <= k < |b|
            ensures b[k].value in m' && m'[b[k].value] == k
          {
            assert b[k].value != v;
          }
        }
      }
      Ok((b, m'))
  }

  /** The first half of the `set_node` override: `del value2idx[nodes[index]
      .value]`, where only `IndexError` is caught. An index beyond storage
      leaves the map alone; a hole slot raises `AttributeError`, which
      escapes. */
  function DropOld<T(==)>(s: Slots<T>, m: map<T, int>, i: int): (r: Result<map<T, int>, Heap.HeapError>)
    ensures !BinaryTree.InListRange(|s|, i) ==> r == Ok(m)
    ensures BinaryTree.InListRange(|s|, i) && s[BinaryTree.ListIndex(|s|, i)].Hole? ==> r == Err(Heap.SentinelHasNoValue)
    ensures BinaryTree.InListRange(|s|, i) && s[BinaryTree.ListIndex(|s|, i)].Node? ==>
      var v := s[BinaryTree.ListIndex(|s|, i)].payload.value;
      r == if v in m then Ok(m - {v}) else Err(Heap.KeyMissing)
  {
    if !BinaryTree.InListRange(|s|, i) then Ok(m)
    else
      match s[BinaryTree.ListIndex(|s|, i)]
      case Hole => Err(Heap.SentinelHasNoValue)
      case Node(prev) => if prev.value in m then Ok(m - {prev.value}) else Err(Heap.KeyMissing)
  }

  /** `DropOld` as evidently intended: a hole slot holds no value, so there
      is no entry to drop, just as for an index beyond storage. */
  function DropOldFixed<T(==)>(s: Slots<T>, m: map<T, int>, i: int): (r: Result<map<T, int>, Heap.HeapError>)
    ensures !BinaryTree.InListRange(|s|, i) ==> r == Ok(m)
    ensures BinaryTree.InListRange(|s|, i) && s[BinaryTree.ListIndex(|s|, i)].Hole? ==> r == Ok(m)
    ensures BinaryTree.InListRange(|s|, i) && s[BinaryTree.ListIndex(|s|, i)].Node? ==>
      r == DropOld(s, m, i)
  {
    if BinaryTree.InListRange(|s|, i) && s[BinaryTree.ListIndex(|s|, i)].Hole? then Ok(m)
    else DropOld(s, m, i)
  }

  /** The rest of the `set_node` override, shared by both versions: the
      uniqueness check, the new map entry, then the tree's `set_node`. */
  function SetAfterDrop<T(==)>(s: Slots<T>, m1: map<T, int>, i: int, item: Item<T>): (r: Result<(Slots<T>, map<T, int>), Heap.HeapError>)
    ensures r.Ok? <==> item.value !in m1 && BinaryTree.SetNode(s, i, item).Ok?
    ensures item.value in m1 ==> r == Err(Heap.DuplicateValue)
    ensures r.Ok? ==> r.value.0 == BinaryTree.SetNode(s, i, item).value
    ensures r.Ok? ==> r.value.1 == m1[item.value := i]
  {
    if item.value in m1 then Err(Heap.DuplicateValue)
    else
      var s' :- Lift(BinaryTree.SetNode(s, i, item));
      Ok((s', m1[item.value := i]))
  }

  /** The `set_node` override as written: an index beyond storage keeps
      every entry; an occupied slot first loses its old value's entry
      (`KeyError` when it has none); a hole raises `AttributeError`. Then
      a value already present raises `ValueError`, and otherwise the new
      value is mapped to `i` with no other entry touched. */
  function SetNodeHook<T(==)>(s: Slots<T>, m: map<T, int>, i: int, item: Item<T>): (r: Result<(Slots<T>, map<T, int>), Heap.HeapError>)
    ensures 0 <= i < |s| && s[i].Hole? ==> r == Err(Heap.SentinelHasNoValue)
    ensures !BinaryTree.InListRange(|s|, i) ==> r == SetAfterDrop(s, m, i, item)
    ensures BinaryTree.InListRange(|s|, i) && s[BinaryTree.ListIndex(|s|, i)].Hole? ==> r == Err(Heap.SentinelHasNoValue)
    ensures BinaryTree.InListRange(|s|, i) && s[BinaryTree.ListIndex(|s|, i)].Node? ==>
      var prev := s[BinaryTree.ListIndex(|s|, i)].payload.value;
      && (prev !in m ==> r == Err(Heap.KeyMissing))
      && (prev in m && item.value in m - {prev} ==> r == Err(Heap.DuplicateValue))
      && (prev in m && r.Ok? ==> r.value.1 == (m - {prev})[item.value := i])
    ensures r.Ok? ==> BinaryTree.SetNode(s, i, item) == Ok(r.value.0)
    ensures r.Ok? ==> item.value in r.value.1 && r.value.1[item.value] == i
  {
    var m1 :- DropOld(s, m, i);
    SetAfterDrop(s, m1, i, item)
  }

  /** The `set_node` override as evidently intended (a hole is skipped like
      an index beyond storage). */
  function SetNodeHookFixed<T(==)>(s: Slots<T>, m: map<T, int>, i: int, item: Item<T>): (r: Result<(Slots<T>, map<T, int>), Heap.HeapError>)
    ensures 0 <= i < |s| && s[i].Hole? ==> r == SetAfterDrop(s, m, i, item)
    ensures !BinaryTree.InListRange(|s|, i) || s[BinaryTree.ListIndex(|s|, i)].Hole? ==>
      && (item.value in m ==> r == Err(Heap.DuplicateValue))
      && (r.Ok? ==> r.value.1 == m[item.value := i])
    ensures BinaryTree.InListRange(|s|, i) && s[BinaryTree.ListIndex(|s|, i)].Node? ==>
      var prev := s[BinaryTree.ListIndex(|s|, i)].payload.value;
      && (prev !in m ==> r == Err(Heap.KeyMissing))
      && (prev in m && item.value in m - {prev} ==> r == Err(Heap.DuplicateValue))
      && (prev in m && r.Ok? ==> r.value.1 == (m - {prev})[item.value := i])
    ensures r.Ok? ==> BinaryTree.SetNode(s, i, item) == Ok(r.value.0)
    ensures r.Ok? ==> item.value in r.value.1 && r.value.1[item.value] == i
  {
    var m1 :- DropOldFixed(s, m, i);
    SetAfterDrop(s, m1, i, item)
  }

  /** A key change's `set_node` on a consistent queue succeeds, rewrites
      just that slot and leaves the map as it was. */
  lemma RekeyThroughHook<T>(pq: PQ<T>, i: nat, key: ExtInt)
    requires Consistent(pq.items, pq.index) && i < |pq.items|
    ensures SetNodeHook(Heap.Storage(AsHeap(pq)), pq.index, i, Heap.Item(key, pq.items[i].value))
      == Ok((Heap.Storage(Heap.Heap(Heap.Min, Heap.Rekey(pq.items, i, key), pq.spare)), pq.index))
    ensures Consistent(Heap.Rekey(pq.items, i, key), pq.index)
  {
    var v := pq.items[i].value;
    var m := pq.index;
    Heap.RekeyIsTreeSetNode(AsHeap(pq), i, key);
    assert (m - {v})[v := i] == m;
    var b := Heap.Rekey(pq.items, i, key);
    forall k | 0 <= k < |b|
      ensures b[k].value in m && m[b[k].value] == k
    {
      if k != i {
        assert b[k] == pq.items[k];
      }
    }
  }

  // ---- Sifts run through the swap hook ----

  /** `_sift_down` of `MinHeap`, with each swap going through the hook. */
  function SiftDownHooked<T(==)>(a: seq<Item<T>>, m: map<T, int>, i: nat): (r: (seq<Item<T>>, map<T, int>))
    ensures r.0 == Heap.SiftDown(Heap.Min, a, i)
    ensures Consistent(a, m) ==> Consistent(r.0, r.1)
    decreases |a| - i
  {
    if i >= |a| then (a, m)
    else
      var best := Heap.BestOfThree(Heap.Min, a, i);
      if best != i then
        var (b, m1) := SwapHook(a, m, i, best);
        SiftDownHooked(b, m1, best)
      else (a, m)
  }

  /** `_sift_up` of `MinHeap`, with each swap going through the hook. */
  function SiftUpHooked<T(==)>(a: seq<Item<T>>, m: map<T, int>, i: nat): (r: (seq<Item<T>>, map<T, int>))
    requires i < |a|
    ensures r.0 == Heap.SiftUp(Heap.Min, a, i)
    ensures Consistent(a, m) ==> Consistent(r.0, r.1)
    decreases i
  {
    if i > 0 && Heap.Beats(Heap.Min, a[i].key, a[Heap.Parent(i)].key) then
      BinaryTree.ParentOfChild(i);
      var (b, m1) := SwapHook(a, m, i, Heap.Parent(i));
      SiftUpHooked(b, m1, Heap.Parent(i))
    else (a, m)
  }

  /** The sift-down loop of `heapify` through the swap hook. */
  function SiftDownAllHooked<T(==)>(a: seq<Item<T>>, m: map<T, int>, k: nat): (r: (seq<Item<T>>, map<T, int>))
    ensures r.0 == Heap.SiftDownAll(Heap.Min, a, k)
    ensures Consistent(a, m) ==> Consistent(r.0, r.1)
    decreases k
  {
    if k == 0 then (a, m)
    else
      var (b, m1) := SiftDownHooked(a, m, k - 1);
      SiftDownAllHooked(b, m1, k - 1)
  }

  // ---- Operations ----

  /** The `nodes` setter loop: each value is checked against the map built
      so far and then entered with its position. */
  function NodesSetter<T(==)>(m: map<T, int>, a: seq<Item<T>>, k: nat): (r: Result<map<T, int>, Heap.HeapError>)
    ensures r.Err? ==> r.error == Heap.DuplicateValue
    decreases |a| - k
  {
    if k >= |a| then Ok(m)
    else if a[k].value in m then Err(Heap.DuplicateValue)
    else NodesSetter(m[a[k].value := k], a, k + 1)
  }

  /** Starting from a map that tracks `a[..k]`, the setter succeeds exactly
      when all of `a`'s values are distinct, and then tracks all of `a`. */
  lemma {:induction false} NodesSetterTracks<T>(m: map<T, int>, a: seq<Item<T>>, k: nat)
    requires k <= |a| && Consistent(a[..k], m)
    ensures NodesSetter(m, a, k).Ok? <==> DistinctValues(a)
    ensures NodesSetter(m, a, k).Ok? ==> Consistent(a, NodesSetter(m, a, k).value)
    decreases |a| - k
  {
    ConsistentMeansDistinct(a[..k], m);
    if k >= |a| {
      assert a[..k] == a;
    } else if a[k].value in m {
      var j := m[a[k].value];
      assert a[..k][j] == a[j];
      assert !DistinctValues(a);
    } else {
      var m' := m[a[k].value := k];
      var p := a[..k + 1];
      forall x | 0 <= x < |p|
        ensures p[x].value in m' && m'[p[x].value] == x
      {
        if x < k {
          assert p[x] == a[..k][x];
        }
      }
      forall v | v in m'
        ensures 0 <= m'[v] < |p| && p[m'[v]].value == v
      {
        if v != a[k].value {
          assert a[..k][m[v]] == p[m[v]];
        }
      }
      NodesSetterTracks(m', a, k + 1);
    }
  }

  /** `PriorityQueue(iterable, keys)`: an empty map, then (when both are
      given) `heapify`, whose `nodes` assignment rejects a repeated value. */
  function New<T(==)>(values: Option<seq<T>>, keys: Option<seq<ExtInt>>): (r: Result<PQ<T>, Heap.HeapError>)
    ensures values.None? || keys.None? ==> r == Ok(PQ([], false, map[]))
    ensures values.Some? && keys.Some? ==>
      (r.Ok? <==> DistinctValues(Heap.Zip(keys.value, values.value)))
    ensures r.Err? ==> r.error == Heap.DuplicateValue
    ensures r.Ok? ==> AsHeap(r.value) == Heap.New(Heap.Min, values, keys)
    ensures r.Ok? ==> Valid(r.value)
  {
    if keys.Some? && values.Some? then
      var a := Heap.Zip(keys.value, values.value);
      assert a[..0] == [];
      NodesSetterTracks(map[], a, 0);
      var m :- NodesSetter(map[], a, 0);
      var start := Heap.Parent(|a| - 1) + 1;
      var (b, m2) := SiftDownAllHooked(a, m, start);
      assert Heap.Heapify(Heap.Min, keys.value, values.value).items == b;
      Ok(PQ(b, false, m2))
    else
      Ok(PQ([], false, map[]))
  }

  /** `insert` as written: `_check_unique`, then the heap's `insert`, whose
      `set_node(node_count(), item)` runs the hook. If an earlier extraction
      left the spare hole at that index, the hook reads `.value` off the
      sentinel and the insertion fails. */
  function Insert<T(==)>(pq: PQ<T>, key: ExtInt, value: T): (r: Result<PQ<T>, Heap.HeapError>)
    ensures r.Ok? <==> value !in pq.index && !pq.spare
    ensures value in pq.index ==> r == Err(Heap.DuplicateValue)
    ensures value !in pq.index && pq.spare ==> r == Err(Heap.SentinelHasNoValue)
    ensures r.Ok? ==> AsHeap(r.value) == Heap.Insert(AsHeap(pq), key, value)
    ensures r.Ok? && Valid(pq) ==> Valid(r.value)
  {
    if value in pq.index then Err(Heap.DuplicateValue)
    else
      var n := |pq.items|;
      var item := Heap.Item(key, value);
      var stored :- SetNodeHook(Heap.Storage(AsHeap(pq)), pq.index, n, item);
      var grown := pq.items + [item];
      InsertConsistent(pq, item, stored.1);
      var (a, m) := SiftUpHooked(grown, stored.1, n);
      Ok(PQ(a, false, m))
  }

  /** `insert` with the corrected `set_node` hook: only a repeated value is
      rejected, also after extractions. */
  function InsertFixed<T(==)>(pq: PQ<T>, key: ExtInt, value: T): (r: Result<PQ<T>, Heap.HeapError>)
    ensures r.Ok? <==> value !in pq.index
    ensures r.Err? ==> r.error == Heap.DuplicateValue
    ensures r.Ok? ==> AsHeap(r.value) == Heap.Insert(AsHeap(pq), key, value)
    ensures r.Ok? && Valid(pq) ==> Valid(r.value)
  {
    if value in pq.index then Err(Heap.DuplicateValue)
    else
      var n := |pq.items|;
      var item := Heap.Item(key, value);
      var s := Heap.Storage(AsHeap(pq));
      Heap.InsertIsTreeSetNode(AsHeap(pq), item);
      assert DropOldFixed(s, pq.index, n) == Ok(pq.index);
      var stored := SetNodeHookFixed(s, pq.index, n, item).value;
      var grown := pq.items + [item];
      InsertConsistent(pq, item, stored.1);
      var (a, m) := SiftUpHooked(grown, stored.1, n);
      Ok(PQ(a, false, m))
  }

  /** Appending a fresh value with a map entry at the new index keeps the
      map consistent. */
  lemma InsertConsistent<T>(pq: PQ<T>, item: Item<T>, m: map<T, int>)
    requires item.value !in pq.index
    requires m == pq.index[item.value := |pq.items|]
    ensures Consistent(pq.items, pq.index) ==> Consistent(pq.items + [item], m)
  {
    var g := pq.items + [item];
    if Consistent(pq.items, pq.index) {
      forall k | 0 <= k < |g|
        ensures g[k].value in m && m[g[k].value] == k
      {
        if k < |pq.items| {
          assert g[k] == pq.items[k];
        }
      }
    }
  }

  /** `extract_root` through the hooks: "heap underflow" when empty; the
      heap part then changes exactly as the plain min heap's does and the
      map keeps tracking the slots. */
  function ExtractRoot<T(==)>(pq: PQ<T>): (r: Result<(T, PQ<T>), Heap.HeapError>)
    ensures |pq.items| == 0 ==> r == Err(Heap.Underflow)
    ensures Consistent(pq.items, pq.index) ==> (r.Ok? <==> |pq.items| >= 1)
    ensures r.Ok? ==> Heap.ExtractRoot(AsHeap(pq)) == Ok((r.value.0, AsHeap(r.value.1)))
    ensures r.Ok? && Valid(pq) ==> Valid(r.value.1)
  {
    var n := |pq.items|;
    if n < 1 then Err(Heap.Underflow)
    else if n == 1 then
      var rem :- RemoveLastHook(pq.items, pq.index);
      assert pq.items[..0] == [];
      Heap.ExtractRootSingle(AsHeap(pq));
      Ok((pq.items[0].value, PQ([], false, rem.1)))
    else
      var (a, m1) := SwapHook(pq.items, pq.index, 0, n - 1);
      var rem :- RemoveLastHook(a, m1);
      var (b, m3) := SiftDownHooked(rem.0, rem.1, 0);
      Ok((pq.items[0].value, PQ(b, true, m3)))
  }

  /** `_decrease_key` of `MinHeap` through the hook: checks, `set_node`,
      sift up. */
  function DecreaseKeyHooked<T(==)>(pq: PQ<T>, i: int, key: ExtInt): (r: Result<PQ<T>, Heap.HeapError>)
    requires Consistent(pq.items, pq.index)
    ensures r.Ok? ==> Heap.DecreaseKey(AsHeap(pq), i, key) == Ok(AsHeap(r.value))
    ensures r.Ok? ==> Consistent(r.value.items, r.value.index)
    ensures r.Ok? <==> Heap.DecreaseKey(AsHeap(pq), i, key).Ok?
  {
    var cur :- Heap.NodeAt(AsHeap(pq), i);
    if Less(cur.key, key) then Err(Heap.KeyGreater)
    else
      RekeyThroughHook(pq, i, key);
      var stored := SetNodeHook(Heap.Storage(AsHeap(pq)), pq.index, i, Heap.Item(key, cur.value)).value;
      var (a, m) := SiftUpHooked(Heap.Rekey(pq.items, i, key), stored.1, i);
      Ok(PQ(a, pq.spare, m))
  }

  /** `_increase_key` of `MinHeap` through the hook: checks, `set_node`,
      sift down. */
  function IncreaseKeyHooked<T(==)>(pq: PQ<T>, i: int, key: ExtInt): (r: Result<PQ<T>, Heap.HeapError>)
    requires Consistent(pq.items, pq.index)
    ensures r.Ok? ==> Heap.IncreaseKey(AsHeap(pq), i, key) == Ok(AsHeap(r.value))
    ensures r.Ok? ==> Consistent(r.value.items, r.value.index)
    ensures r.Ok? <==> Heap.IncreaseKey(AsHeap(pq), i, key).Ok?
  {
    var cur :- Heap.NodeAt(AsHeap(pq), i);
    if Less(key, cur.key) then Err(Heap.KeySmaller)
    else
      RekeyThroughHook(pq, i, key);
      var stored := SetNodeHook(Heap.Storage(AsHeap(pq)), pq.index, i, Heap.Item(key, cur.value)).value;
      var (a, m) := SiftDownHooked(Heap.Rekey(pq.items, i, key), stored.1, i);
      Ok(PQ(a, pq.spare, m))
  }

  /** `update_value_priority`: an unknown value is a `ValueError`; otherwise
      the value's slot is found through the map and its key lowered or
      raised as `update_index_priority` would. Afterwards the value carries
      the new key and the queue is still valid. */
  function UpdateValuePriority<T(==)>(pq: PQ<T>, value: T, key: ExtInt): (r: Result<PQ<T>, Heap.HeapError>)
    requires Consistent(pq.items, pq.index)
    ensures r.Ok? <==> value in pq.index
    ensures value !in pq.index ==> r == Err(Heap.ValueNotFound)
    ensures r.Ok? ==> Heap.UpdateIndexPriority(AsHeap(pq), pq.index[value], key) == Ok(AsHeap(r.value))
    ensures r.Ok? ==> Consistent(r.value.items, r.value.index)
    ensures r.Ok? && Heap.Valid(AsHeap(pq)) ==> Heap.Valid(AsHeap(r.value))
    ensures r.Ok? ==> value in r.value.index && r.value.items[r.value.index[value]] == Heap.Item(key, value)
  {
    if value !in pq.index then Err(Heap.ValueNotFound)
    else
      var i := pq.index[value];
      var cur := ItemAt(Heap.Storage(AsHeap(pq)), i).value;
      var r := if Less(key, cur.key) then DecreaseKeyHooked(pq, i, key)
        else if Less(cur.key, key) then IncreaseKeyHooked(pq, i, key)
        else Ok(pq);
      UpdateLands(pq, value, key, r);
      r
  }

  lemma UpdateLands<T>(pq: PQ<T>, value: T, key: ExtInt, r: Result<PQ<T>, Heap.HeapError>)
    requires Consistent(pq.items, pq.index) && value in pq.index
    requires var i := pq.index[value];
      r == (if Less(key, pq.items[i].key) then DecreaseKeyHooked(pq, i, key)
        else if Less(pq.items[i].key, key) then IncreaseKeyHooked(pq, i, key)
        else Ok(pq))
    ensures r.Ok?
    ensures Heap.UpdateIndexPriority(AsHeap(pq), pq.index[value], key) == Ok(AsHeap(r.value))
    ensures Consistent(r.value.items, r.value.index)
    ensures value in r.value.index && r.value.items[r.value.index[value]] == Heap.Item(key, value)
  {
    var i := pq.index[value];
    var h := AsHeap(pq);
    LessIsStrictTotalOrder(key, pq.items[i].key, key);
    var after := r.value;
    assert multiset(after.items) == multiset(Heap.Rekey(pq.items, i, key));
    if key == pq.items[i].key {
      assert Heap.Rekey(pq.items, i, key) == pq.items;
    }
    var it := Heap.Item(key, value);
    assert it == Heap.Rekey(pq.items, i, key)[i];
    assert it in multiset(after.items);
    var k :| 0 <= k < |after.items| && after.items[k] == it;
  }

  /** As written, a queue of two or more items cannot take a new value
      after an extraction: the extraction leaves the spare hole at index
      `node_count()`, and `insert`'s `set_node` reads `.value` off it. */
  lemma InsertAfterExtractFails<T>(pq: PQ<T>, key: ExtInt, value: T)
    requires Valid(pq) && |pq.items| >= 2
    ensures ExtractRoot(pq).Ok?
    ensures var after := ExtractRoot(pq).value.1;
      value !in after.index ==> Insert(after, key, value) == Err(Heap.SentinelHasNoValue)
  {
  }

  /** The queue holding values 1 and 2 under keys 1 and 2. */
  function OneTwo(): PQ<int> {
    PQ([Heap.Item(Fin(1), 1), Heap.Item(Fin(2), 2)], false, map[1 := 0, 2 := 1])
  }

  /** A concrete instance: `OneTwo()` loses its root, and inserting
      value 3 then fails. */
  lemma InsertAfterExtractExample()
    ensures Valid(OneTwo()) && ExtractRoot(OneTwo()).Ok?
    ensures Insert(ExtractRoot(OneTwo()).value.1, Fin(3), 3) == Err(Heap.SentinelHasNoValue)
  {
    OneTwoValid();
    InsertAfterExtractFails(OneTwo(), Fin(3), 3);
    OneTwoAfterExtract();
  }

  lemma OneTwoValid()
    ensures Valid(OneTwo())
  {
    var pq := OneTwo();
    assert Heap.HeapOrdered(Heap.Min, pq.items) by {
      forall k | 1 <= k < |pq.items|
        ensures Heap.Dominates(Heap.Min, pq.items[Heap.Parent(k)].key, pq.items[k].key)
      {
        assert k == 1;
      }
    }
  }

  lemma OneTwoAfterExtract()
    requires Valid(OneTwo())
    ensures ExtractRoot(OneTwo()).Ok? && 3 !in ExtractRoot(OneTwo()).value.1.index
  {
    OneTwoLeavesOldItem();
    var after := ExtractRoot(OneTwo()).value.1;
    assert after.items[0].value != 3;
  }

  /** What `OneTwo()` keeps after an extraction is one of its own items. */
  lemma OneTwoLeavesOldItem()
    requires Valid(OneTwo())
    ensures ExtractRoot(OneTwo()).Ok?
    ensures var after := ExtractRoot(OneTwo()).value.1;
      && |after.items| == 1 && Consistent(after.items, after.index)
      && after.items[0] in multiset(OneTwo().items)
  {
    var pq := OneTwo();
    var after := ExtractRoot(pq).value.1;
    assert multiset(after.items) == multiset{after.items[0]};
    assert Heap.ExtractRoot(AsHeap(pq)).value.1 == AsHeap(after);
  }

  /** With the corrected hook, a fresh value can always be inserted after
      an extraction, and the queue stays valid. */
  lemma InsertFixedAfterExtract<T>(pq: PQ<T>, key: ExtInt, value: T)
    requires Valid(pq) && |pq.items| >= 1
    ensures ExtractRoot(pq).Ok?
    ensures var after := ExtractRoot(pq).value.1;
      && (InsertFixed(after, key, value).Ok? <==> value !in after.index)
      && (InsertFixed(after, key, value).Ok? ==> Valid(InsertFixed(after, key, value).value))
  {
  }
}
