/** The array-backed binary tree: a flat list of slots, each holding a
    payload or the hole marker the Python code calls `sentinel`. The node at
    index `i` has children at `2i+1` and `2i+2` and its parent at `(i-1)//2`.
    Storage grows with hole padding when a node is set past the end and
    shrinks by trimming trailing holes after a removal. */
module BinaryTree {
  import opened Results

  /** One storage slot: the `sentinel` hole or a stored payload. */
  datatype Slot<T> = Hole | Node(payload: T)

  /** The `ValueError`s the tree raises, told apart by their messages, plus
      the `IndexError` of a Python list assignment past the end. */
  datatype TreeError =
    | IndexOutOfRange        // "index out of range" / "... of tree nodes"
    | NullNode               // "index is null"
    | NoParent               // "node does not have parent"
    | NotLeaf                // "cannot remove non-leaf node"
    | EmptyTree              // "cannot return root of empty tree"
    | AssignmentOutOfRange   // list assignment index out of range

  // Index arithmetic. Dafny's `/` by a positive divisor rounds down, as
  // Python's `//` does, so `ParentIndex(0) == -1` in both.

  function ParentIndex(i: int): int { (i - 1) / 2 }

  function LeftIndex(i: int): int { 2 * i + 1 }

  function RightIndex(i: int): int { 2 * i + 2 }

  /** Both children of `i` have `i` as their parent, and the right child
      sits immediately after the left one. */
  lemma ChildrenOfParent(i: int)
    ensures ParentIndex(LeftIndex(i)) == i
    ensures ParentIndex(RightIndex(i)) == i
    ensures RightIndex(i) == LeftIndex(i) + 1
  {
  }

  /** Conversely, every non-root index is the left or right child of its
      parent, and the parent is a smaller, non-negative index. */
  lemma ParentOfChild(j: int)
    requires j >= 1
    ensures 0 <= ParentIndex(j) < j
    ensures j == LeftIndex(ParentIndex(j)) || j == RightIndex(ParentIndex(j))
  {
  }

  /** The `n` hole slots `_check_extend_internal` appends. */
  function Holes<T>(n: nat): (r: seq<Slot<T>>)
    ensures |r| == n
    ensures forall k :: 0 <= k < n ==> r[k].Hole?
  {
    seq(n, _ => Hole)
  }

  /** Number of occupied slots (`node_count`). */
  function NodeCount<T>(nodes: seq<Slot<T>>): (r: nat)
    ensures r <= |nodes|
  {
    if |nodes| == 0 then 0
    else NodeCount(nodes[..|nodes| - 1]) + (if nodes[|nodes| - 1].Node? then 1 else 0)
  }

  /** The indices of the occupied slots. */
  function Occupied<T>(nodes: seq<Slot<T>>): set<int> {
    set k | 0 <= k < |nodes| && nodes[k].Node?
  }

  /** `node_count` is the number of non-sentinel slots: the size of the set
      of occupied indices and the length minus the number of holes. */
  lemma {:induction false} NodeCountCountsOccupied<T>(nodes: seq<Slot<T>>)
    ensures NodeCount(nodes) == |Occupied(nodes)|
    ensures NodeCount(nodes) == |nodes| - multiset(nodes)[Hole]
  {
    if |nodes| > 0 {
      var init := nodes[..|nodes| - 1];
      NodeCountCountsOccupied(init);
      assert nodes == init + [nodes[|nodes| - 1]];
      if nodes[|nodes| - 1].Node? {
        assert Occupied(nodes) == Occupied(init) + {|nodes| - 1};
      } else {
        assert Occupied(nodes) == Occupied(init);
      }
    }
  }

  /** Storage with the same slots in another order has the same node count. */
  lemma NodeCountOfPermutation<T>(a: seq<Slot<T>>, b: seq<Slot<T>>)
    requires multiset(a) == multiset(b)
    ensures NodeCount(a) == NodeCount(b)
  {
    NodeCountCountsOccupied(a);
    NodeCountCountsOccupied(b);
    assert |a| == |multiset(a)| == |multiset(b)| == |b|;
  }

  /** `get_node`: out-of-range indices and hole slots are errors. */
  function GetNode<T>(nodes: seq<Slot<T>>, i: int): (r: Result<T, TreeError>)
    ensures r.Ok? <==> 0 <= i < |nodes| && nodes[i].Node?
    ensures r.Ok? ==> r.value == nodes[i].payload
    ensures r.Err? && 0 <= i < |nodes| ==> r.error == NullNode
    ensures r.Err? && !(0 <= i < |nodes|) ==> r.error == IndexOutOfRange
  {
    if i >= |nodes| || i < 0 then Err(IndexOutOfRange)
    else if nodes[i].Hole? then Err(NullNode)
    else Ok(nodes[i].payload)
  }

  /** `node_exists`: `get_node` succeeds. */
  predicate NodeExists<T>(nodes: seq<Slot<T>>, i: int) {
    GetNode(nodes, i).Ok?
  }

  /** `_check_extend_internal`: pad with holes up to length `i + 1`. */
  function CheckExtend<T>(nodes: seq<Slot<T>>, i: int): (r: seq<Slot<T>>)
    ensures |r| == if i >= |nodes| then i + 1 else |nodes|
    ensures r[..|nodes|] == nodes
    ensures forall k :: |nodes| <= k < |r| ==> r[k].Hole?
  {
    if i >= |nodes| then nodes + Holes(i + 1 - |nodes|) else nodes
  }

  /** `set_node`: a negative index is rejected, and so is a non-root index
      whose parent slot is absent; otherwise storage is padded up to `i + 1`
      and the value stored at `i`, every other slot keeping its content. */
  function SetNode<T>(nodes: seq<Slot<T>>, i: int, v: T): (r: Result<seq<Slot<T>>, TreeError>)
    ensures r.Ok? <==> i >= 0 && (i == 0 || NodeExists(nodes, ParentIndex(i)))
    ensures i < 0 ==> r == Err(IndexOutOfRange)
    ensures i > 0 && !NodeExists(nodes, ParentIndex(i)) ==> r == Err(NoParent)
    ensures r.Ok? ==> |r.value| == (if i < |nodes| then |nodes| else i + 1)
    ensures r.Ok? ==> r.value[i] == Node(v)
    ensures r.Ok? ==> forall k :: 0 <= k < |nodes| && k != i ==> r.value[k] == nodes[k]
    ensures r.Ok? ==> forall k :: |nodes| <= k < |r.value| && k != i ==> r.value[k].Hole?
  {
    if i < 0 then Err(IndexOutOfRange)
    else if i != 0 && GetNode(nodes, ParentIndex(i)).Err? then Err(NoParent)
    else Ok(CheckExtend(nodes, i)[i := Node(v)])
  }

  /** `set_node(i, v)` followed by `get_node(i)` gives back `v`, and leaves
      what `get_node` reports at every other existing index unchanged. */
  lemma SetThenGet<T>(nodes: seq<Slot<T>>, i: int, v: T)
    requires SetNode(nodes, i, v).Ok?
    ensures GetNode(SetNode(nodes, i, v).value, i) == Ok(v)
    ensures forall k :: 0 <= k < |nodes| && k != i ==>
      GetNode(SetNode(nodes, i, v).value, k) == GetNode(nodes, k)
  {
  }

  /** `is_leaf`: neither child index holds an occupied slot inside storage. */
  predicate IsLeaf<T>(nodes: seq<Slot<T>>, i: nat) {
    !((LeftIndex(i) < |nodes| && nodes[LeftIndex(i)].Node?)
      || (RightIndex(i) < |nodes| && nodes[RightIndex(i)].Node?))
  }

  /** A leaf is a node no occupied slot names as its parent. */
  lemma LeafHasNoOccupiedChild<T>(nodes: seq<Slot<T>>, i: nat)
    ensures IsLeaf(nodes, i) <==>
      forall k :: 1 <= k < |nodes| && ParentIndex(k) == i ==> nodes[k].Hole?
  {
    ChildrenOfParent(i);
    forall k | 1 <= k < |nodes| && ParentIndex(k) == i
      ensures k == LeftIndex(i) || k == RightIndex(i)
    {
      ParentOfChild(k);
    }
  }

  /** `add_left`: the index must be inside storage (it need not hold a node);
      storage is never extended, so a left child past the end is the list
      assignment `IndexError`. */
  function AddLeft<T>(nodes: seq<Slot<T>>, i: int, v: T): (r: Result<seq<Slot<T>>, TreeError>)
    ensures r.Ok? <==> 0 <= i && LeftIndex(i) < |nodes|
    ensures r.Ok? ==> r.value == nodes[LeftIndex(i) := Node(v)]
  {
    if i >= |nodes| || i < 0 then Err(IndexOutOfRange)
    else if LeftIndex(i) >= |nodes| then Err(AssignmentOutOfRange)
    else Ok(nodes[LeftIndex(i) := Node(v)])
  }

  /** `add_right`, the mirror of `add_left`. */
  function AddRight<T>(nodes: seq<Slot<T>>, i: int, v: T): (r: Result<seq<Slot<T>>, TreeError>)
    ensures r.Ok? <==> 0 <= i && RightIndex(i) < |nodes|
    ensures r.Ok? ==> r.value == nodes[RightIndex(i) := Node(v)]
  {
    if i >= |nodes| || i < 0 then Err(IndexOutOfRange)
    else if RightIndex(i) >= |nodes| then Err(AssignmentOutOfRange)
    else Ok(nodes[RightIndex(i) := Node(v)])
  }

  /** Python list indexing: `-len <= i < len` names one element. */
  predicate InListRange(len: nat, i: int) {
    -(len as int) <= i < len
  }

  function ListIndex(len: nat, i: int): (r: nat)
    requires InListRange(len, i)
    ensures r < len
    ensures i >= 0 ==> r == i
  {
    if i < 0 then len + i else i
  }

  /** Exchange two in-range slots. */
  function SwapSlots<T>(nodes: seq<Slot<T>>, a: nat, b: nat): (r: seq<Slot<T>>)
    requires a < |nodes| && b < |nodes|
    ensures |r| == |nodes|
    ensures r[a] == nodes[b] && r[b] == nodes[a]
    ensures forall k :: 0 <= k < |nodes| && k != a && k != b ==> r[k] == nodes[k]
    ensures multiset(r) == multiset(nodes)
    ensures NodeCount(r) == NodeCount(nodes)
  {
    var r := nodes[a := nodes[b]][b := nodes[a]];
    SwapIsPermutation(nodes, a, b);
    NodeCountOfPermutation(r, nodes);
    r
  }

  lemma SwapIsPermutation<X>(s: seq<X>, a: nat, b: nat)
    requires a < |s| && b < |s|
    ensures multiset(s[a := s[b]][b := s[a]]) == multiset(s)
  {
    if a != b {
      var t := s[a := s[b]];
      assert multiset(t) == multiset(s) - multiset{s[a]} + multiset{s[b]};
      assert multiset(t[b := s[a]]) == multiset(t) - multiset{t[b]} + multiset{s[a]};
    } else {
      assert s[a := s[b]][b := s[a]] == s;
    }
  }

  /** `swap`: exchanges exactly the two named slots, whatever they hold;
      indices follow Python list indexing, so negative ones count from the
      end and anything else is an `IndexError`. */
  function Swap<T>(nodes: seq<Slot<T>>, i: int, j: int): (r: Result<seq<Slot<T>>, TreeError>)
    ensures r.Ok? <==> InListRange(|nodes|, i) && InListRange(|nodes|, j)
    ensures r.Ok? ==> r.value == SwapSlots(nodes, ListIndex(|nodes|, i), ListIndex(|nodes|, j))
  {
    if !InListRange(|nodes|, i) || !InListRange(|nodes|, j) then Err(IndexOutOfRange)
    else Ok(SwapSlots(nodes, ListIndex(|nodes|, i), ListIndex(|nodes|, j)))
  }

  /** `root`: slot 0 as stored (the hole itself when slot 0 is a hole);
      an empty tree is an error. */
  function Root<T>(nodes: seq<Slot<T>>): (r: Result<Slot<T>, TreeError>)
    ensures r.Ok? <==> |nodes| >= 1
    ensures r.Ok? ==> r.value == nodes[0]
  {
    if |nodes| >= 1 then Ok(nodes[0]) else Err(EmptyTree)
  }

  /** The `for` loop of `_cleanup`: walking down from the last index, drop
      the last slot while it and the one before it are both holes. */
  function TrimHolePairs<T>(nodes: seq<Slot<T>>): (r: seq<Slot<T>>)
    ensures |r| <= |nodes| && r == nodes[..|r|]
    ensures forall k :: |r| <= k < |nodes| ==> nodes[k].Hole?
    ensures |nodes| >= 1 ==> |r| >= 1
    ensures |r| >= 2 ==> !(r[|r| - 1].Hole? && r[|r| - 2].Hole?)
    decreases |nodes|
  {
    if |nodes| >= 2 && nodes[|nodes| - 1].Hole? && nodes[|nodes| - 2].Hole? then
      var r := TrimHolePairs(nodes[..|nodes| - 1]);
      assert r == nodes[..|r|];
      r
    else
      nodes
  }

  /** `_cleanup`: it never deletes an occupied slot nor moves one to another
      index (the result is a prefix whose removed tail is all holes), and
      afterwards storage is empty, or a single occupied root, or ends in
      something other than two holes. */
  function Cleanup<T>(nodes: seq<Slot<T>>): (r: seq<Slot<T>>)
    ensures |r| <= |nodes| && r == nodes[..|r|]
    ensures forall k :: |r| <= k < |nodes| ==> nodes[k].Hole?
    ensures |r| == 1 ==> r[0].Node?
    ensures |r| >= 2 ==> !(r[|r| - 1].Hole? && r[|r| - 2].Hole?)
    ensures NodeCount(r) == NodeCount(nodes)
  {
    var t := TrimHolePairs(nodes);
    var r := if |t| == 1 && t[0].Hole? then [] else t;
    PrefixDropsOnlyHoles(nodes, |r|);
    r
  }

  /** Cutting off a tail of holes keeps the node count. */
  lemma {:induction false} PrefixDropsOnlyHoles<T>(nodes: seq<Slot<T>>, n: nat)
    requires n <= |nodes|
    requires forall k :: n <= k < |nodes| ==> nodes[k].Hole?
    ensures NodeCount(nodes[..n]) == NodeCount(nodes)
    decreases |nodes| - n
  {
    if n < |nodes| {
      var init := nodes[..|nodes| - 1];
      assert init[..n] == nodes[..n];
      PrefixDropsOnlyHoles(init, n);
    } else {
      assert nodes[..n] == nodes;
    }
  }

  /** Turning slot `i` into a hole lowers the count exactly when it was occupied. */
  lemma HoleDropsCount<T>(nodes: seq<Slot<T>>, i: nat)
    requires i < |nodes|
    ensures NodeCount(nodes[i := Hole]) == NodeCount(nodes) - (if nodes[i].Node? then 1 else 0)
  {
    var holed := nodes[i := Hole];
    if nodes[i].Node? {
      assert nodes == nodes[i := nodes[i]];
      assert multiset(holed) == multiset(nodes) - multiset{nodes[i]} + multiset{Hole};
    } else {
      assert holed == nodes;
    }
    NodeCountCountsOccupied(holed);
    NodeCountCountsOccupied(nodes);
  }

  /** `remove`: only an in-range leaf can be removed; its slot becomes a hole
      and `_cleanup` then trims storage. The node count drops by one when the
      slot was occupied. */
  function Remove<T>(nodes: seq<Slot<T>>, i: int): (r: Result<seq<Slot<T>>, TreeError>)
    ensures r.Ok? <==> 0 <= i < |nodes| && IsLeaf(nodes, i)
    ensures !(0 <= i < |nodes|) ==> r == Err(IndexOutOfRange)
    ensures 0 <= i < |nodes| && !IsLeaf(nodes, i) ==> r == Err(NotLeaf)
    ensures r.Ok? ==> r.value == Cleanup(nodes[i := Hole])
    ensures r.Ok? ==> !NodeExists(r.value, i)
    ensures r.Ok? ==> NodeCount(r.value) == NodeCount(nodes) - (if nodes[i].Node? then 1 else 0)
  {
    if i >= |nodes| || i < 0 then Err(IndexOutOfRange)
    else if IsLeaf(nodes, i) then
      var holed := nodes[i := Hole];
      HoleDropsCount(nodes, i);
      Ok(Cleanup(holed))
    else Err(NotLeaf)
  }

  /** Invariant I2 of the tree: every occupied non-root slot has an occupied
      parent slot. */
  ghost predicate NoOrphans<T>(nodes: seq<Slot<T>>) {
    forall k :: 1 <= k < |nodes| && nodes[k].Node? ==> nodes[ParentIndex(k)].Node?
  }

  /** `set_node` keeps every node attached to its parent. */
  lemma SetNodeKeepsNoOrphans<T>(nodes: seq<Slot<T>>, i: int, v: T)
    requires NoOrphans(nodes)
    requires SetNode(nodes, i, v).Ok?
    ensures NoOrphans(SetNode(nodes, i, v).value)
  {
    var r := SetNode(nodes, i, v).value;
    forall k | 1 <= k < |r| && r[k].Node?
      ensures r[ParentIndex(k)].Node?
    {
      ParentOfChild(k);
    }
  }

  /** `remove` keeps every node attached to its parent: it only removes
      leaves, and `_cleanup` only cuts a tail of holes. */
  lemma RemoveKeepsNoOrphans<T>(nodes: seq<Slot<T>>, i: int)
    requires NoOrphans(nodes)
    requires Remove(nodes, i).Ok?
    ensures NoOrphans(Remove(nodes, i).value)
  {
    var holed := nodes[i := Hole];
    LeafHasNoOccupiedChild(nodes, i);
    forall k | 1 <= k < |holed| && holed[k].Node?
      ensures holed[ParentIndex(k)].Node?
    {
      ParentOfChild(k);
    }
    var r := Remove(nodes, i).value;
    forall k | 1 <= k < |r| && r[k].Node?
      ensures r[ParentIndex(k)].Node?
    {
      ParentOfChild(k);
      assert r[k] == holed[k];
      assert r[ParentIndex(k)] == holed[ParentIndex(k)];
    }
  }

  /** `add_left` does not check that node `i` exists, so it can create a node
      whose parent slot is a hole: here a left child under a hole root. */
  lemma AddLeftCanOrphan()
    ensures var r := AddLeft([Hole, Hole], 0, 7);
      r.Ok? && !NoOrphans(r.value)
  {
    var r := AddLeft([Hole, Hole], 0, 7).value;
    assert r[1].Node? && r[ParentIndex(1)].Hole?;
  }

  /** On an empty tree `root`, `remove(0)`, `get_node(0)`, `add_left(0, _)`
      and `add_right(0, _)` all fail. */
  lemma EmptyTreeRejects<T>(v: T)
    ensures Root<T>([]).Err? && Remove<T>([], 0).Err? && GetNode<T>([], 0).Err?
    ensures AddLeft([], 0, v).Err? && AddRight([], 0, v).Err?
  {
  }
}
