/** `SimpleGraph` of datastructures/graph.py: an adjacency matrix of integer
    weights (0 meaning "no edge"), Dijkstra's algorithm driven by the
    priority queue of heap.py, and the walk back along `prev`. */
module Graph {
  import opened Results
  import opened ExtInt
  import BinaryTree
  import Heap
  import PriorityQueue

  /** The two constructor `ValueError`s, a list `IndexError`, and a `prev`
      chain that never reaches `None` (the Python loop does not stop). */
  datatype GraphError = BothGiven | NeitherGiven | IndexOutOfRange | Loops

  datatype Graph = Graph(size: int, adj: seq<seq<int>>)

  /** The nodes are `range(size)`; a negative size gives none. */
  function Nodes(g: Graph): nat {
    if g.size < 0 then 0 else g.size
  }

  /** Python list indexing, shared with the tree module. */
  predicate InRange(len: nat, i: int) {
    BinaryTree.InListRange(len, i)
  }

  /** No edge anywhere, and an `n` by `n` shape. */
  ghost predicate Disconnected(g: Graph) {
    && |g.adj| == Nodes(g)
    && (forall i :: 0 <= i < |g.adj| ==> |g.adj[i]| == |g.adj|)
    && (forall i, j :: 0 <= i < |g.adj| && 0 <= j < |g.adj[i]| ==> g.adj[i][j] == 0)
  }

  /** `[[0] * size for _ in range(size)]`. */
  function Zeros(n: int): (r: seq<seq<int>>)
    ensures |r| == (if n < 0 then 0 else n)
    ensures forall i :: 0 <= i < |r| ==> r[i] == seq(|r|, _ => 0)
  {
    if n <= 0 then [] else seq(n, _ => seq(n, _ => 0))
  }

  /** `SimpleGraph(size, adj_mat)`: exactly one of the two must be given;
      a given matrix is taken as is and its length is the size. */
  function New(size: Option<int>, adjMat: Option<seq<seq<int>>>): (r: Result<Graph, GraphError>)
    ensures r.Err? <==> (size.Some? <==> adjMat.Some?)
    ensures size.Some? && adjMat.Some? ==> r == Err(BothGiven)
    ensures size.None? && adjMat.None? ==> r == Err(NeitherGiven)
    ensures adjMat.Some? && size.None? ==> r == Ok(Graph(|adjMat.value|, adjMat.value))
    ensures size.Some? && adjMat.None? ==> r.Ok? && r.value.size == size.value && Disconnected(r.value)
  {
    if size.Some? && adjMat.Some? then Err(BothGiven)
    else if adjMat.Some? then Ok(Graph(|adjMat.value|, adjMat.value))
    else if size.Some? then Ok(Graph(size.value, Zeros(size.value)))
    else Err(NeitherGiven)
  }

  // ---------------------------------------------------------------------
  // Edges and paths
  // ---------------------------------------------------------------------

  /** An edge from `u` to `v`: a non-zero matrix entry. */
  ghost predicate Edge(g: Graph, u: int, v: int) {
    0 <= u < |g.adj| && 0 <= v < |g.adj[u]| && g.adj[u][v] != 0
  }

  /** The matrix entry, 0 off the matrix. */
  function EdgeWeight(g: Graph, u: int, v: int): int {
    if 0 <= u < |g.adj| && 0 <= v < |g.adj[u]| then g.adj[u][v] else 0
  }

  /** A walk over nodes along edges. */
  ghost predicate IsPath(g: Graph, p: seq<int>) {
    && |p| >= 1
    && (forall i :: 0 <= i < |p| ==> 0 <= p[i] < Nodes(g))
    && (forall i, j :: 0 <= i && j == i + 1 && j < |p| ==> Edge(g, p[i], p[j]))
  }

  /** A path from `s` to `t`. */
  ghost predicate Leads(g: Graph, p: seq<int>, s: int, t: int) {
    IsPath(g, p) && p[0] == s && p[|p| - 1] == t
  }

  /** The sum of the weights along `p`. */
  ghost function PathWeight(g: Graph, p: seq<int>): int
    decreases |p|
  {
    if |p| <= 1 then 0 else PathWeight(g, p[..|p| - 1]) + EdgeWeight(g, p[|p| - 2], p[|p| - 1])
  }

  /** Every weight is at least 0, as Dijkstra's algorithm assumes. */
  ghost predicate NonNegative(g: Graph) {
    forall u, v :: 0 <= u < |g.adj| && 0 <= v < |g.adj[u]| ==> g.adj[u][v] >= 0
  }

  /** A graph built from a size has no edge, so no path but the one-node
      paths. */
  lemma DisconnectedHasNoPaths(g: Graph)
    requires Disconnected(g)
    ensures forall u, v :: !Edge(g, u, v)
    ensures forall p :: IsPath(g, p) ==> |p| == 1
  {
    forall u, v
      ensures !Edge(g, u, v)
    {
    }
    forall p | IsPath(g, p)
      ensures |p| == 1
    {
      FirstEdge(g, p);
    }
  }

  lemma FirstEdge(g: Graph, p: seq<int>)
    requires IsPath(g, p)
    ensures |p| >= 2 ==> Edge(g, p[0], p[1])
  {
  }

  lemma PrefixIsPath(g: Graph, p: seq<int>, j: int)
    requires IsPath(g, p) && 1 <= j <= |p|
    ensures IsPath(g, p[..j])
  {
    forall i, k | 0 <= i && k == i + 1 && k < j
      ensures Edge(g, p[..j][i], p[..j][k])
    {
      assert p[..j][i] == p[i] && p[..j][k] == p[k];
    }
  }

  /** One more edge at the end of a path adds its weight. */
  lemma ExtendPath(g: Graph, p: seq<int>, v: int)
    requires IsPath(g, p) && 0 <= v < Nodes(g) && Edge(g, p[|p| - 1], v)
    ensures IsPath(g, p + [v])
    ensures PathWeight(g, p + [v]) == PathWeight(g, p) + g.adj[p[|p| - 1]][v]
  {
    ExtendWeight(g, p, v);
    var q := p + [v];
    forall i | 0 <= i < |q|
      ensures 0 <= q[i] < Nodes(g)
    {
      if i < |p| {
        assert q[i] == p[i];
      }
    }
    forall i, j | 0 <= i && j == i + 1 && j < |q|
      ensures Edge(g, q[i], q[j])
    {
      if j < |p| {
        assert q[i] == p[i] && q[j] == p[j];
      }
    }
  }

  lemma ExtendWeight(g: Graph, p: seq<int>, v: int)
    requires |p| >= 1
    ensures PathWeight(g, p + [v]) == PathWeight(g, p) + EdgeWeight(g, p[|p| - 1], v)
  {
    var q := p + [v];
    assert q[..|q| - 1] == p;
    assert q[|q| - 2] == p[|p| - 1] && q[|q| - 1] == v;
  }

  /** With non-negative weights a prefix weighs no more than the path. */
  lemma {:induction false} PrefixLighter(g: Graph, p: seq<int>, j: int)
    requires NonNegative(g) && IsPath(g, p) && 1 <= j <= |p|
    ensures PathWeight(g, p[..j]) <= PathWeight(g, p)
    decreases |p| - j
  {
    if j < |p| {
      var q := p[..|p| - 1];
      assert q[..j] == p[..j];
      PrefixIsPath(g, p, |p| - 1);
      PrefixLighter(g, q, j);
      assert Edge(g, p[|p| - 2], p[|p| - 1]);
    } else {
      assert p[..j] == p;
    }
  }

  lemma WeightNonNegative(g: Graph, p: seq<int>)
    requires NonNegative(g) && IsPath(g, p)
    ensures PathWeight(g, p) >= 0
  {
    PrefixLighter(g, p, 1);
  }

  // ---------------------------------------------------------------------
  // set_edge_weight
  // ---------------------------------------------------------------------

  /** Row `i`, column `j` of a list of lists under Python indexing. */
  predicate InMatrix(a: seq<seq<int>>, i: int, j: int) {
    InRange(|a|, i) && InRange(|a[BinaryTree.ListIndex(|a|, i)]|, j)
  }

  function Cell(a: seq<seq<int>>, i: int, j: int): (r: (nat, nat))
    requires InMatrix(a, i, j)
    ensures r.0 < |a| && r.1 < |a[r.0]|
  {
    var x := BinaryTree.ListIndex(|a|, i);
    (x, BinaryTree.ListIndex(|a[x]|, j))
  }

  ghost predicate SameShape(a: seq<seq<int>>, b: seq<seq<int>>) {
    |a| == |b| && forall x :: 0 <= x < |a| ==> |a[x]| == |b[x]|
  }

  /** `a[i][j] = w`. */
  function Assign(a: seq<seq<int>>, i: int, j: int, w: int): (r: Result<seq<seq<int>>, GraphError>)
    ensures r.Ok? <==> InMatrix(a, i, j)
    ensures r.Err? ==> r.error == IndexOutOfRange
    ensures r.Ok? ==> SameShape(a, r.value)
    ensures r.Ok? ==> forall x, y :: 0 <= x < |a| && 0 <= y < |a[x]| ==>
      r.value[x][y] == (if (x, y) == Cell(a, i, j) then w else a[x][y])
  {
    if !InMatrix(a, i, j) then Err(IndexOutOfRange)
    else
      var (x, y) := Cell(a, i, j);
      Ok(a[x := a[x][y := w]])
  }

  /** `set_edge_weight`: entry `[source][target]`, and `[target][source]`
      unless `directed`; nothing else changes. The second write indexes
      the already written matrix, which has the first one's shape. */
  function SetEdgeWeight(g: Graph, source: int, target: int, weight: int, directed: bool): (r: Result<Graph, GraphError>)
    ensures r.Ok? <==> InMatrix(g.adj, source, target) && (directed || InMatrix(g.adj, target, source))
    ensures r.Err? ==> r.error == IndexOutOfRange
    ensures r.Ok? ==> r.value.size == g.size && SameShape(g.adj, r.value.adj)
    ensures r.Ok? ==> forall x, y :: 0 <= x < |g.adj| && 0 <= y < |g.adj[x]| ==>
      r.value.adj[x][y] ==
        (if (x, y) == Cell(g.adj, source, target) || (!directed && (x, y) == Cell(g.adj, target, source))
         then weight else g.adj[x][y])
  {
    var a1 :- Assign(g.adj, source, target, weight);
    if directed then Ok(g.(adj := a1))
    else
      assert InMatrix(a1, target, source) <==> InMatrix(g.adj, target, source);
      var a2 :- Assign(a1, target, source, weight);
      assert Cell(a1, target, source) == Cell(g.adj, target, source);
      Ok(g.(adj := a2))
  }

  ghost predicate Symmetric(g: Graph) {
    && (forall x :: 0 <= x < |g.adj| ==> |g.adj[x]| == |g.adj|)
    && (forall x, y :: 0 <= x < |g.adj| && 0 <= y < |g.adj| ==> g.adj[x][y] == g.adj[y][x])
  }

  /** An undirected edge write on a square matrix with in-range node
      numbers keeps the matrix symmetric, and the edge carries the weight. */
  lemma UndirectedStaysSymmetric(g: Graph, s: int, t: int, w: int)
    requires Symmetric(g) && 0 <= s < |g.adj| && 0 <= t < |g.adj|
    ensures SetEdgeWeight(g, s, t, w, false).Ok?
    ensures var h := SetEdgeWeight(g, s, t, w, false).value;
      Symmetric(h) && h.adj[s][t] == w && h.adj[t][s] == w
  {
    var h := SetEdgeWeight(g, s, t, w, false).value;
    assert Cell(g.adj, s, t) == (s, t) && Cell(g.adj, t, s) == (t, s);
  }

  // ---------------------------------------------------------------------
  // The priority queue as Dijkstra uses it
  // ---------------------------------------------------------------------

  type Queue = PriorityQueue.PQ<int>

  /** The queue holds exactly one item per unvisited node, keyed by the
      node's current distance. */
  ghost predicate QueueIs(pq: Queue, dist: seq<ExtInt>, visited: set<int>) {
    && PriorityQueue.Valid(pq)
    && forall v, k :: Heap.Item(k, v) in pq.items <==> (0 <= v < |dist| && v !in visited && k == dist[v])
  }

  lemma CountOne<T>(s: seq<T>, i: int)
    requires 0 <= i < |s| && forall j :: 0 <= j < |s| && j != i ==> s[j] != s[i]
    ensures multiset(s)[s[i]] == 1
  {
    assert s == s[..i] + [s[i]] + s[i + 1..];
    assert s[i] !in s[..i];
    assert s[i] !in s[i + 1..];
  }

  /** `extract_root` on the queue: the root's node leaves it, the rest
      stay with their keys, and the root's key is the least. */
  lemma ExtractTracks(pq: Queue, node: int, pq2: Queue)
    requires PriorityQueue.Valid(pq) && PriorityQueue.ExtractRoot(pq) == Ok((node, pq2))
    ensures PriorityQueue.Valid(pq2) && |pq2.items| == |pq.items| - 1
    ensures |pq.items| >= 1 && pq.items[0].value == node && pq.items[0] in pq.items
    ensures forall x :: x in pq.items ==> LessEq(pq.items[0].key, x.key)
    ensures forall v, k :: Heap.Item(k, v) in pq2.items <==> Heap.Item(k, v) in pq.items && v != node
  {
    var h := PriorityQueue.AsHeap(pq);
    assert Heap.ExtractRoot(h) == Ok((node, PriorityQueue.AsHeap(pq2)));
    var root := pq.items[0];
    Heap.RootDominatesAll(h);
    forall x | x in pq.items
      ensures LessEq(root.key, x.key)
    {
      assert x in multiset(h.items);
      Heap.DominatesMeans(Heap.Min, root.key, x.key);
    }
    PriorityQueue.ConsistentMeansDistinct(pq.items, pq.index);
    CountOne(pq.items, 0);
    assert multiset(pq2.items)[root] == 0;
    forall v, k
      ensures Heap.Item(k, v) in pq2.items <==> Heap.Item(k, v) in pq.items && v != node
    {
      var x := Heap.Item(k, v);
      if x in pq.items && v == node {
        var j :| 0 <= j < |pq.items| && pq.items[j] == x;
        assert j == 0;
      }
      assert x in pq2.items <==> x in multiset(pq2.items);
      assert x in pq.items <==> x in multiset(pq.items);
    }
  }

  /** `update_value_priority(value, key)` on the queue: `value` now carries
      `key`, every other item is unchanged. */
  lemma UpdateTracks(pq: Queue, value: int, key: ExtInt, pq2: Queue)
    requires PriorityQueue.Valid(pq) && value in pq.index
    requires PriorityQueue.UpdateValuePriority(pq, value, key) == Ok(pq2)
    ensures PriorityQueue.Valid(pq2) && |pq2.items| == |pq.items|
    ensures forall v, k :: Heap.Item(k, v) in pq2.items <==>
      (if v == value then k == key else Heap.Item(k, v) in pq.items)
  {
    var i := pq.index[value];
    var a := Heap.Rekey(pq.items, i, key);
    assert multiset(pq2.items) == multiset(a);
    assert |pq2.items| == |multiset(pq2.items)|;
    PriorityQueue.ConsistentMeansDistinct(pq.items, pq.index);
    forall v, k
      ensures Heap.Item(k, v) in pq2.items <==> (if v == value then k == key else Heap.Item(k, v) in pq.items)
    {
      var x := Heap.Item(k, v);
      assert x in pq2.items <==> x in multiset(a);
      if x in a {
        var j :| 0 <= j < |a| && a[j] == x;
        if j != i {
          assert pq.items[j] == x;
        }
      }
      if v == value && k == key {
        assert a[i] == x;
      }
      if v != value && x in pq.items {
        var j :| 0 <= j < |pq.items| && pq.items[j] == x;
        assert a[j] == x;
      }
    }
  }

  function Range(n: nat): (r: seq<int>)
    ensures |r| == n && forall i :: 0 <= i < n ==> r[i] == i
  {
    seq(n, i => i)
  }

  /** `PriorityQueue(list(range(size)), dist)`: one item per node. */
  lemma StartTracks(dist: seq<ExtInt>)
    ensures PriorityQueue.New(Some(Range(|dist|)), Some(dist)).Ok?
    ensures QueueIs(PriorityQueue.New(Some(Range(|dist|)), Some(dist)).value, dist, {})
  {
    var z := Heap.Zip(dist, Range(|dist|));
    assert PriorityQueue.DistinctValues(z);
    var pq := PriorityQueue.New(Some(Range(|dist|)), Some(dist)).value;
    assert multiset(pq.items) == multiset(z);
    forall v, k
      ensures Heap.Item(k, v) in pq.items <==> (0 <= v < |dist| && k == dist[v])
    {
      assert Heap.Item(k, v) in pq.items <==> Heap.Item(k, v) in multiset(z);
      if 0 <= v < |dist| && k == dist[v] {
        assert z[v] == Heap.Item(k, v);
      }
    }
  }

  // ---------------------------------------------------------------------
  // dijkstra_path
  // ---------------------------------------------------------------------

  /** Every row the algorithm reads exists and is long enough: each node
      is extracted, and its row read at every neighbor index. */
  predicate Readable(g: Graph) {
    forall i :: 0 <= i < Nodes(g) ==> i < |g.adj| && Nodes(g) <= |g.adj[i]|
  }

  lemma ReadableRow(g: Graph, i: int)
    requires Readable(g) && 0 <= i < Nodes(g)
    ensures i < |g.adj| && Nodes(g) <= |g.adj[i]|
  {
  }

  /** Every relaxation from a visited node to an unvisited one is done. */
  ghost predicate RelaxedFrom(g: Graph, dist: seq<ExtInt>, from: set<int>, visited: set<int>) {
    forall x, y :: x in from && 0 <= x < |dist| && 0 <= y < |dist| && y !in visited && Edge(g, x, y) ==>
      LessEq(dist[y], Plus(dist[x], g.adj[x][y]))
  }

  /** `prev` explains `dist`: the source at 0 with no predecessor; any other
      node either unreached (`inf`, no predecessor) or reached over an edge
      from its predecessor, whose distance plus the edge is its own. */
  ghost predicate PrevSound(g: Graph, src: int, dist: seq<ExtInt>, prev: seq<Option<int>>) {
    && |dist| == Nodes(g) && |prev| == Nodes(g) && 0 <= src < Nodes(g)
    && dist[src] == Fin(0) && prev[src] == None
    && (forall v :: 0 <= v < |prev| && prev[v].None? && v != src ==> dist[v] == Inf)
    && (forall v :: 0 <= v < |prev| && prev[v].Some? ==>
          && 0 <= prev[v].value < Nodes(g) && Edge(g, prev[v].value, v) && dist[v].Fin?
          && dist[v] == Plus(dist[prev[v].value], g.adj[prev[v].value][v]))
  }

  /** No path from the source is shorter than the distance of a node in `at`. */
  ghost predicate OptimalAt(g: Graph, src: int, dist: seq<ExtInt>, at: set<int>) {
    forall v, p :: v in at && 0 <= v < |dist| && Leads(g, p, src, v) ==> LessEq(dist[v], Fin(PathWeight(g, p)))
  }

  ghost predicate DistNonNegative(dist: seq<ExtInt>) {
    forall v :: 0 <= v < |dist| && dist[v].Fin? ==> dist[v].n >= 0
  }

  /** The graph can be read, the source is a node, and so is every
      visited node. */
  ghost predicate Frame(g: Graph, src: int, visited: set<int>) {
    && Readable(g) && 0 <= src < Nodes(g)
    && (forall v :: v in visited ==> 0 <= v < Nodes(g))
  }

  /** `prev` explains `dist`, through visited predecessors only. */
  ghost predicate Sound(g: Graph, src: int, dist: seq<ExtInt>, prev: seq<Option<int>>, visited: set<int>) {
    && PrevSound(g, src, dist, prev)
    && (forall v :: 0 <= v < |prev| && prev[v].Some? ==> prev[v].value in visited)
  }

  /** With non-negative weights the visited nodes have their final
      distances. */
  ghost predicate Final(g: Graph, src: int, dist: seq<ExtInt>, visited: set<int>) {
    NonNegative(g) ==> OptimalAt(g, src, dist, visited) && DistNonNegative(dist)
  }

  /** What holds between two extractions; `visited` is the set of nodes
      extracted so far, `src` the source as a list index. */
  ghost predicate Invariant(g: Graph, src: int, dist: seq<ExtInt>, prev: seq<Option<int>>, pq: Queue, visited: set<int>) {
    && Frame(g, src, visited)
    && Sound(g, src, dist, prev, visited)
    && (visited != {} ==> src in visited)
    && QueueIs(pq, dist, visited)
    && RelaxedFrom(g, dist, visited, visited)
    && Final(g, src, dist, visited)
  }

  /** The first node of `p` from `i` on that is not in `s`. */
  ghost function FirstOutside(p: seq<int>, s: set<int>, i: nat): (j: nat)
    requires i < |p| && p[|p| - 1] !in s
    ensures i <= j < |p| && p[j] !in s
    ensures forall k :: i <= k < j ==> p[k] in s
    decreases |p| - i
  {
    if p[i] !in s then i else FirstOutside(p, s, i + 1)
  }

  /** The heart of Dijkstra's algorithm: with non-negative weights the
      unvisited node of least distance has its final distance, because any
      path to it leaves the visited set somewhere, and from there on it
      cannot get lighter. */
  lemma NodeOptimal(g: Graph, src: int, dist: seq<ExtInt>, visited: set<int>, node: int)
    requires NonNegative(g) && |dist| == Nodes(g) && 0 <= src < |dist| && dist[src] == Fin(0)
    requires 0 <= node < |dist| && node !in visited
    requires forall v :: 0 <= v < |dist| && v !in visited ==> LessEq(dist[node], dist[v])
    requires RelaxedFrom(g, dist, visited, visited)
    requires OptimalAt(g, src, dist, visited)
    ensures OptimalAt(g, src, dist, visited + {node})
  {
    forall v, p | v in visited + {node} && 0 <= v < |dist| && Leads(g, p, src, v)
      ensures LessEq(dist[v], Fin(PathWeight(g, p)))
    {
      if v == node && node !in visited {
        var j := FirstOutside(p, visited, 0);
        var y := p[j];
        assert 0 <= y < |dist|;
        if j == 0 {
          WeightNonNegative(g, p);
        } else {
          var x := p[j - 1];
          assert Edge(g, x, y);
          PrefixIsPath(g, p, j);
          assert Leads(g, p[..j], src, x);
          var w := PathWeight(g, p[..j]);
          assert LessEq(dist[x], Fin(w));
          assert p[..j + 1][..j] == p[..j];
          assert PathWeight(g, p[..j + 1]) == w + g.adj[x][y];
          PrefixLighter(g, p, j + 1);
        }
      }
    }
  }

  /** `extract_root` seen through `QueueIs`: the node is an unvisited one
      of least distance, and it leaves the queue. */
  lemma ExtractFromQueue(pq: Queue, dist: seq<ExtInt>, visited: set<int>, node: int, pq1: Queue)
    requires QueueIs(pq, dist, visited) && PriorityQueue.ExtractRoot(pq) == Ok((node, pq1))
    ensures 0 <= node < |dist| && node !in visited
    ensures forall v :: 0 <= v < |dist| && v !in visited ==> LessEq(dist[node], dist[v])
    ensures QueueIs(pq1, dist, visited + {node}) && |pq1.items| == |pq.items| - 1
  {
    ExtractTracks(pq, node, pq1);
    var root := pq.items[0];
    assert Heap.Item(root.key, node) == root;
    forall v | 0 <= v < |dist| && v !in visited
      ensures LessEq(dist[node], dist[v])
    {
      assert Heap.Item(dist[v], v) in pq.items;
    }
  }

  /** The edges of `node` to the neighbors below `nb` are relaxed. */
  ghost predicate RelaxedBelow(g: Graph, dist: seq<ExtInt>, node: int, nb: int, visited: set<int>) {
    forall y :: 0 <= y < nb && 0 <= y < |dist| && 0 <= node < |dist| && y !in visited && Edge(g, node, y) ==>
      LessEq(dist[y], Plus(dist[node], g.adj[node][y]))
  }

  /** What holds inside the inner loop before neighbor `nb`. */
  ghost predicate InnerInvariant(g: Graph, src: int, node: int, nb: int, dist: seq<ExtInt>, prev: seq<Option<int>>,
                                 pq: Queue, visited: set<int>) {
    && Frame(g, src, visited) && node in visited && src in visited && 0 <= nb <= Nodes(g)
    && node < |g.adj| && Nodes(g) <= |g.adj[node]|
    && Sound(g, src, dist, prev, visited)
    && QueueIs(pq, dist, visited)
    && RelaxedFrom(g, dist, visited - {node}, visited)
    && RelaxedBelow(g, dist, node, nb, visited)
    && Final(g, src, dist, visited)
  }

  /** After an extraction the inner loop can start: the node is visited,
      out of the queue, and (with non-negative weights) final. The first
      node extracted is the source, the only one not at `inf`. */
  lemma AfterExtract(g: Graph, src: int, dist: seq<ExtInt>, prev: seq<Option<int>>, pq: Queue,
                     visited: set<int>, node: int, pq1: Queue)
    requires Invariant(g, src, dist, prev, pq, visited)
    requires PriorityQueue.ExtractRoot(pq) == Ok((node, pq1))
    ensures node !in visited && |pq1.items| == |pq.items| - 1
    ensures InnerInvariant(g, src, node, 0, dist, prev, pq1, visited + {node})
  {
    ExtractFromQueue(pq, dist, visited, node, pq1);
    if visited == {} {
      assert prev[node].None?;
      assert LessEq(dist[node], dist[src]);
      assert node == src;
    }
    ReadableRow(g, node);
    assert (visited + {node}) - {node} == visited;
    if NonNegative(g) {
      NodeOptimal(g, src, dist, visited, node);
    }
  }

  /** One pass of the inner loop: `neighbor` is skipped when visited or
      not adjacent; otherwise, when the way through `node` is shorter,
      `dist` and `prev` record it and the queue gets the new key. */
  function Relax(g: Graph, node: int, neighbor: int, dist: seq<ExtInt>, prev: seq<Option<int>>,
                 pq: Queue, visited: set<int>): (r: (seq<ExtInt>, seq<Option<int>>, Queue))
    requires 0 <= node < |g.adj| && 0 <= neighbor < |g.adj[node]|
    requires 0 <= node < |dist| && 0 <= neighbor < |dist| && |prev| == |dist| && QueueIs(pq, dist, visited)
    ensures var alt := Plus(dist[node], g.adj[node][neighbor]);
      if neighbor in visited || g.adj[node][neighbor] == 0 || !Less(alt, dist[neighbor]) then r == (dist, prev, pq)
      else r.0 == dist[neighbor := alt] && r.1 == prev[neighbor := Some(node)]
    ensures QueueIs(r.2, r.0, visited) && |r.2.items| == |pq.items|
  {
    var weight := g.adj[node][neighbor];
    if neighbor in visited || weight == 0 then (dist, prev, pq)
    else
      var alt := Plus(dist[node], weight);
      if Less(alt, dist[neighbor]) then
        assert Heap.Item(dist[neighbor], neighbor) in pq.items;
        var pq2 := PriorityQueue.UpdateValuePriority(pq, neighbor, alt).value;
        UpdateTracks(pq, neighbor, alt, pq2);
        (dist[neighbor := alt], prev[neighbor := Some(node)], pq2)
      else (dist, prev, pq)
  }

  /** A shorter way to the unvisited `nb` through the visited `node` keeps
      `prev` explaining `dist`. */
  lemma SoundAfterUpdate(g: Graph, src: int, dist: seq<ExtInt>, prev: seq<Option<int>>, visited: set<int>,
                         node: int, nb: int)
    requires Sound(g, src, dist, prev, visited) && src in visited && node in visited
    requires 0 <= node < |dist| && 0 <= nb < |dist| && nb !in visited && Edge(g, node, nb)
    requires Less(Plus(dist[node], g.adj[node][nb]), dist[nb])
    ensures Sound(g, src, dist[nb := Plus(dist[node], g.adj[node][nb])], prev[nb := Some(node)], visited)
  {
    var d := dist[nb := Plus(dist[node], g.adj[node][nb])];
    var p := prev[nb := Some(node)];
    forall v | 0 <= v < |p| && p[v].Some?
      ensures Edge(g, p[v].value, v) && d[v].Fin? && d[v] == Plus(d[p[v].value], g.adj[p[v].value][v])
    {
      if v != nb {
        assert prev[v].value in visited;
      }
    }
  }

  /** Lowering the distance of an unvisited node keeps every relaxation
      done so far. */
  lemma RelaxedAfterUpdate(g: Graph, dist: seq<ExtInt>, visited: set<int>, node: int, nb: int, alt: ExtInt)
    requires node in visited && 0 <= node < |dist| && 0 <= nb < |dist| && nb !in visited
    requires LessEq(alt, dist[nb])
    requires RelaxedFrom(g, dist, visited - {node}, visited)
    requires RelaxedBelow(g, dist, node, nb, visited)
    ensures RelaxedFrom(g, dist[nb := alt], visited - {node}, visited)
    ensures RelaxedBelow(g, dist[nb := alt], node, nb, visited)
  {
    var d := dist[nb := alt];
    forall x, y | x in visited - {node} && 0 <= x < |d| && 0 <= y < |d| && y !in visited && Edge(g, x, y)
      ensures LessEq(d[y], Plus(d[x], g.adj[x][y]))
    {
      assert LessEq(dist[y], Plus(dist[x], g.adj[x][y]));
    }
  }

  /** Lowering the distance of an unvisited node leaves the visited ones
      final; the new distance is not negative when no weight is. */
  lemma FinalAfterUpdate(g: Graph, src: int, dist: seq<ExtInt>, visited: set<int>, node: int, nb: int)
    requires Final(g, src, dist, visited) && 0 <= node < |dist| && 0 <= nb < |dist| && nb !in visited
    requires Edge(g, node, nb)
    ensures Final(g, src, dist[nb := Plus(dist[node], g.adj[node][nb])], visited)
  {
    var d := dist[nb := Plus(dist[node], g.adj[node][nb])];
    if NonNegative(g) {
      forall v, p | v in visited && 0 <= v < |d| && Leads(g, p, src, v)
        ensures LessEq(d[v], Fin(PathWeight(g, p)))
      {
        assert d[v] == dist[v];
      }
    }
  }

  lemma RelaxKeeps(g: Graph, src: int, node: int, nb: int, dist: seq<ExtInt>, prev: seq<Option<int>>,
                   pq: Queue, visited: set<int>)
    requires InnerInvariant(g, src, node, nb, dist, prev, pq, visited) && nb < Nodes(g)
    ensures var r := Relax(g, node, nb, dist, prev, pq, visited);
      InnerInvariant(g, src, node, nb + 1, r.0, r.1, r.2, visited)
  {
    var r := Relax(g, node, nb, dist, prev, pq, visited);
    var alt := Plus(dist[node], g.adj[node][nb]);
    if nb in visited || g.adj[node][nb] == 0 || !Less(alt, dist[nb]) {
      SkipKeeps(g, src, node, nb, dist, prev, pq, visited);
    } else {
      UpdateKeeps(g, src, node, nb, dist, prev, pq, visited, r.2);
    }
  }

  /** A skipped neighbor is relaxed already. */
  lemma SkipKeeps(g: Graph, src: int, node: int, nb: int, dist: seq<ExtInt>, prev: seq<Option<int>>,
                  pq: Queue, visited: set<int>)
    requires InnerInvariant(g, src, node, nb, dist, prev, pq, visited) && nb < Nodes(g)
    requires nb in visited || g.adj[node][nb] == 0 || !Less(Plus(dist[node], g.adj[node][nb]), dist[nb])
    ensures InnerInvariant(g, src, node, nb + 1, dist, prev, pq, visited)
  {
    BelowAfterSkip(g, dist, visited, node, nb);
  }

  lemma BelowAfterSkip(g: Graph, dist: seq<ExtInt>, visited: set<int>, node: int, nb: int)
    requires 0 <= node < |dist| && 0 <= nb < |dist| && node < |g.adj| && nb < |g.adj[node]|
    requires nb in visited || g.adj[node][nb] == 0 || !Less(Plus(dist[node], g.adj[node][nb]), dist[nb])
    requires RelaxedBelow(g, dist, node, nb, visited)
    ensures RelaxedBelow(g, dist, node, nb + 1, visited)
  {
  }

  /** A lowered neighbor is relaxed by its new distance. */
  lemma UpdateKeeps(g: Graph, src: int, node: int, nb: int, dist: seq<ExtInt>, prev: seq<Option<int>>,
                    pq: Queue, visited: set<int>, pq2: Queue)
    requires InnerInvariant(g, src, node, nb, dist, prev, pq, visited) && nb < Nodes(g)
    requires nb !in visited && g.adj[node][nb] != 0 && Less(Plus(dist[node], g.adj[node][nb]), dist[nb])
    requires QueueIs(pq2, dist[nb := Plus(dist[node], g.adj[node][nb])], visited)
    ensures InnerInvariant(g, src, node, nb + 1, dist[nb := Plus(dist[node], g.adj[node][nb])],
                           prev[nb := Some(node)], pq2, visited)
  {
    var alt := Plus(dist[node], g.adj[node][nb]);
    SoundAfterUpdate(g, src, dist, prev, visited, node, nb);
    RelaxedAfterUpdate(g, dist, visited, node, nb, alt);
    FinalAfterUpdate(g, src, dist, visited, node, nb);
    BelowAfterUpdate(g, dist, visited, node, nb);
  }

  /** The lowered neighbor's own edge from `node` is relaxed. */
  lemma BelowAfterUpdate(g: Graph, dist: seq<ExtInt>, visited: set<int>, node: int, nb: int)
    requires 0 <= node < |dist| && 0 <= nb < |dist| && node < |g.adj| && nb < |g.adj[node]|
    requires node in visited && nb !in visited
    requires RelaxedBelow(g, dist[nb := Plus(dist[node], g.adj[node][nb])], node, nb, visited)
    ensures RelaxedBelow(g, dist[nb := Plus(dist[node], g.adj[node][nb])], node, nb + 1, visited)
  {
  }

  /** After the inner loop the new node's edges are relaxed too. */
  lemma InnerDone(g: Graph, src: int, node: int, dist: seq<ExtInt>, prev: seq<Option<int>>,
                  pq: Queue, visited: set<int>)
    requires InnerInvariant(g, src, node, Nodes(g), dist, prev, pq, visited)
    ensures Invariant(g, src, dist, prev, pq, visited)
  {
    assert RelaxedFrom(g, dist, visited, visited);
  }

  /** The `for neighbor in range(self.size)` loop for one extracted node. */
  method RelaxNeighbors(g: Graph, src: int, node: int, dist: seq<ExtInt>, prev: seq<Option<int>>,
                        pq: Queue, visited: set<int>)
    returns (dist': seq<ExtInt>, prev': seq<Option<int>>, pq': Queue)
    requires InnerInvariant(g, src, node, 0, dist, prev, pq, visited)
    ensures Invariant(g, src, dist', prev', pq', visited)
    ensures |pq'.items| == |pq.items|
  {
    dist', prev', pq' := dist, prev, pq;
    var neighbor := 0;
    while neighbor < Nodes(g)
      invariant InnerInvariant(g, src, node, neighbor, dist', prev', pq', visited)
      invariant |pq'.items| == |pq.items|
    {
      RelaxKeeps(g, src, node, neighbor, dist', prev', pq', visited);
      var relaxed := Relax(g, node, neighbor, dist', prev', pq', visited);
      dist', prev', pq' := relaxed.0, relaxed.1, relaxed.2;
      neighbor := neighbor + 1;
    }
    InnerDone(g, src, node, dist', prev', pq', visited);
  }

  /** One round of the `while pq` loop: extract the nearest unvisited
      node, mark it visited, relax its edges. */
  method Visit(g: Graph, src: int, dist: seq<ExtInt>, prev: seq<Option<int>>, pq: Queue,
               visited: set<int>, order: seq<int>)
    returns (dist': seq<ExtInt>, prev': seq<Option<int>>, pq': Queue, visited': set<int>, order': seq<int>)
    requires Invariant(g, src, dist, prev, pq, visited) && |pq.items| > 0
    requires forall v :: v in visited <==> v in order
    requires forall i, j :: 0 <= i < j < |order| ==> order[i] != order[j]
    ensures Invariant(g, src, dist', prev', pq', visited')
    ensures forall v :: v in visited' <==> v in order'
    ensures forall i, j :: 0 <= i < j < |order'| ==> order'[i] != order'[j]
    ensures |pq'.items| == |pq.items| - 1 && |order'| == |order| + 1
  {
    var extracted := PriorityQueue.ExtractRoot(pq);
    var node := extracted.value.0;
    var pq1 := extracted.value.1;
    AfterExtract(g, src, dist, prev, pq, visited, node, pq1);
    visited' := visited + {node};
    order' := order + [node];
    dist', prev', pq' := RelaxNeighbors(g, src, node, dist, prev, pq1, visited');
  }

  /** `dijkstra_path(source)`: `(dist, prev)`, with `order` the nodes in the
      order `extract_root` returned them. An out-of-range source fails at
      `dist[source] = 0`; a short or missing matrix row fails at the first
      read of it, which always comes, since every node is extracted and its
      row read at every index below the size. */
  method Dijkstra(g: Graph, source: int) returns (r: Result<(seq<ExtInt>, seq<Option<int>>), GraphError>, order: seq<int>)
    ensures r.Err? <==> !InRange(Nodes(g), source) || !Readable(g)
    ensures r.Err? ==> r.error == IndexOutOfRange
    ensures r.Ok? ==> |order| == Nodes(g) && forall v :: 0 <= v < Nodes(g) <==> v in order
    ensures r.Ok? ==> forall i, j :: 0 <= i < j < |order| ==> order[i] != order[j]
    ensures r.Ok? ==> PrevSound(g, BinaryTree.ListIndex(Nodes(g), source), r.value.0, r.value.1)
    ensures r.Ok? && NonNegative(g) ==> Settled(g, BinaryTree.ListIndex(Nodes(g), source), r.value.0)
  {
    order := [];
    var n := Nodes(g);
    if !InRange(n, source) || !Readable(g) {
      return Err(IndexOutOfRange), order;
    }
    var src := BinaryTree.ListIndex(n, source);
    var dist: seq<ExtInt> := seq(n, _ => Inf);
    var prev: seq<Option<int>> := seq(n, _ => None);
    dist := dist[src := Fin(0)];
    assert dist == seq(n, v => if v == src then Fin(0) else Inf);
    StartTracks(dist);
    var pq := PriorityQueue.New(Some(Range(n)), Some(dist)).value;
    var visited: set<int> := {};
    StartHolds(g, src, dist, prev, pq);
    while |pq.items| > 0
      invariant Invariant(g, src, dist, prev, pq, visited)
      invariant forall v :: v in visited <==> v in order
      invariant forall i, j :: 0 <= i < j < |order| ==> order[i] != order[j]
      decreases |pq.items|
    {
      dist, prev, pq, visited, order := Visit(g, src, dist, prev, pq, visited, order);
    }
    AllVisited(g, src, dist, prev, pq, visited, order);
    r := Ok((dist, prev));
  }

  /** Before the first extraction: only the source is reached. */
  lemma StartHolds(g: Graph, src: int, dist: seq<ExtInt>, prev: seq<Option<int>>, pq: Queue)
    requires Readable(g) && 0 <= src < Nodes(g)
    requires dist == seq(Nodes(g), v => if v == src then Fin(0) else Inf)
    requires prev == seq(Nodes(g), _ => None)
    requires QueueIs(pq, dist, {})
    ensures Invariant(g, src, dist, prev, pq, {})
  {
  }

  /** The queue is empty only once every node is visited. */
  lemma AllVisited(g: Graph, src: int, dist: seq<ExtInt>, prev: seq<Option<int>>, pq: Queue,
                   visited: set<int>, order: seq<int>)
    requires Invariant(g, src, dist, prev, pq, visited) && |pq.items| == 0
    requires forall v :: v in visited <==> v in order
    requires forall i, j :: 0 <= i < j < |order| ==> order[i] != order[j]
    ensures |order| == Nodes(g) && forall v :: 0 <= v < Nodes(g) <==> v in order
    ensures NonNegative(g) ==> Settled(g, src, dist)
  {
    var n := Nodes(g);
    forall v | 0 <= v < n
      ensures v in visited
    {
      assert Heap.Item(dist[v], v) !in pq.items;
    }
    var all := set v | v in Range(n);
    forall v
      ensures v in visited <==> v in all
    {
      if 0 <= v < n {
        assert Range(n)[v] == v;
      }
    }
    DistinctCount(order);
    DistinctCount(Range(n));
    assert (set v | v in order) == visited;
    assert visited == all;
  }

  /** A duplicate-free sequence has as many elements as its set. */
  lemma {:induction false} DistinctCount(s: seq<int>)
    requires forall i, j :: 0 <= i < j < |s| ==> s[i] != s[j]
    ensures |set v | v in s| == |s|
  {
    if |s| > 0 {
      var t := s[..|s| - 1];
      DistinctCount(t);
      assert (set v | v in s) == (set v | v in t) + {s[|s| - 1]};
      assert s[|s| - 1] !in t;
    }
  }

  /** Dijkstra's answer with non-negative weights: no distance is negative,
      and no path from the source to a node is lighter than its distance. */
  ghost predicate Settled(g: Graph, src: int, dist: seq<ExtInt>) {
    && DistNonNegative(dist)
    && forall v, p :: 0 <= v < |dist| && Leads(g, p, src, v) ==> LessEq(dist[v], Fin(PathWeight(g, p)))
  }

  // ---------------------------------------------------------------------
  // shortest_path
  // ---------------------------------------------------------------------

  /** `prev[b] == a` under Python indexing. */
  predicate Linked(prev: seq<Option<int>>, a: int, b: int) {
    InRange(|prev|, b) && prev[BinaryTree.ListIndex(|prev|, b)] == Some(a)
  }

  /** The `while u is not None` loop: `u` is prepended, then replaced by
      `prev[u]`. `fuel` bounds the number of nodes; a `prev` chain with a
      cycle makes the Python loop run forever, reported as `Loops`. */
  function Chain(prev: seq<Option<int>>, u: int, fuel: nat): (r: Result<seq<int>, GraphError>)
    ensures r.Ok? ==> |r.value| >= 1 && r.value[|r.value| - 1] == u
    ensures r.Ok? ==> forall i :: 0 <= i < |r.value| ==> InRange(|prev|, r.value[i])
    ensures r.Ok? ==> InRange(|prev|, r.value[0]) && prev[BinaryTree.ListIndex(|prev|, r.value[0])] == None
    ensures r.Ok? ==> forall i, j :: 0 <= i && j == i + 1 && j < |r.value| ==> Linked(prev, r.value[i], r.value[j])
    decreases fuel
  {
    if fuel == 0 then Err(Loops)
    else if !InRange(|prev|, u) then Err(IndexOutOfRange)
    else match prev[BinaryTree.ListIndex(|prev|, u)]
      case None => Ok([u])
      case Some(w) =>
        var rest :- Chain(prev, w, fuel - 1);
        Ok(rest + [u])
  }

  /** `shortest_path(source, target, dist, prev)`: empty when `target` has
      no predecessor and is not the source, otherwise the `prev` chain
      ending at `target`. (`dist` is not read.) */
  function ShortestPath(source: int, target: int, prev: seq<Option<int>>, fuel: nat): (r: Result<seq<int>, GraphError>)
    ensures !InRange(|prev|, target) ==> r == Err(IndexOutOfRange)
    ensures InRange(|prev|, target) && prev[BinaryTree.ListIndex(|prev|, target)].None? && target != source ==>
      r == Ok([])
    ensures InRange(|prev|, target) && (prev[BinaryTree.ListIndex(|prev|, target)].Some? || target == source) ==>
      r == Chain(prev, target, fuel)
  {
    if !InRange(|prev|, target) then Err(IndexOutOfRange)
    else if prev[BinaryTree.ListIndex(|prev|, target)].Some? || target == source then Chain(prev, target, fuel)
    else Ok([])
  }

  /** Following `prev` from a reached node walks back to the source along
      edges, and the edges add up to the node's distance; with positive
      weights each step lowers the distance, so `dist[v] + 1` steps do. */
  lemma {:induction false} ChainIsPath(g: Graph, src: int, dist: seq<ExtInt>, prev: seq<Option<int>>, v: int, fuel: nat)
    returns (p: seq<int>)
    requires NonNegative(g) && PrevSound(g, src, dist, prev) && DistNonNegative(dist)
    requires 0 <= v < Nodes(g) && dist[v].Fin? && fuel > dist[v].n
    ensures Chain(prev, v, fuel) == Ok(p)
    ensures Leads(g, p, src, v) && PathWeight(g, p) == dist[v].n
    decreases fuel
  {
    match prev[v]
    case None =>
      assert v == src;
      p := [v];
      assert PathWeight(g, p) == 0;
    case Some(u) =>
      PrevStep(g, src, dist, prev, v);
      var c := ChainIsPath(g, src, dist, prev, u, fuel - 1);
      ChainStep(g, src, prev, u, v, fuel, c);
      p := c + [v];
  }

  /** One step back along `prev` extends the path by one edge. */
  lemma ChainStep(g: Graph, src: int, prev: seq<Option<int>>, u: int, v: int, fuel: nat, c: seq<int>)
    requires 0 <= v < |prev| && prev[v] == Some(u) && fuel > 0 && 0 <= v < Nodes(g) && Edge(g, u, v)
    requires Chain(prev, u, fuel - 1) == Ok(c) && Leads(g, c, src, u)
    ensures Chain(prev, v, fuel) == Ok(c + [v]) && Leads(g, c + [v], src, v)
    ensures PathWeight(g, c + [v]) == PathWeight(g, c) + g.adj[u][v]
  {
    ChainUnfold(prev, v, u, fuel, c);
    ExtendPath(g, c, v);
  }

  /** A predecessor is a node one positive edge back, strictly nearer. */
  lemma PrevStep(g: Graph, src: int, dist: seq<ExtInt>, prev: seq<Option<int>>, v: int)
    requires NonNegative(g) && PrevSound(g, src, dist, prev)
    requires 0 <= v < |prev| && prev[v].Some?
    ensures var u := prev[v].value;
      && 0 <= u < Nodes(g) && Edge(g, u, v) && dist[u].Fin? && dist[v].Fin?
      && dist[v].n == dist[u].n + g.adj[u][v] && dist[u].n < dist[v].n
  {
  }

  lemma ChainUnfold(prev: seq<Option<int>>, v: int, u: int, fuel: nat, c: seq<int>)
    requires 0 <= v < |prev| && prev[v] == Some(u) && fuel > 0
    requires Chain(prev, u, fuel - 1) == Ok(c)
    ensures Chain(prev, v, fuel) == Ok(c + [v])
  {
  }

  /** With non-negative weights, what Dijkstra returns makes
      `shortest_path` a shortest path: a reached target gets a path from
      the source of weight `dist[target]`, which no path undercuts; an
      unreached target has no path at all, and gets the empty sequence. */
  lemma ShortestPathIsShortest(g: Graph, src: int, dist: seq<ExtInt>, prev: seq<Option<int>>, target: int, fuel: nat)
    requires NonNegative(g) && PrevSound(g, src, dist, prev) && Settled(g, src, dist)
    requires 0 <= target < Nodes(g)
    ensures dist[target].Inf? ==> (forall p :: !Leads(g, p, src, target)) && ShortestPath(src, target, prev, fuel) == Ok([])
    ensures dist[target].Fin? && fuel > dist[target].n ==>
      var r := ShortestPath(src, target, prev, fuel);
      && r.Ok? && Leads(g, r.value, src, target) && PathWeight(g, r.value) == dist[target].n
      && forall q :: Leads(g, q, src, target) ==> PathWeight(g, r.value) <= PathWeight(g, q)
  {
    if dist[target].Fin? && fuel > dist[target].n {
      var p := ChainIsPath(g, src, dist, prev, target, fuel);
    }
  }
}
