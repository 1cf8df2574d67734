/** The legacy `FixedHashMap` script (FixedHashMap.py): a fixed array of
    `HashItem` objects with linear probing and no tombstones; `delete`
    closes the gap it leaves by moving later entries of the same probe run
    back into the hole (Algorithm R of Knuth, The Art of Computer
    Programming, volume 3, section 6.4).

    The Python list holds references to `HashItem` objects, and the move
    `self.data[i] = self.data[j]` copies a reference, so a `Store` keeps the
    objects (`cells`) apart from the list of references to them (`data`).
    `Table` is the same map with one object per slot, on which the corrected
    `delete` is defined. Python's `hash()` is a parameter. */
module LegacyMap {
  import opened Results
  import opened Cyclic

  /** A Python key: a `str`, or some other hashable value. */
  datatype Key = Str(s: string) | Other(id: int)

  /** A `HashItem`: falsy (key `None`) or holding a key and its value. */
  datatype Cell<V> = Empty | Full(key: Key, value: V)

  /** The messages the script raises (all as plain `Exception`), plus
      `Loops` for a probe that never ends, and the errors Python raises on
      its own for a capacity of zero (`ZeroDivisionError`) or below zero
      (`IndexError`: the slot list is empty). */
  datatype MapError = KeyNotString | MapFull | KeyNotFound | ZeroDivision | IndexOutOfRange | Loops

  type Hash = Key -> int

  /** `range(capacity)` has this many elements. */
  function Width(capacity: int): nat {
    if capacity > 0 then capacity else 0
  }

  /** Where the probe for `key` starts: `hash(key) % capacity`, which
      Python floors, so it lies in `[0, n)`. */
  function HomeOf(key: Key, hash: Hash, n: int): (r: int)
    requires n > 0
    ensures 0 <= r < n
  {
    hash(key) % n
  }

  // ---- Probing, shared by every operation ----

  /** The loop test of `_find_slot` fails: the slot is falsy or holds
      `key`. */
  predicate Stops<V>(c: Cell<V>, key: Key) {
    c.Empty? || c.key == key
  }

  /** The `while` loop of `_find_slot` from step `w`: the step at which it
      stops, or `Loops` when no slot of the ring stops it, in which case the
      Python loop runs forever. */
  function Probe<V>(s: seq<Cell<V>>, key: Key, home: int, w: nat): (r: Result<nat, MapError>)
    requires 0 <= home < |s| && w <= |s|
    ensures r.Ok? ==> w <= r.value < |s| && Stops(s[Pos(home, r.value, |s|)], key)
    ensures r.Ok? ==> forall u :: w <= u < r.value ==> !Stops(s[Pos(home, u, |s|)], key)
    ensures r.Err? ==> r.error == Loops && forall u :: w <= u < |s| ==> !Stops(s[Pos(home, u, |s|)], key)
    decreases |s| - w
  {
    if w == |s| then Err(Loops)
    else if Stops(s[Pos(home, w, |s|)], key) then Ok(w)
    else Probe(s, key, home, w + 1)
  }

  /** The probe returns the first step that stops it. */
  lemma {:induction false} ProbeFindsFirstStop<V>(s: seq<Cell<V>>, key: Key, home: int, w: nat, target: nat)
    requires 0 <= home < |s| && w <= target < |s|
    requires Stops(s[Pos(home, target, |s|)], key)
    requires forall u :: w <= u < target ==> !Stops(s[Pos(home, u, |s|)], key)
    ensures Probe(s, key, home, w) == Ok(target)
    decreases target - w
  {
    if w < target {
      ProbeFindsFirstStop(s, key, home, w + 1, target);
    }
  }

  /** `_find_slot`: the first slot from `hash(key) % capacity`, stepping
      by one and wrapping, that is falsy or holds `key`. */
  function FindSlot<V>(s: seq<Cell<V>>, capacity: int, hash: Hash, key: Key): (r: Result<nat, MapError>)
    requires |s| == Width(capacity)
    ensures capacity == 0 ==> r == Err(ZeroDivision)
    ensures capacity < 0 ==> r == Err(IndexOutOfRange)
    ensures capacity > 0 && r.Err? ==> r.error == Loops
    ensures r.Ok? ==> capacity > 0 && r.value < |s| && Stops(s[r.value], key)
    ensures r.Ok? ==> var h := HomeOf(key, hash, |s|);
      forall u :: 0 <= u < Dist(h, r.value, |s|) ==> !Stops(s[Pos(h, u, |s|)], key)
  {
    if capacity == 0 then Err(ZeroDivision)
    else if capacity < 0 then Err(IndexOutOfRange)
    else
      var h := HomeOf(key, hash, capacity);
      var w :- Probe(s, key, h, 0);
      DistPos(h, w, |s|);
      Ok(Pos(h, w, |s|))
  }

  /** The probe runs forever exactly when no slot is falsy or holds the
      key. */
  lemma FindSlotLoops<V>(s: seq<Cell<V>>, capacity: int, hash: Hash, key: Key)
    requires |s| == Width(capacity) && capacity > 0
    ensures FindSlot(s, capacity, hash, key).Err? <==> forall p :: 0 <= p < |s| ==> !Stops(s[p], key)
  {
    var h := HomeOf(key, hash, capacity);
    if FindSlot(s, capacity, hash, key).Err? {
      forall p | 0 <= p < |s|
        ensures !Stops(s[p], key)
      {
        PosDist(h, p, |s|);
      }
    }
  }

  // ---- The map with one object per slot ----

  datatype Table<V> = Table(capacity: int, size: int, slots: seq<Cell<V>>)

  predicate TableWf<V>(t: Table<V>) {
    |t.slots| == Width(t.capacity)
  }

  /** The number of truthy slots. */
  ghost function FullCount<V>(s: seq<Cell<V>>): int {
    |s| - multiset(s)[Empty]
  }

  /** `FixedHashMap(capacity)`: `capacity` falsy slots, size 0. */
  function NewTable<V>(capacity: int): (t: Table<V>)
    ensures TableWf(t) && t.capacity == capacity && t.size == 0
    ensures forall p :: 0 <= p < |t.slots| ==> t.slots[p].Empty?
  {
    Table(capacity, 0, seq(Width(capacity), _ => Empty))
  }

  /** `get`: the value in the found slot, `KeyError` when it is falsy. */
  function TableGet<V>(t: Table<V>, hash: Hash, key: Key): (r: Result<V, MapError>)
    requires TableWf(t)
    ensures r.Ok? ==> Full(key, r.value) in t.slots
    ensures FindSlot(t.slots, t.capacity, hash, key).Err? ==> r == Err(FindSlot(t.slots, t.capacity, hash, key).error)
    ensures FindSlot(t.slots, t.capacity, hash, key).Ok? ==>
      (r.Err? <==> t.slots[FindSlot(t.slots, t.capacity, hash, key).value].Empty?)
  {
    var i :- FindSlot(t.slots, t.capacity, hash, key);
    if t.slots[i].Full? then Ok(t.slots[i].value) else Err(KeyNotFound)
  }

  /** `set`: only `str` keys; `MemoryError` once `size == capacity`;
      otherwise the found slot takes the value (its key is `key` already)
      or the key and the value, and the size grows when the slot was
      falsy. */
  function TableSet<V>(t: Table<V>, hash: Hash, key: Key, value: V): (r: Result<Table<V>, MapError>)
    requires TableWf(t)
    ensures !key.Str? ==> r == Err(KeyNotString)
    ensures key.Str? && t.size == t.capacity ==> r == Err(MapFull)
    ensures r.Ok? <==> key.Str? && t.size != t.capacity && FindSlot(t.slots, t.capacity, hash, key).Ok?
    ensures r.Ok? ==> TableWf(r.value) && r.value.capacity == t.capacity
    ensures r.Ok? ==> var i := FindSlot(t.slots, t.capacity, hash, key).value;
      && r.value.slots == t.slots[i := Full(key, value)]
      && r.value.size == t.size + (if t.slots[i].Full? then 0 else 1)
  {
    if !key.Str? then Err(KeyNotString)
    else if t.size == t.capacity then Err(MapFull)
    else
      var i :- FindSlot(t.slots, t.capacity, hash, key);
      var c := t.slots[i];
      if c.Full? then Ok(t.(slots := t.slots[i := Full(c.key, value)]))
      else Ok(t.(slots := t.slots[i := Full(key, value)], size := t.size + 1))
  }

  /** `keys()`: the keys of the truthy slots, in slot order. */
  function Keys<V>(s: seq<Cell<V>>): (r: seq<Key>)
    ensures |r| == FullCount(s)
    ensures forall p :: 0 <= p < |s| && s[p].Full? ==> s[p].key in r
    ensures forall k :: k in r ==> exists p :: 0 <= p < |s| && s[p].Full? && s[p].key == k
  {
    if |s| == 0 then []
    else
      var init := s[..|s| - 1];
      assert s == init + [s[|s| - 1]];
      Keys(init) + (if s[|s| - 1].Full? then [s[|s| - 1].key] else [])
  }

  /** `keys()` lists keys in slot order: the keys of a run of slots
      followed by a second run are those of the first, then the second. */
  lemma {:induction false} KeysInSlotOrder<V>(a: seq<Cell<V>>, b: seq<Cell<V>>)
    ensures Keys(a + b) == Keys(a) + Keys(b)
    decreases |b|
  {
    if |b| == 0 {
      assert a + b == a;
    } else {
      var init := b[..|b| - 1];
      assert (a + b)[..|a + b| - 1] == a + init;
      assert (a + b)[|a + b| - 1] == b[|b| - 1];
      KeysInSlotOrder(a, init);
    }
  }

  // ---- The backward shift of `delete` ----

  /** Python's test that home slot `k` lies cyclically in `(i, j]`. */
  predicate InBetween(i: int, k: int, j: int) {
    if i <= j then i < k && k <= j else i < k || k <= j
  }

  lemma InBetweenIsDist(i: int, k: int, j: int, n: int)
    requires 0 <= i < n && 0 <= k < n && 0 <= j < n
    ensures InBetween(i, k, j) <==> 0 < Dist(i, k, n) <= Dist(i, j, n)
  {
  }

  /** The home slot of the entry in slot `p`. */
  function Home<V>(s: seq<Cell<V>>, hash: Hash, p: int): (r: int)
    requires 0 <= p < |s| && s[p].Full?
    ensures 0 <= r < |s|
  {
    HomeOf(s[p].key, hash, |s|)
  }

  /** The entry in slot `p` stays where it is while the hole is at `i`:
      its home lies cyclically in `(i, p]`. */
  predicate StaysPut<V>(s: seq<Cell<V>>, hash: Hash, i: int, p: int)
    requires 0 <= p < |s| && s[p].Full?
  {
    InBetween(i, Home(s, hash, p), p)
  }

  /** How the inner scan of `delete` ends, after `t` steps from the hole:
      at a falsy slot (`break_main`) or at an entry to move into the
      hole. */
  datatype ScanEnd = Stop(t: nat) | Move(t: nat)

  /** The inner `while True` loop of `delete`, `t` steps past the hole at
      `i`: `j` advances by one (`PosNext`) until the slot is falsy or its
      entry must move. After `|s|` steps `j` would be back at the hole,
      which is falsy, so the scan ends within one sweep. */
  function Scan<V>(s: seq<Cell<V>>, hash: Hash, i: nat, t: nat): (r: ScanEnd)
    requires i < |s| && s[i].Empty? && t < |s|
    ensures t < r.t <= |s|
    ensures forall u :: t < u < r.t ==> s[Pos(i, u, |s|)].Full? && StaysPut(s, hash, i, Pos(i, u, |s|))
    ensures r.Stop? ==> s[Pos(i, r.t, |s|)].Empty?
    ensures r.Move? ==> r.t < |s| && s[Pos(i, r.t, |s|)].Full? && !StaysPut(s, hash, i, Pos(i, r.t, |s|))
    decreases |s| - t
  {
    var j := Pos(i, t + 1, |s|);
    if s[j].Empty? then Stop(t + 1)
    else if !StaysPut(s, hash, i, j) then Move(t + 1)
    else Scan(s, hash, i, t + 1)
  }

  /** An entry that must move is closer to its home in the hole than where
      it is. */
  lemma NotBetweenIsCloser(i: int, k: int, j: int, n: int)
    requires 0 <= i < n && 0 <= k < n && 0 <= j < n && i != j
    requires !InBetween(i, k, j)
    ensures Dist(k, i, n) < Dist(k, j, n)
  {
    InBetweenIsDist(i, k, j, n);
  }

  /** The sum over truthy slots of how far each entry sits from its home;
      every move of the corrected shift lowers it. */
  function Cost<V>(c: Cell<V>, p: int, hash: Hash, n: int): nat
    requires 0 <= p < n
  {
    if c.Full? then Dist(HomeOf(c.key, hash, n), p, n) else 0
  }

  function DispUpTo<V>(s: seq<Cell<V>>, hash: Hash, k: nat): nat
    requires k <= |s|
  {
    if k == 0 then 0 else DispUpTo(s, hash, k - 1) + Cost(s[k - 1], k - 1, hash, |s|)
  }

  function Disp<V>(s: seq<Cell<V>>, hash: Hash): nat {
    DispUpTo(s, hash, |s|)
  }

  lemma {:induction false} DispUpdate<V>(s: seq<Cell<V>>, hash: Hash, p: nat, c: Cell<V>, k: nat)
    requires p < |s| && k <= |s|
    ensures DispUpTo(s[p := c], hash, k) ==
      DispUpTo(s, hash, k) + (if p < k then Cost(c, p, hash, |s|) - Cost(s[p], p, hash, |s|) else 0)
  {
    if k > 0 {
      DispUpdate(s, hash, p, c, k - 1);
    }
  }

  /** Moving the entry of slot `j` into the hole `i` lowers `Disp`. */
  lemma DispMove<V>(s: seq<Cell<V>>, hash: Hash, i: nat, j: nat)
    requires i < |s| && j < |s| && i != j && s[i].Empty? && s[j].Full?
    requires !InBetween(i, Home(s, hash, j), j)
    ensures Disp(s[i := s[j]][j := Empty], hash) < Disp(s, hash)
  {
    NotBetweenIsCloser(i, Home(s, hash, j), j, |s|);
    var s1 := s[i := s[j]];
    DispUpdate(s, hash, i, s[j], |s|);
    DispUpdate(s1, hash, j, Empty, |s|);
  }

  /** The shift loop of `delete` as evidently intended, with the hole at
      `i`: the moving entry is copied into the hole, whose slot keeps its
      own object, and the slot it came from becomes the new hole. */
  function ShiftFixed<V>(s: seq<Cell<V>>, hash: Hash, i: nat): (r: seq<Cell<V>>)
    requires i < |s| && s[i].Empty?
    ensures |r| == |s|
    ensures multiset(r) == multiset(s)
    decreases Disp(s, hash)
  {
    match Scan(s, hash, i, 0)
    case Stop(_) => s
    case Move(t) =>
      var j := Pos(i, t, |s|);
      DispMove(s, hash, i, j);
      ShiftFixed(s[i := s[j]][j := Empty], hash, j)
  }

  /** `delete` as evidently intended: `KeyError` for a falsy slot;
      otherwise clear it, shift with copied contents, and shrink `size`. */
  function TableDelete<V>(t: Table<V>, hash: Hash, key: Key): (r: Result<Table<V>, MapError>)
    requires TableWf(t)
    ensures r.Ok? <==> FindSlot(t.slots, t.capacity, hash, key).Ok? && t.slots[FindSlot(t.slots, t.capacity, hash, key).value].Full?
    ensures r.Ok? ==> TableWf(r.value) && r.value.capacity == t.capacity && r.value.size == t.size - 1
    ensures r.Ok? ==> var i := FindSlot(t.slots, t.capacity, hash, key).value;
      t.slots[i].key == key && multiset(r.value.slots) == multiset(t.slots) - multiset{t.slots[i]} + multiset{Empty}
  {
    var i :- FindSlot(t.slots, t.capacity, hash, key);
    if t.slots[i].Empty? then Err(KeyNotFound)
    else
      var cleared := t.slots[i := Empty];
      Ok(Table(t.capacity, t.size - 1, ShiftFixed(cleared, hash, i)))
  }

  // ---- The invariant of the corrected map ----

  /** Slot `p` lies on the probe path of the entry in slot `q`, before `q`. */
  predicate OnPath<V>(s: seq<Cell<V>>, hash: Hash, p: int, q: int)
    requires 0 <= q < |s| && s[q].Full?
  {
    Dist(Home(s, hash, q), p, |s|) < Dist(Home(s, hash, q), q, |s|)
  }

  /** Every probe path from an entry's home to the entry crosses only
      truthy slots, except possibly the hole `hole` (none when `hole` is
      out of range). */
  ghost predicate ReachExcept<V>(s: seq<Cell<V>>, hash: Hash, hole: int) {
    forall q, p :: 0 <= q < |s| && 0 <= p < |s| && s[q].Full? && OnPath(s, hash, p, q) ==> s[p].Full? || p == hole
  }

  ghost predicate Distinct<V>(s: seq<Cell<V>>) {
    forall p, q :: 0 <= p < |s| && 0 <= q < |s| && s[p].Full? && s[q].Full? && s[p].key == s[q].key ==> p == q
  }

  /** The corrected map's invariant: `size` counts the truthy slots, keys
      are stored once, and every entry is reached by its probe. */
  ghost predicate Valid<V>(t: Table<V>, hash: Hash) {
    && TableWf(t)
    && t.size == FullCount(t.slots)
    && Distinct(t.slots)
    && ReachExcept(t.slots, hash, -1)
  }

  lemma NewTableIsValid<V>(capacity: int, hash: Hash)
    ensures Valid(NewTable<V>(capacity), hash)
    ensures Keys(NewTable<V>(capacity).slots) == []
  {
    var s := NewTable<V>(capacity).slots;
    assert forall c :: c in s ==> c == Empty;
    assert multiset(s)[Empty] == |s| by {
      EmptyCount(s);
    }
  }

  lemma {:induction false} EmptyCount<V>(s: seq<Cell<V>>)
    requires forall p :: 0 <= p < |s| ==> s[p].Empty?
    ensures multiset(s)[Empty] == |s|
  {
    if |s| > 0 {
      assert s == s[..|s| - 1] + [s[|s| - 1]];
      EmptyCount(s[..|s| - 1]);
    }
  }

  /** The hole is not on the path of an entry whose home lies in `(i, q]`. */
  lemma HomeAfterHole(i: int, h: int, q: int, n: int)
    requires 0 <= i < n && 0 <= h < n && 0 <= q < n
    requires 0 < Dist(i, h, n) <= Dist(i, q, n)
    ensures Dist(h, i, n) >= Dist(h, q, n)
  {
  }

  /** A path from `h` through `i` to `q` also crosses every `j` met between
      `i` and `q`. */
  lemma PathThrough(h: int, i: int, j: int, q: int, n: int)
    requires 0 <= h < n && 0 <= i < n && 0 <= j < n && 0 <= q < n
    requires Dist(h, i, n) < Dist(h, q, n) && Dist(i, j, n) < Dist(i, q, n)
    ensures Dist(h, j, n) < Dist(h, q, n)
  {
  }

  /** When the scan ends at a falsy slot no entry's path still crosses the
      hole, so every path crosses truthy slots only. */
  lemma StopClosesHole<V>(s: seq<Cell<V>>, hash: Hash, i: nat, t: nat)
    requires i < |s| && s[i].Empty? && ReachExcept(s, hash, i)
    requires Scan(s, hash, i, 0) == Stop(t)
    ensures ReachExcept(s, hash, -1)
  {
    var n := |s|;
    forall q, p | 0 <= q < n && 0 <= p < n && s[q].Full? && OnPath(s, hash, p, q)
      ensures s[p].Full?
    {
      if s[p].Empty? {
        assert p == i;
        var h := Home(s, hash, q);
        var dq := Dist(i, q, n);
        PosDist(i, q, n);
        if dq < t {
          InBetweenIsDist(i, h, q, n);
          HomeAfterHole(i, h, q, n);
        } else {
          var j := Pos(i, t, n);
          DistPos(i, t, n);
          PathThrough(h, i, j, q, n);
          assert OnPath(s, hash, j, q);
        }
      }
    }
  }

  /** One move keeps the invariant with the hole at the slot the entry
      left, keeps keys stored once, and keeps the multiset of slots. */
  lemma MoveKeepsHole<V>(s: seq<Cell<V>>, hash: Hash, i: nat, t: nat)
    requires i < |s| && s[i].Empty? && ReachExcept(s, hash, i) && Distinct(s)
    requires Scan(s, hash, i, 0) == Move(t)
    ensures var j := Pos(i, t, |s|); var s' := s[i := s[j]][j := Empty];
      && j < |s| && ReachExcept(s', hash, j) && Distinct(s')
  {
    var n := |s|;
    var j := Pos(i, t, n);
    var s' := s[i := s[j]][j := Empty];
    var k := Home(s, hash, j);
    NotBetweenIsCloser(i, k, j, n);
    forall q, p | 0 <= q < n && 0 <= p < n && s'[q].Full? && OnPath(s', hash, p, q)
      ensures s'[p].Full? || p == j
    {
      if q == i {
        assert OnPath(s, hash, p, j);
      } else {
        assert OnPath(s, hash, p, q);
      }
    }
    forall p, q | 0 <= p < n && 0 <= q < n && s'[p].Full? && s'[q].Full? && s'[p].key == s'[q].key
      ensures p == q
    {
      var p0 := if p == i then j else p;
      var q0 := if q == i then j else q;
      assert s[p0] == s'[p] && s[q0] == s'[q];
    }
  }

  /** The corrected shift ends with every path crossing truthy slots only
      and keys stored once. */
  lemma {:induction false} ShiftFixedCloses<V>(s: seq<Cell<V>>, hash: Hash, i: nat)
    requires i < |s| && s[i].Empty? && ReachExcept(s, hash, i) && Distinct(s)
    ensures ReachExcept(ShiftFixed(s, hash, i), hash, -1) && Distinct(ShiftFixed(s, hash, i))
    decreases Disp(s, hash)
  {
    match Scan(s, hash, i, 0)
    case Stop(t) =>
      StopClosesHole(s, hash, i, t);
    case Move(t) =>
      var j := Pos(i, t, |s|);
      MoveKeepsHole(s, hash, i, t);
      DispMove(s, hash, i, j);
      ShiftFixedCloses(s[i := s[j]][j := Empty], hash, j);
  }

  /** In a valid map the probe for a stored key ends at its slot. */
  lemma FoundAtItsSlot<V>(t: Table<V>, hash: Hash, q: nat)
    requires Valid(t, hash) && q < |t.slots| && t.slots[q].Full?
    ensures FindSlot(t.slots, t.capacity, hash, t.slots[q].key) == Ok(q)
  {
    var s := t.slots;
    var n := |s|;
    var key := s[q].key;
    var h := Home(s, hash, q);
    var d := Dist(h, q, n);
    PosDist(h, q, n);
    forall u | 0 <= u < d
      ensures !Stops(s[Pos(h, u, n)], key)
    {
      var p := Pos(h, u, n);
      DistPos(h, u, n);
      assert OnPath(s, hash, p, q);
      if p == q {
        PosInjective(h, u, d, n);
      }
    }
    ProbeFindsFirstStop(s, key, h, 0, d);
  }

  /** In a valid map `get` returns exactly the stored values; for a key
      not stored it raises `KeyError` when some slot is falsy, and loops
      forever when none is. */
  lemma TableGetExact<V>(t: Table<V>, hash: Hash, key: Key, v: V)
    requires Valid(t, hash) && t.capacity > 0
    ensures TableGet(t, hash, key) == Ok(v) <==> Full(key, v) in t.slots
    ensures (forall p :: 0 <= p < |t.slots| && t.slots[p].Full? ==> t.slots[p].key != key) ==>
      TableGet(t, hash, key) == if Empty in t.slots then Err(KeyNotFound) else Err(Loops)
  {
    var s := t.slots;
    if Full(key, v) in s {
      var q :| 0 <= q < |s| && s[q] == Full(key, v);
      FoundAtItsSlot(t, hash, q);
    }
    if forall p :: 0 <= p < |s| && s[p].Full? ==> s[p].key != key {
      FindSlotLoops(s, t.capacity, hash, key);
      if Empty in s {
        var e :| 0 <= e < |s| && s[e] == Empty;
        assert Stops(s[e], key);
      }
    }
  }

  /** A successful `set` keeps the map valid, and `get` then returns the
      value just stored. */
  lemma TableSetKeepsValid<V>(t: Table<V>, hash: Hash, key: Key, value: V)
    requires Valid(t, hash) && TableSet(t, hash, key, value).Ok?
    ensures Valid(TableSet(t, hash, key, value).value, hash)
    ensures TableGet(TableSet(t, hash, key, value).value, hash, key) == Ok(value)
  {
    var t' := TableSet(t, hash, key, value).value;
    var i := FindSlot(t.slots, t.capacity, hash, key).value;
    SetKeepsReach(t.slots, t.capacity, hash, key, value, i);
    SetKeepsDistinct(t.slots, t.capacity, hash, key, value, i);
    FoundAtItsSlot(t', hash, i);
  }

  /** Filling the slot the probe found keeps every probe path truthy. */
  lemma SetKeepsReach<V>(s: seq<Cell<V>>, capacity: int, hash: Hash, key: Key, value: V, i: nat)
    requires |s| == Width(capacity) && ReachExcept(s, hash, -1)
    requires FindSlot(s, capacity, hash, key) == Ok(i)
    ensures ReachExcept(s[i := Full(key, value)], hash, -1)
  {
    var n := |s|;
    var s' := s[i := Full(key, value)];
    var h := HomeOf(key, hash, n);
    forall q, p | 0 <= q < n && 0 <= p < n && s'[q].Full? && OnPath(s', hash, p, q)
      ensures s'[p].Full?
    {
      if q == i {
        if p != i {
          var u := Dist(h, p, n);
          PosDist(h, p, n);
          assert !Stops(s[Pos(h, u, n)], key);
        }
      } else {
        assert OnPath(s, hash, p, q);
      }
    }
  }

  /** Filling the slot the probe found stores the key once: a falsy slot
      is only found when the key is nowhere before it, and so nowhere. */
  lemma SetKeepsDistinct<V>(s: seq<Cell<V>>, capacity: int, hash: Hash, key: Key, value: V, i: nat)
    requires |s| == Width(capacity) && ReachExcept(s, hash, -1) && Distinct(s)
    requires FindSlot(s, capacity, hash, key) == Ok(i)
    ensures Distinct(s[i := Full(key, value)])
  {
    var s' := s[i := Full(key, value)];
    forall p, q | 0 <= p < |s'| && 0 <= q < |s'| && s'[p].Full? && s'[q].Full? && s'[p].key == s'[q].key
      ensures p == q
    {
      if p != i && q != i {
        assert s[p] == s'[p] && s[q] == s'[q];
      } else if s[i].Empty? {
        if p != i { KeyAbsent(s, capacity, hash, key, i, p); }
        if q != i { KeyAbsent(s, capacity, hash, key, i, q); }
      } else {
        assert s[i].key == key;
      }
    }
  }

  /** When the probe for `key` finds a falsy slot, no slot holds `key`:
      its probe path would cross that slot. */
  lemma KeyAbsent<V>(s: seq<Cell<V>>, capacity: int, hash: Hash, key: Key, i: nat, p: nat)
    requires |s| == Width(capacity) && ReachExcept(s, hash, -1)
    requires FindSlot(s, capacity, hash, key) == Ok(i) && s[i].Empty?
    requires p < |s| && s[p].Full?
    ensures s[p].key != key
  {
    var n := |s|;
    var h := HomeOf(key, hash, n);
    PosDist(h, p, n);
    PosDist(h, i, n);
    if Home(s, hash, p) == h {
      assert !OnPath(s, hash, i, p);
      assert Dist(h, p, n) < Dist(h, i, n);
      assert !Stops(s[Pos(h, Dist(h, p, n), n)], key);
    }
  }

  /** Clearing a slot of a valid map leaves a hole that only paths
      through it may cross. */
  lemma ClearLeavesHole<V>(s: seq<Cell<V>>, hash: Hash, i: nat)
    requires i < |s| && ReachExcept(s, hash, -1) && Distinct(s)
    ensures ReachExcept(s[i := Empty], hash, i) && Distinct(s[i := Empty])
  {
    var cleared := s[i := Empty];
    forall q, p | 0 <= q < |s| && 0 <= p < |s| && cleared[q].Full? && OnPath(cleared, hash, p, q)
      ensures cleared[p].Full? || p == i
    {
      assert OnPath(s, hash, p, q);
    }
  }

  /** An entry of a map with keys stored once occurs once. */
  lemma {:induction false} StoredOnce<V>(s: seq<Cell<V>>, i: nat)
    requires i < |s| && s[i].Full? && Distinct(s)
    ensures multiset(s)[s[i]] == 1
  {
    assert s == s[..i] + [s[i]] + s[i + 1..];
    assert s[i] !in s[..i];
    assert s[i] !in s[i + 1..];
  }

  /** After the entry of slot `i` leaves the multiset of slots, no slot
      holds its key. */
  lemma RemovedKeyGone<V>(s: seq<Cell<V>>, r: seq<Cell<V>>, i: nat)
    requires i < |s| && s[i].Full? && Distinct(s)
    requires multiset(r) == multiset(s) - multiset{s[i]} + multiset{Empty}
    ensures forall p :: 0 <= p < |r| && r[p].Full? ==> r[p].key != s[i].key
  {
    StoredOnce(s, i);
    forall p | 0 <= p < |r| && r[p].Full?
      ensures r[p].key != s[i].key
    {
      var c := r[p];
      assert c in multiset(r);
      var q :| 0 <= q < |s| && s[q] == c;
    }
  }

  /** Entries of other keys are the same before and after. */
  lemma OtherEntriesKept<V>(s: seq<Cell<V>>, r: seq<Cell<V>>, i: nat, k: Key, v: V)
    requires i < |s| && s[i].Full? && k != s[i].key
    requires multiset(r) == multiset(s) - multiset{s[i]} + multiset{Empty}
    ensures Full(k, v) in r <==> Full(k, v) in s
  {
    assert Full(k, v) in r <==> Full(k, v) in multiset(r);
    assert Full(k, v) in s <==> Full(k, v) in multiset(s);
  }

  /** A successful corrected `delete` keeps the map valid, and the entry
      for its key is gone. */
  lemma TableDeleteKeepsValid<V>(t: Table<V>, hash: Hash, key: Key)
    requires Valid(t, hash) && TableDelete(t, hash, key).Ok?
    ensures Valid(TableDelete(t, hash, key).value, hash)
    ensures forall p :: 0 <= p < |t.slots| && TableDelete(t, hash, key).value.slots[p].Full? ==>
      TableDelete(t, hash, key).value.slots[p].key != key
    ensures Empty in TableDelete(t, hash, key).value.slots
  {
    var s := t.slots;
    var i := FindSlot(s, t.capacity, hash, key).value;
    var t' := TableDelete(t, hash, key).value;
    ClearLeavesHole(s, hash, i);
    ShiftFixedCloses(s[i := Empty], hash, i);
    RemovedKeyGone(s, t'.slots, i);
    assert Empty in multiset(t'.slots);
  }

  /** After the corrected `delete`, `get` of its key raises `KeyError`, and
      `get` of every other key returns what it returned before. */
  lemma TableDeleteThenGet<V>(t: Table<V>, hash: Hash, key: Key, k: Key, v: V)
    requires Valid(t, hash) && TableDelete(t, hash, key).Ok?
    ensures TableGet(TableDelete(t, hash, key).value, hash, key) == Err(KeyNotFound)
    ensures k != key ==>
      (TableGet(TableDelete(t, hash, key).value, hash, k) == Ok(v) <==> TableGet(t, hash, k) == Ok(v))
  {
    var s := t.slots;
    var i := FindSlot(s, t.capacity, hash, key).value;
    var t' := TableDelete(t, hash, key).value;
    TableDeleteKeepsValid(t, hash, key);
    TableGetExact(t', hash, key, v);
    if k != key {
      TableGetExact(t', hash, k, v);
      TableGetExact(t, hash, k, v);
      OtherEntriesKept(s, t'.slots, i, k, v);
    }
  }

  // ---- The script as written: slots hold references ----

  /** `data[p]` is the index in `cells` of the `HashItem` object slot `p`
      refers to. */
  datatype Store<V> = Store(capacity: int, size: int, data: seq<nat>, cells: seq<Cell<V>>)

  predicate StoreWf<V>(m: Store<V>) {
    |m.data| == Width(m.capacity) && forall p :: 0 <= p < |m.data| ==> m.data[p] < |m.cells|
  }

  /** What the list shows: the object behind each slot. */
  function View<V>(m: Store<V>): (s: seq<Cell<V>>)
    requires StoreWf(m)
    ensures |s| == |m.data| && forall p :: 0 <= p < |s| ==> s[p] == m.cells[m.data[p]]
  {
    seq(|m.data|, p requires 0 <= p < |m.data| => m.cells[m.data[p]])
  }

  function AsTable<V>(m: Store<V>): Table<V>
    requires StoreWf(m)
  {
    Table(m.capacity, m.size, View(m))
  }

  /** No two slots share an object. */
  ghost predicate Unshared(data: seq<nat>) {
    forall p, q :: 0 <= p < |data| && 0 <= q < |data| && p != q ==> data[p] != data[q]
  }

  /** `FixedHashMap(capacity)`: a fresh `HashItem` per slot. */
  function NewStore<V>(capacity: int): (m: Store<V>)
    ensures StoreWf(m) && Unshared(m.data) && AsTable(m) == NewTable(capacity)
  {
    var n := Width(capacity);
    Store(capacity, 0, seq(n, p => p), seq(n, _ => Empty))
  }

  /** `get` reads through the slot's reference: the value of the object
      the found slot refers to, `KeyError` when that object is falsy. */
  function Get<V>(m: Store<V>, hash: Hash, key: Key): (r: Result<V, MapError>)
    requires StoreWf(m)
    ensures r.Ok? ==> exists p :: 0 <= p < |m.data| && m.cells[m.data[p]] == Full(key, r.value)
    ensures FindSlot(View(m), m.capacity, hash, key).Err? ==> r == Err(FindSlot(View(m), m.capacity, hash, key).error)
    ensures FindSlot(View(m), m.capacity, hash, key).Ok? ==>
      var c := m.cells[m.data[FindSlot(View(m), m.capacity, hash, key).value]];
      (r.Err? <==> c.Empty?) && (r.Err? ==> r.error == KeyNotFound)
  {
    var i :- FindSlot(View(m), m.capacity, hash, key);
    var c := m.cells[m.data[i]];
    if c.Empty? then Err(KeyNotFound) else Ok(c.value)
  }

  /** Reading through the references is reading the list of objects. */
  lemma GetIsTableGet<V>(m: Store<V>, hash: Hash, key: Key)
    requires StoreWf(m)
    ensures Get(m, hash, key) == TableGet(AsTable(m), hash, key)
  {
  }

  /** While the objects form a valid map, `get` returns exactly the values
      some slot's object holds under the key. */
  lemma GetExact<V>(m: Store<V>, hash: Hash, key: Key, v: V)
    requires StoreWf(m) && Valid(AsTable(m), hash) && m.capacity > 0
    ensures Get(m, hash, key) == Ok(v) <==> exists p :: 0 <= p < |m.data| && m.cells[m.data[p]] == Full(key, v)
  {
    GetIsTableGet(m, hash, key);
    TableGetExact(AsTable(m), hash, key, v);
    var s := View(m);
    if exists p :: 0 <= p < |m.data| && m.cells[m.data[p]] == Full(key, v) {
      var p :| 0 <= p < |m.data| && m.cells[m.data[p]] == Full(key, v);
      assert s[p] == Full(key, v);
    }
  }

  /** `set` writes into the object the found slot refers to. While no two
      slots share an object this is `TableSet`. */
  function Set<V>(m: Store<V>, hash: Hash, key: Key, value: V): (r: Result<Store<V>, MapError>)
    requires StoreWf(m)
    ensures r.Ok? <==> TableSet(AsTable(m), hash, key, value).Ok?
    ensures r.Err? ==> r == Err(TableSet(AsTable(m), hash, key, value).error)
    ensures r.Ok? ==> StoreWf(r.value) && r.value.data == m.data
    ensures r.Ok? && Unshared(m.data) ==> AsTable(r.value) == TableSet(AsTable(m), hash, key, value).value
  {
    if !key.Str? then Err(KeyNotString)
    else if m.size == m.capacity then Err(MapFull)
    else
      var i :- FindSlot(View(m), m.capacity, hash, key);
      var c := m.cells[m.data[i]];
      if c.Full? then Ok(m.(cells := m.cells[m.data[i] := Full(c.key, value)]))
      else Ok(m.(cells := m.cells[m.data[i] := Full(key, value)], size := m.size + 1))
  }

  /** The objects that hold an entry. */
  function FullCells<V>(cells: seq<Cell<V>>): set<nat> {
    set c | 0 <= c < |cells| && cells[c].Full?
  }

  /** The shift loop of `delete` as written, with `i` the slot whose object
      is cleared next: `self.data[i] = self.data[j]` makes slot `i` refer to
      slot `j`'s object, and the next round's `clear()` empties that shared
      object, so slot `i` is emptied again. Every round empties one more
      object; no object gains an entry. */
  function ShiftAsWritten<V>(m: Store<V>, hash: Hash, i: nat): (r: Store<V>)
    requires StoreWf(m) && i < |m.data| && m.cells[m.data[i]].Full?
    ensures StoreWf(r) && r.capacity == m.capacity && r.size == m.size && |r.cells| == |m.cells|
    ensures r.cells[m.data[i]] == Empty
    ensures forall c :: 0 <= c < |r.cells| && r.cells[c].Full? ==> r.cells[c] == m.cells[c]
    decreases FullCells(m.cells)
  {
    var m1 := m.(cells := m.cells[m.data[i] := Empty]);
    assert FullCells(m1.cells) < FullCells(m.cells) by {
      assert m.data[i] in FullCells(m.cells) - FullCells(m1.cells);
    }
    match Scan(View(m1), hash, i, 0)
    case Stop(_) => m1
    case Move(t) =>
      var j := Pos(i, t, |m.data|);
      ShiftAsWritten(m1.(data := m1.data[i := m1.data[j]]), hash, j)
  }

  /** `delete` as written. */
  function Delete<V>(m: Store<V>, hash: Hash, key: Key): (r: Result<Store<V>, MapError>)
    requires StoreWf(m)
    ensures r.Ok? <==> FindSlot(View(m), m.capacity, hash, key).Ok? && View(m)[FindSlot(View(m), m.capacity, hash, key).value].Full?
    ensures r.Ok? ==> StoreWf(r.value) && r.value.capacity == m.capacity && r.value.size == m.size - 1
    ensures r.Ok? ==> |r.value.cells| == |m.cells| && r.value.cells[m.data[FindSlot(View(m), m.capacity, hash, key).value]] == Empty
  {
    var i :- FindSlot(View(m), m.capacity, hash, key);
    if m.cells[m.data[i]].Empty? then Err(KeyNotFound)
    else
      var m' := ShiftAsWritten(m, hash, i);
      Ok(m'.(size := m.size - 1))
  }

  // ---- The lost entry ----

  /** Every key hashes to 0. */
  function ZeroHash(k: Key): int {
    0
  }

  /** Capacity 3, `"a"` stored in slot 0 and `"b"` in slot 1 (both with
      home 0). */
  function Before(): Store<int> {
    Store(3, 2, [0, 1, 2], [Full(Str("a"), 1), Full(Str("b"), 2), Empty])
  }

  /** `"a"` alone, in slot 0. */
  function OnlyA(): Store<int> {
    Store(3, 1, [0, 1, 2], [Full(Str("a"), 1), Empty, Empty])
  }

  /** `set` of a new key writes into the object of the falsy slot found. */
  lemma SetIntoFalsySlot<V>(m: Store<V>, hash: Hash, key: Key, value: V, i: nat)
    requires StoreWf(m) && key.Str? && m.size != m.capacity
    requires FindSlot(View(m), m.capacity, hash, key) == Ok(i) && m.cells[m.data[i]].Empty?
    ensures Set(m, hash, key, value) == Ok(m.(cells := m.cells[m.data[i] := Full(key, value)], size := m.size + 1))
  {
  }

  /** With every key at home 0 in three slots, the probe stops at the
      first slot that stops it. */
  lemma FindInThree<V>(s: seq<Cell<V>>, key: Key, target: nat)
    requires |s| == 3 && target < 3 && Stops(s[target], key)
    requires forall u :: 0 <= u < target ==> !Stops(s[u], key)
    ensures FindSlot(s, 3, ZeroHash, key) == Ok(target)
  {
    forall u | 0 <= u < target
      ensures !Stops(s[Pos(0, u, 3)], key)
    {
      assert Pos(0, u, 3) == u;
    }
    ProbeFindsFirstStop(s, key, 0, 0, target);
  }

  lemma SetFirst()
    ensures Set(NewStore<int>(3), ZeroHash, Str("a"), 1) == Ok(OnlyA())
  {
    var m0 := NewStore<int>(3);
    assert m0 == Store(3, 0, [0, 1, 2], [Empty, Empty, Empty]);
    assert View(m0) == [Empty, Empty, Empty];
    FindInThree(View(m0), Str("a"), 0);
    SetIntoFalsySlot(m0, ZeroHash, Str("a"), 1, 0);
    assert m0.cells[0 := Full(Str("a"), 1)] == OnlyA().cells;
  }

  lemma SetSecond()
    ensures Set(OnlyA(), ZeroHash, Str("b"), 2) == Ok(Before())
  {
    var m := OnlyA();
    var m' := m.(cells := m.cells[1 := Full(Str("b"), 2)], size := 2);
    FindB();
    assert Set(m, ZeroHash, Str("b"), 2) == Ok(m') by {
      SetIntoFalsySlot(m, ZeroHash, Str("b"), 2, 1);
    }
    assert m' == Before() by {
      assert m.cells[1 := Full(Str("b"), 2)] == Before().cells;
    }
  }

  lemma FindB()
    ensures FindSlot(View(OnlyA()), 3, ZeroHash, Str("b")) == Ok(1)
  {
    ViewOnlyA();
    var v: seq<Cell<int>> := [Full(Str("a"), 1), Empty, Empty];
    assert FindSlot(v, 3, ZeroHash, Str("b")) == Ok(1) by {
      FindInThree(v, Str("b"), 1);
    }
  }

  lemma ViewOnlyA()
    ensures View(OnlyA()) == [Full(Str("a"), 1), Empty, Empty]
  {
  }

  /** The script's own calls build `Before()`. */
  lemma BeforeIsBuilt()
    ensures Set(NewStore<int>(3), ZeroHash, Str("a"), 1).Ok?
    ensures Set(Set(NewStore<int>(3), ZeroHash, Str("a"), 1).value, ZeroHash, Str("b"), 2) == Ok(Before())
  {
    SetFirst();
    SetSecond();
  }

  /** Deleting `"a"` moves `"b"` into slot 0 by reference and then clears
      the shared object: `"b"` is gone although `size` is still 1. */
  lemma DeleteLosesEntry()
    ensures Delete(Before(), ZeroHash, Str("a")).Ok?
    ensures var m := Delete(Before(), ZeroHash, Str("a")).value;
      && m.size == 1
      && Keys(View(m)) == []
      && Get(m, ZeroHash, Str("b")) == Err(KeyNotFound)
  {
    DeleteShares();
    var r: Store<int> := Store(3, 1, [1, 1, 2], [Empty, Empty, Empty]);
    assert View(r) == [Empty, Empty, Empty];
    FindInThree(View(r), Str("b"), 0);
  }

  lemma DeleteShares()
    ensures Delete(Before(), ZeroHash, Str("a")) == Ok(Store(3, 1, [1, 1, 2], [Empty, Empty, Empty]))
  {
    var m := Before();
    assert View(m) == [Full(Str("a"), 1), Full(Str("b"), 2), Empty];
    FindInThree(View(m), Str("a"), 0);
    ShiftShares();
  }

  lemma ShiftShares()
    ensures ShiftAsWritten(Before(), ZeroHash, 0) == Store(3, 2, [1, 1, 2], [Empty, Empty, Empty])
  {
    var m := Before();
    var m1 := m.(cells := m.cells[0 := Empty]);
    assert View(m1) == [Empty, Full(Str("b"), 2), Empty];
    assert Scan(View(m1), ZeroHash, 0, 0) == Move(1);
    var m2 := m1.(data := [1, 1, 2]);
    var m3 := m2.(cells := m2.cells[1 := Empty]);
    assert View(m3) == [Empty, Empty, Empty];
    assert Scan(View(m3), ZeroHash, 1, 0) == Stop(1);
  }

  /** With the entry copied instead, `"b"` moves to slot 0 and stays
      readable. */
  lemma TableDeleteKeepsEntry()
    ensures TableDelete(AsTable(Before()), ZeroHash, Str("a")).Ok?
    ensures TableGet(TableDelete(AsTable(Before()), ZeroHash, Str("a")).value, ZeroHash, Str("b")) == Ok(2)
  {
    TableDeleteMoves();
    FindInThree([Full(Str("b"), 2), Empty, Empty], Str("b"), 0);
  }

  lemma TableDeleteMoves()
    ensures TableDelete(AsTable(Before()), ZeroHash, Str("a")) == Ok(Table(3, 1, [Full(Str("b"), 2), Empty, Empty]))
  {
    var t := Table(3, 2, [Full(Str("a"), 1), Full(Str("b"), 2), Empty]);
    assert AsTable(Before()) == t;
    FindInThree(t.slots, Str("a"), 0);
    var cleared: seq<Cell<int>> := [Empty, Full(Str("b"), 2), Empty];
    assert t.slots[0 := Empty] == cleared;
    ShiftFixedMoves();
  }

  lemma ShiftFixedMoves()
    ensures ShiftFixed([Empty, Full(Str("b"), 2), Empty], ZeroHash, 0) == [Full(Str("b"), 2), Empty, Empty]
  {
    var cleared: seq<Cell<int>> := [Empty, Full(Str("b"), 2), Empty];
    assert Scan(cleared, ZeroHash, 0, 0) == Move(1);
    var moved: seq<Cell<int>> := [Full(Str("b"), 2), Empty, Empty];
    assert cleared[0 := cleared[1]][1 := Empty] == moved;
    assert Scan(moved, ZeroHash, 1, 0) == Stop(1);
    assert ShiftFixed(moved, ZeroHash, 1) == moved;
  }
}
