/** `FixedHashMap` of datastructures/fixed_hash_map.py: a fixed array of
    `HashItem` slots with linear probing and tombstone deletion. A slot is
    unused (key `None`), holds a key and its value, or is a tombstone; a
    probe skips occupied slots of other keys and every tombstone, and gives
    up once its step count reaches `size`. Python's `hash()` is a parameter
    (`None` stands for an unhashable key). */
module TombstoneMap {
  import opened Results
  import opened Cyclic

  datatype Pair<K, V> = Pair(key: K, value: V)

  /** `HashItem`: `pair` is `None` exactly when the Python key is `None`. */
  datatype Entry<K, V> = Entry(pair: Option<Pair<K, V>>, tombstone: bool)

  /** `ValueError` (unhashable key), `ZeroDivisionError` (capacity 0),
      `IndexError` (negative capacity: the slot list is empty), `KeyError`
      and `MemoryError`. */
  datatype MapError = Unhashable | ZeroDivision | IndexOutOfRange | KeyNotFound | Full

  datatype FixedMap<K, V> = FixedMap(capacity: int, size: int, data: seq<Entry<K, V>>)

  type Hash<!K> = K -> Option<int>

  function Unused<K, V>(): Entry<K, V> {
    Entry(None, false)
  }

  /** `HashItem.__bool__`: true when the key is set. */
  predicate Occupied<K, V>(e: Entry<K, V>) {
    e.pair.Some?
  }

  /** The loop test of `_find_slot`: step past an occupied slot holding
      another key, and past every tombstone. */
  predicate Continue<K(==), V>(e: Entry<K, V>, key: K) {
    (e.pair.Some? && e.pair.value.key != key) || e.tombstone
  }

  /** The shape every map has: one slot per unit of (non-negative)
      capacity, and `size` never above that, since `set` refuses to grow a
      map whose size has reached its capacity. */
  predicate WellFormed<K, V>(m: FixedMap<K, V>) {
    |m.data| == (if m.capacity > 0 then m.capacity else 0) && m.size <= |m.data|
  }

  /** `FixedHashMap(capacity)`: `capacity` unused slots and size 0. */
  function New<K, V>(capacity: int): (m: FixedMap<K, V>)
    ensures WellFormed(m) && m.capacity == capacity && m.size == 0
    ensures forall i :: 0 <= i < |m.data| ==> !Occupied(m.data[i]) && !m.data[i].tombstone
  {
    var n := if capacity > 0 then capacity else 0;
    FixedMap(capacity, 0, seq(n, _ => Unused()))
  }

  /** The number of slots a probe may examine before giving up at `limit`:
      the first slot is always examined. */
  function Bound(limit: int): nat {
    if limit < 1 then 1 else limit
  }

  /** The probe stops at step `w` and at no step in `[from, w)`. */
  ghost predicate FirstStop<K, V>(data: seq<Entry<K, V>>, key: K, home: nat, from: nat, w: nat)
    requires home < |data| && w < |data|
  {
    && !Continue(data[Pos(home, w, |data|)], key)
    && forall u :: from <= u < w ==> Continue(data[Pos(home, u, |data|)], key)
  }

  /** The `while` loop of `_find_slot`, entered at step `count` with
      `hash_idx == i`: it returns the step count at which it stops, or
      `KeyError` once `count` reaches `limit` (`self.size` in the code). */
  function Probe<K(==), V>(data: seq<Entry<K, V>>, key: K, home: nat, i: nat, count: nat, limit: int): (r: Result<nat, MapError>)
    requires home < |data| && Bound(limit) <= |data|
    requires count < Bound(limit) && i == Pos(home, count, |data|)
    ensures r.Ok? ==> count <= r.value < Bound(limit) && FirstStop(data, key, home, count, r.value)
    ensures r.Err? ==> r.error == KeyNotFound
    ensures r.Err? ==> forall u :: count <= u < Bound(limit) ==> Continue(data[Pos(home, u, |data|)], key)
    decreases Bound(limit) - count
  {
    if !Continue(data[i], key) then Ok(count)
    else
      var next := (i + 1) % |data|;
      if count + 1 >= limit then Err(KeyNotFound)
      else
        PosNext(home, count, |data|);
        Probe(data, key, home, next, count + 1, limit)
  }

  /** The probe's answer is determined by the first stop: when step `w` is
      the first stop at or after `count` and lies within the bound, the
      probe returns exactly `w`. */
  lemma {:induction false} ProbeFindsFirstStop<K, V>(data: seq<Entry<K, V>>, key: K, home: nat, i: nat, count: nat, limit: int, w: nat)
    requires home < |data| && Bound(limit) <= |data|
    requires count < Bound(limit) && i == Pos(home, count, |data|)
    requires count <= w < Bound(limit) && FirstStop(data, key, home, count, w)
    ensures Probe(data, key, home, i, count, limit) == Ok(w)
    decreases w - count
  {
    if count < w {
      assert Continue(data[i], key);
      PosNext(home, count, |data|);
      ProbeFindsFirstStop(data, key, home, (i + 1) % |data|, count + 1, limit, w);
    }
  }

  /** Where the probe for `key` starts. */
  function Home<K, V>(m: FixedMap<K, V>, h: int): nat
    requires m.capacity > 0
  {
    h % m.capacity
  }

  /** The step count `_find_slot` ends with, probing at most
      `Bound(limit)` slots. */
  function Steps<K(==), V>(m: FixedMap<K, V>, hash: Hash<K>, key: K, limit: int): (r: Result<nat, MapError>)
    requires WellFormed(m) && limit <= |m.data|
    ensures hash(key).None? ==> r == Err(Unhashable)
    ensures hash(key).Some? && m.capacity == 0 ==> r == Err(ZeroDivision)
    ensures hash(key).Some? && m.capacity < 0 ==> r == Err(IndexOutOfRange)
    ensures r.Ok? ==> hash(key).Some? && m.capacity > 0 && r.value < Bound(limit)
    ensures r.Ok? ==> FirstStop(m.data, key, Home(m, hash(key).value), 0, r.value)
    ensures r.Err? && hash(key).Some? && m.capacity > 0 ==>
      && r.error == KeyNotFound
      && forall u :: 0 <= u < Bound(limit) ==> Continue(m.data[Pos(Home(m, hash(key).value), u, |m.data|)], key)
  {
    match hash(key)
    case None => Err(Unhashable)
    case Some(h) =>
      if m.capacity == 0 then Err(ZeroDivision)
      else if m.capacity < 0 then Err(IndexOutOfRange)
      else
        var home := Home(m, h);
        Probe(m.data, key, home, home, 0, limit)
  }

  /** `_find_slot` with give-up bound `limit`: the slot it returns holds
      `key` or is unused, and is never a tombstone. */
  function FindSlotWithin<K(==), V>(m: FixedMap<K, V>, hash: Hash<K>, key: K, limit: int): (r: Result<nat, MapError>)
    requires WellFormed(m) && limit <= |m.data|
    ensures r.Ok? <==> Steps(m, hash, key, limit).Ok?
    ensures r.Err? ==> r.error == Steps(m, hash, key, limit).error
    ensures r.Ok? ==> r.value < |m.data|
    ensures r.Ok? ==> r.value == Pos(Home(m, hash(key).value), Steps(m, hash, key, limit).value, |m.data|)
    ensures r.Ok? ==> !m.data[r.value].tombstone
    ensures r.Ok? ==> !Occupied(m.data[r.value]) || m.data[r.value].pair.value.key == key
  {
    var w :- Steps(m, hash, key, limit);
    Ok(Pos(Home(m, hash(key).value), w, |m.data|))
  }

  /** `_find_slot` as written: it gives up once its step count reaches
      `self.size`, so it examines at most `max(size, 1)` slots from the
      key's home, whatever the capacity. */
  function FindSlot<K(==), V>(m: FixedMap<K, V>, hash: Hash<K>, key: K): (r: Result<nat, MapError>)
    requires WellFormed(m)
    ensures hash(key).None? ==> r == Err(Unhashable)
    ensures r.Ok? ==> hash(key).Some? && m.capacity > 0 && r.value < |m.data|
    ensures r.Ok? ==> !m.data[r.value].tombstone
    ensures r.Ok? ==> !Occupied(m.data[r.value]) || m.data[r.value].pair.value.key == key
    ensures r.Ok? ==> var home := Home(m, hash(key).value);
      && Dist(home, r.value, |m.data|) < Bound(m.size)
      && forall u :: 0 <= u < Dist(home, r.value, |m.data|) ==> Continue(m.data[Pos(home, u, |m.data|)], key)
    ensures r.Err? && hash(key).Some? && m.capacity > 0 ==>
      && r.error == KeyNotFound
      && forall u :: 0 <= u < Bound(m.size) ==> Continue(m.data[Pos(Home(m, hash(key).value), u, |m.data|)], key)
  {
    var r := FindSlotWithin(m, hash, key, m.size);
    if r.Ok? then
      DistPos(Home(m, hash(key).value), Steps(m, hash, key, m.size).value, |m.data|);
      r
    else r
  }

  /** `get_hash_item` as written: its `is not None` test holds for every
      slot object, so it returns whatever slot `_find_slot` found, unused
      or not. `get` reads that slot's value, `None` for an unused slot. */
  function Get<K(==), V>(m: FixedMap<K, V>, hash: Hash<K>, key: K): (r: Result<Option<V>, MapError>)
    requires WellFormed(m)
    ensures r.Ok? <==> FindSlot(m, hash, key).Ok?
    ensures r.Ok? ==> var i := FindSlot(m, hash, key).value;
      r.value == if Occupied(m.data[i]) then Some(m.data[i].pair.value.value) else None
    ensures r.Ok? && r.value.Some? ==> exists i :: 0 <= i < |m.data| && m.data[i].pair == Some(Pair(key, r.value.value))
  {
    var i :- FindSlot(m, hash, key);
    Ok(if Occupied(m.data[i]) then Some(m.data[i].pair.value.value) else None)
  }

  /** `set`: `MemoryError` once `size >= capacity`, whatever the key;
      otherwise the found slot gets the value (an existing key keeps its
      slot and the size) or the key and value (size grows by one). The
      tombstone flag of the slot is cleared, which it already was. */
  function Set<K(==), V>(m: FixedMap<K, V>, hash: Hash<K>, key: K, value: V): (r: Result<FixedMap<K, V>, MapError>)
    requires WellFormed(m)
    ensures m.size >= m.capacity ==> r == Err(Full)
    ensures r.Ok? <==> m.size < m.capacity && FindSlot(m, hash, key).Ok?
    ensures r.Ok? ==> WellFormed(r.value) && r.value.size <= r.value.capacity == m.capacity
    ensures r.Ok? ==> var i := FindSlot(m, hash, key).value;
      && r.value.data == m.data[i := Entry(Some(Pair(key, value)), false)]
      && r.value.size == m.size + (if Occupied(m.data[i]) then 0 else 1)
    ensures r.Ok? ==> forall j :: 0 <= j < |m.data| && m.data[j].tombstone ==> r.value.data[j].tombstone
  {
    if m.size >= m.capacity then Err(Full)
    else
      var i :- FindSlot(m, hash, key);
      if Occupied(m.data[i]) then
        Ok(m.(data := m.data[i := Entry(Some(Pair(m.data[i].pair.value.key, value)), false)]))
      else
        Ok(m.(data := m.data[i := Entry(Some(Pair(key, value)), false)], size := m.size + 1))
  }

  /** `delete` as written: the found slot, unused or not, becomes a
      tombstone and `size` drops by one. */
  function Delete<K(==), V>(m: FixedMap<K, V>, hash: Hash<K>, key: K): (r: Result<FixedMap<K, V>, MapError>)
    requires WellFormed(m)
    ensures r.Ok? <==> FindSlot(m, hash, key).Ok?
    ensures r.Ok? ==> WellFormed(r.value) && r.value.capacity == m.capacity
    ensures r.Ok? ==> r.value.size == m.size - 1
    ensures r.Ok? ==> r.value.data == m.data[FindSlot(m, hash, key).value := Entry(None, true)]
    ensures r.Ok? ==> forall j :: 0 <= j < |m.data| && m.data[j].tombstone ==> r.value.data[j].tombstone
  {
    var i :- FindSlot(m, hash, key);
    Ok(m.(data := m.data[i := Entry(None, true)], size := m.size - 1))
  }

  /** `keys()`: the keys of the occupied slots, in slot order. */
  function Keys<K, V>(data: seq<Entry<K, V>>): (r: seq<K>)
    ensures |r| == Count(data)
    ensures forall j :: 0 <= j < |r| ==> exists i :: 0 <= i < |data| && data[i].pair.Some? && data[i].pair.value.key == r[j]
    ensures forall i :: 0 <= i < |data| && data[i].pair.Some? ==> data[i].pair.value.key in r
  {
    if |data| == 0 then []
    else
      var last := data[|data| - 1];
      var init := data[..|data| - 1];
      assert forall i :: 0 <= i < |init| ==> init[i] == data[i];
      Keys(init) + (if last.pair.Some? then [last.pair.value.key] else [])
  }

  /** `keys()` lists keys in slot order: the keys of a run of slots
      followed by a second run are those of the first, then the second. */
  lemma {:induction false} KeysInSlotOrder<K, V>(a: seq<Entry<K, V>>, b: seq<Entry<K, V>>)
    ensures Keys(a + b) == Keys(a) + Keys(b)
    decreases |b|
  {
    if |b| == 0 {
      assert a + b == a;
    } else {
      var init := b[..|b| - 1];
      assert (a + b)[..|a + b| - 1] == a + init;
      assert (a + b)[|a + b| - 1] == b[|b| - 1];
      KeysInSlotOrder(a, init);
    }
  }

  /** The number of occupied slots. */
  function Count<K, V>(data: seq<Entry<K, V>>): nat {
    if |data| == 0 then 0
    else Count(data[..|data| - 1]) + (if data[|data| - 1].pair.Some? then 1 else 0)
  }

  lemma {:induction false} CountUpdate<K, V>(data: seq<Entry<K, V>>, i: nat, e: Entry<K, V>)
    requires i < |data|
    ensures Count(data[i := e]) == Count(data) - (if data[i].pair.Some? then 1 else 0) + (if e.pair.Some? then 1 else 0)
    decreases |data|
  {
    var d := data[i := e];
    if i < |data| - 1 {
      assert d[..|d| - 1] == data[..|data| - 1][i := e];
      CountUpdate(data[..|data| - 1], i, e);
    } else {
      assert d[..|d| - 1] == data[..|data| - 1];
    }
  }

  lemma {:induction false} CountUnused<K, V>(n: nat)
    ensures Count(seq(n, _ => Unused<K, V>())) == 0
  {
    if n > 0 {
      assert seq(n, _ => Unused<K, V>())[..n - 1] == seq(n - 1, _ => Unused<K, V>());
      CountUnused<K, V>(n - 1);
    }
  }

  /** Right after a successful `set(k, v)`, `get(k)` returns `v`: the probe
      takes the same steps (their slots are unchanged and `size` did not
      shrink) and stops at the slot that now holds `k`. */
  lemma SetThenGet<K, V>(m: FixedMap<K, V>, hash: Hash<K>, key: K, value: V)
    requires WellFormed(m) && Set(m, hash, key, value).Ok?
    ensures Get(Set(m, hash, key, value).value, hash, key) == Ok(Some(value))
  {
    var m' := Set(m, hash, key, value).value;
    var n := |m.data|;
    var home := Home(m, hash(key).value);
    var w := Steps(m, hash, key, m.size).value;
    var i := Pos(home, w, n);
    assert Bound(m.size) <= Bound(m'.size);
    forall u | 0 <= u < w
      ensures Continue(m'.data[Pos(home, u, n)], key)
    {
      if Pos(home, u, n) == i {
        PosInjective(home, u, w, n);
      }
    }
    assert FirstStop(m'.data, key, home, 0, w);
    ProbeFindsFirstStop(m'.data, key, home, home, 0, m'.size, w);
  }

  // ---- Counterexamples for the code as written ----

  /** The identity hash on integers. */
  function IntHash(x: int): Option<int> {
    Some(x)
  }

  /** `get` of a key that was never stored returns `None` instead of
      raising `KeyError`, and `delete` of it succeeds and drives `size`
      below zero. */
  lemma AbsentKeyAccepted()
    ensures Get(New<int, int>(4), IntHash, 7) == Ok(None)
    ensures Delete(New<int, int>(4), IntHash, 7).Ok?
    ensures Delete(New<int, int>(4), IntHash, 7).value.size == -1
  {
    var m := New<int, int>(4);
    assert FirstStop(m.data, 7, 3, 0, 0);
    ProbeFindsFirstStop(m.data, 7, 3, 3, 0, 0, 0);
  }

  /** Two keys with the same home slot: after the first is stored (size 1),
      storing the second probes one step, reaches `count >= size` and
      raises `KeyError`, although three slots are unused. */
  lemma CollisionRejected()
    ensures Set(New<int, int>(4), IntHash, 0, 10).Ok?
    ensures Set(Set(New<int, int>(4), IntHash, 0, 10).value, IntHash, 4, 20) == Err(KeyNotFound)
  {
    var m := New<int, int>(4);
    assert FirstStop(m.data, 0, 0, 0, 0);
    ProbeFindsFirstStop(m.data, 0, 0, 0, 0, 0, 0);
    var m1 := Set(m, IntHash, 0, 10).value;
    assert m1.data[0] == Entry(Some(Pair(0, 10)), false);
  }

  // ---- The corrected map ----

  /** `_find_slot` as evidently intended: a full sweep of `capacity`
      slots, so `KeyError` means no slot of the ring stops the probe. */
  function FindSlotFixed<K(==), V>(m: FixedMap<K, V>, hash: Hash<K>, key: K): (r: Result<nat, MapError>)
    requires WellFormed(m)
    ensures hash(key).None? ==> r == Err(Unhashable)
    ensures r.Ok? ==> hash(key).Some? && m.capacity > 0 && r.value < |m.data|
    ensures r.Ok? ==> !m.data[r.value].tombstone
    ensures r.Ok? ==> !Occupied(m.data[r.value]) || m.data[r.value].pair.value.key == key
    ensures r.Ok? ==> var home := Home(m, hash(key).value);
      forall u :: 0 <= u < Dist(home, r.value, |m.data|) ==> Continue(m.data[Pos(home, u, |m.data|)], key)
    ensures r.Err? && hash(key).Some? && m.capacity > 0 ==>
      && r.error == KeyNotFound
      && forall p :: 0 <= p < |m.data| ==> Continue(m.data[p], key)
  {
    var r := FindSlotWithin(m, hash, key, m.capacity);
    if r.Ok? then
      DistPos(Home(m, hash(key).value), Steps(m, hash, key, m.capacity).value, |m.data|);
      r
    else if hash(key).Some? && m.capacity > 0 then
      FullSweepMisses(m, key, Home(m, hash(key).value));
      r
    else r
  }

  /** A probe that continues for a full lap continues at every slot. */
  lemma FullSweepMisses<K, V>(m: FixedMap<K, V>, key: K, home: nat)
    requires WellFormed(m) && home < |m.data|
    requires forall u :: 0 <= u < |m.data| ==> Continue(m.data[Pos(home, u, |m.data|)], key)
    ensures forall p :: 0 <= p < |m.data| ==> Continue(m.data[p], key)
  {
    forall p | 0 <= p < |m.data|
      ensures Continue(m.data[p], key)
    {
      PosDist(home, p, |m.data|);
    }
  }

  /** The probe for the key stored in slot `i` reaches `i` before any
      stop. */
  ghost predicate Findable<K, V>(m: FixedMap<K, V>, hash: Hash<K>, i: nat)
    requires WellFormed(m) && i < |m.data| && Occupied(m.data[i])
    requires hash(m.data[i].pair.value.key).Some?
  {
    var k := m.data[i].pair.value.key;
    var home := Home(m, hash(k).value);
    forall u :: 0 <= u < Dist(home, i, |m.data|) ==> Continue(m.data[Pos(home, u, |m.data|)], k)
  }

  /** The corrected map's invariant: `size` counts the occupied slots, an
      occupied slot is no tombstone and holds a hashable key, and every
      stored key is found by its probe. */
  ghost predicate Valid<K, V>(m: FixedMap<K, V>, hash: Hash<K>) {
    && WellFormed(m)
    && m.size == Count(m.data)
    && (forall i :: 0 <= i < |m.data| && Occupied(m.data[i]) ==>
          !m.data[i].tombstone && hash(m.data[i].pair.value.key).Some?)
    && (forall i :: 0 <= i < |m.data| && Occupied(m.data[i]) ==> Findable(m, hash, i))
  }

  lemma NewIsValid<K, V>(capacity: int, hash: Hash<K>)
    ensures Valid(New<K, V>(capacity), hash)
    ensures Keys(New<K, V>(capacity).data) == []
  {
    var n := if capacity > 0 then capacity else 0;
    CountUnused<K, V>(n);
  }

  /** In a valid map the corrected probe for a stored key ends at its slot;
      hence each key is stored at most once. */
  lemma FoundAtItsSlot<K, V>(m: FixedMap<K, V>, hash: Hash<K>, i: nat)
    requires Valid(m, hash) && i < |m.data| && Occupied(m.data[i])
    ensures FindSlotFixed(m, hash, m.data[i].pair.value.key) == Ok(i)
  {
    var k := m.data[i].pair.value.key;
    var n := |m.data|;
    var home := Home(m, hash(k).value);
    var d := Dist(home, i, n);
    PosDist(home, i, n);
    assert Findable(m, hash, i);
    assert FirstStop(m.data, k, home, 0, d);
    ProbeFindsFirstStop(m.data, k, home, home, 0, m.capacity, d);
  }

  /** A key is stored in at most one slot of a valid map. */
  lemma KeysDistinct<K, V>(m: FixedMap<K, V>, hash: Hash<K>, i: nat, j: nat)
    requires Valid(m, hash) && i < |m.data| && j < |m.data|
    requires Occupied(m.data[i]) && Occupied(m.data[j])
    requires m.data[i].pair.value.key == m.data[j].pair.value.key
    ensures i == j
  {
    FoundAtItsSlot(m, hash, i);
    FoundAtItsSlot(m, hash, j);
  }

  /** `get` as evidently intended: `KeyError` unless the found slot holds
      the key. */
  function GetFixed<K(==), V>(m: FixedMap<K, V>, hash: Hash<K>, key: K): (r: Result<V, MapError>)
    requires WellFormed(m)
    ensures r.Ok? ==> exists i :: 0 <= i < |m.data| && m.data[i].pair == Some(Pair(key, r.value))
  {
    var i :- FindSlotFixed(m, hash, key);
    if Occupied(m.data[i]) then Ok(m.data[i].pair.value.value) else Err(KeyNotFound)
  }

  /** In a valid map `GetFixed` succeeds exactly for the stored keys, with
      their values, and raises `KeyError` for a hashable absent key. */
  lemma GetFixedExact<K, V>(m: FixedMap<K, V>, hash: Hash<K>, key: K, value: V)
    requires Valid(m, hash)
    ensures GetFixed(m, hash, key) == Ok(value) <==>
      exists i :: 0 <= i < |m.data| && m.data[i].pair == Some(Pair(key, value))
    ensures hash(key).Some? && m.capacity > 0 &&
      (forall i :: 0 <= i < |m.data| && Occupied(m.data[i]) ==> m.data[i].pair.value.key != key)
      ==> GetFixed(m, hash, key) == Err(KeyNotFound)
  {
    if exists i :: 0 <= i < |m.data| && m.data[i].pair == Some(Pair(key, value)) {
      var i :| 0 <= i < |m.data| && m.data[i].pair == Some(Pair(key, value));
      FoundAtItsSlot(m, hash, i);
    }
  }

  /** `set` with the corrected probe. */
  function SetFixed<K(==), V>(m: FixedMap<K, V>, hash: Hash<K>, key: K, value: V): (r: Result<FixedMap<K, V>, MapError>)
    requires WellFormed(m)
    ensures m.size >= m.capacity ==> r == Err(Full)
    ensures r.Ok? <==> m.size < m.capacity && FindSlotFixed(m, hash, key).Ok?
    ensures r.Ok? ==> WellFormed(r.value) && r.value.capacity == m.capacity
    ensures r.Ok? ==> var i := FindSlotFixed(m, hash, key).value;
      && r.value.data == m.data[i := Entry(Some(Pair(key, value)), false)]
      && r.value.size == m.size + (if Occupied(m.data[i]) then 0 else 1)
  {
    if m.size >= m.capacity then Err(Full)
    else
      var i :- FindSlotFixed(m, hash, key);
      if Occupied(m.data[i]) then
        Ok(m.(data := m.data[i := Entry(Some(Pair(m.data[i].pair.value.key, value)), false)]))
      else
        Ok(m.(data := m.data[i := Entry(Some(Pair(key, value)), false)], size := m.size + 1))
  }

  /** `delete` as evidently intended: `KeyError` unless the found slot
      holds the key; then it becomes a tombstone and `size` drops by one. */
  function DeleteFixed<K(==), V>(m: FixedMap<K, V>, hash: Hash<K>, key: K): (r: Result<FixedMap<K, V>, MapError>)
    requires WellFormed(m)
    ensures r.Ok? ==> WellFormed(r.value) && r.value.capacity == m.capacity
    ensures r.Ok? ==> r.value.size == m.size - 1
    ensures r.Ok? ==> FindSlotFixed(m, hash, key).Ok? && var i := FindSlotFixed(m, hash, key).value;
      Occupied(m.data[i]) && r.value.data == m.data[i := Entry(None, true)]
  {
    var i :- FindSlotFixed(m, hash, key);
    if !Occupied(m.data[i]) then Err(KeyNotFound)
    else Ok(m.(data := m.data[i := Entry(None, true)], size := m.size - 1))
  }

  /** Slot `b` replaces slot `a` without stopping any probe `a` let pass:
      it is a tombstone, or `a` was no tombstone and `b` keeps `a`'s key. */
  predicate SlotKept<K(==), V>(a: Entry<K, V>, b: Entry<K, V>) {
    b.tombstone || (!a.tombstone && (a.pair.Some? ==> b.pair.Some? && b.pair.value.key == a.pair.value.key))
  }

  lemma SlotKeptContinues<K, V>(a: Entry<K, V>, b: Entry<K, V>, k: K)
    requires SlotKept(a, b) && Continue(a, k)
    ensures Continue(b, k)
  {
  }

  /** Every slot the old data steps past, the new data steps past too. */
  ghost predicate ContinueKept<K, V>(old_: seq<Entry<K, V>>, new_: seq<Entry<K, V>>) {
    |old_| == |new_| && forall p :: 0 <= p < |old_| ==> SlotKept(old_[p], new_[p])
  }

  /** A slot whose contents did not change stays findable when no slot stops
      a probe it did not stop before. */
  lemma FindableKept<K, V>(m: FixedMap<K, V>, m': FixedMap<K, V>, hash: Hash<K>, j: nat)
    requires WellFormed(m) && WellFormed(m') && m.capacity == m'.capacity
    requires j < |m.data| && Occupied(m.data[j]) && hash(m.data[j].pair.value.key).Some?
    requires Findable(m, hash, j)
    requires ContinueKept(m.data, m'.data) && m'.data[j] == m.data[j]
    ensures Findable(m', hash, j)
  {
    var k := m.data[j].pair.value.key;
    var home := Home(m, hash(k).value);
    forall u | 0 <= u < Dist(home, j, |m.data|)
      ensures Continue(m'.data[Pos(home, u, |m.data|)], k)
    {
      var p := Pos(home, u, |m.data|);
      SlotKeptContinues(m.data[p], m'.data[p], k);
    }
  }

  /** The slot a probe first stops at, once it holds the probed key, is
      findable: every earlier step of the probe still passes. */
  lemma StoredAtStopIsFindable<K, V>(m: FixedMap<K, V>, m': FixedMap<K, V>, hash: Hash<K>, key: K, w: nat, e: Entry<K, V>)
    requires WellFormed(m) && m.capacity > 0 && hash(key).Some?
    requires w < |m.data| && FirstStop(m.data, key, Home(m, hash(key).value), 0, w)
    requires e.pair.Some? && e.pair.value.key == key
    requires m' == m.(data := m.data[Pos(Home(m, hash(key).value), w, |m.data|) := e], size := m'.size)
    requires WellFormed(m')
    ensures Findable(m', hash, Pos(Home(m, hash(key).value), w, |m.data|))
  {
    var n := |m.data|;
    var home := Home(m, hash(key).value);
    var i := Pos(home, w, n);
    PosDist(home, i, n);
    PosInjective(home, w, Dist(home, i, n), n);
    forall u | 0 <= u < w
      ensures Continue(m'.data[Pos(home, u, n)], key)
    {
      if Pos(home, u, n) == i {
        PosInjective(home, u, w, n);
      }
    }
  }

  /** Storing at the slot the corrected probe found keeps every other
      occupied slot findable. */
  lemma SetFixedKeepsFindable<K, V>(m: FixedMap<K, V>, hash: Hash<K>, key: K, value: V)
    requires Valid(m, hash) && SetFixed(m, hash, key, value).Ok?
    ensures var m' := SetFixed(m, hash, key, value).value;
      forall j :: 0 <= j < |m'.data| && Occupied(m'.data[j]) ==> Findable(m', hash, j)
  {
    var m' := SetFixed(m, hash, key, value).value;
    var n := |m.data|;
    var home := Home(m, hash(key).value);
    var w := Steps(m, hash, key, m.capacity).value;
    var i := Pos(home, w, n);
    assert ContinueKept(m.data, m'.data);
    forall j | 0 <= j < n && Occupied(m'.data[j])
      ensures Findable(m', hash, j)
    {
      if j == i {
        StoredAtStopIsFindable(m, m', hash, key, w, m'.data[i]);
      } else {
        FindableKept(m, m', hash, j);
      }
    }
  }

  /** `SetFixed` keeps the map valid, and the stored key can be read back. */
  lemma SetFixedKeepsValid<K, V>(m: FixedMap<K, V>, hash: Hash<K>, key: K, value: V)
    requires Valid(m, hash) && SetFixed(m, hash, key, value).Ok?
    ensures Valid(SetFixed(m, hash, key, value).value, hash)
    ensures GetFixed(SetFixed(m, hash, key, value).value, hash, key) == Ok(value)
  {
    var m' := SetFixed(m, hash, key, value).value;
    var i := FindSlotFixed(m, hash, key).value;
    CountUpdate(m.data, i, Entry(Some(Pair(key, value)), false));
    SetFixedKeepsFindable(m, hash, key, value);
    assert Valid(m', hash);
    FoundAtItsSlot(m', hash, i);
  }

  /** `DeleteFixed` keeps the map valid, and the key is gone afterwards. */
  lemma DeleteFixedKeepsValid<K, V>(m: FixedMap<K, V>, hash: Hash<K>, key: K)
    requires Valid(m, hash) && DeleteFixed(m, hash, key).Ok?
    ensures Valid(DeleteFixed(m, hash, key).value, hash)
    ensures GetFixed(DeleteFixed(m, hash, key).value, hash, key) == Err(KeyNotFound)
  {
    var m' := DeleteFixed(m, hash, key).value;
    var n := |m.data|;
    var i := FindSlotFixed(m, hash, key).value;
    CountUpdate(m.data, i, Entry(None, true));
    forall j | 0 <= j < n && Occupied(m'.data[j])
      ensures Findable(m', hash, j)
    {
      FindableKept(m, m', hash, j);
    }
    forall j | 0 <= j < n && Occupied(m'.data[j])
      ensures m'.data[j].pair.value.key != key
    {
      if m'.data[j].pair.value.key == key {
        KeysDistinct(m, hash, i, j);
      }
    }
    GetFixedExact(m', hash, key, m.data[i].pair.value.value);
  }

  /** With the corrected probe, the colliding key of `CollisionRejected`
      is stored. */
  lemma CollisionAccepted()
    ensures SetFixed(New<int, int>(4), IntHash, 0, 10).Ok?
    ensures SetFixed(SetFixed(New<int, int>(4), IntHash, 0, 10).value, IntHash, 4, 20).Ok?
  {
    var m := New<int, int>(4);
    assert FirstStop(m.data, 0, 0, 0, 0);
    ProbeFindsFirstStop(m.data, 0, 0, 0, 0, 4, 0);
    var m1 := SetFixed(m, IntHash, 0, 10).value;
    assert m1.data[0] == Entry(Some(Pair(0, 10)), false);
    assert FirstStop(m1.data, 4, 0, 0, 1);
    ProbeFindsFirstStop(m1.data, 4, 0, 0, 0, 4, 1);
  }
}
