/** `Deque` of datastructures/deque.py, a doubly linked list with an
    optional `maxlen`, seen as the sequence of its values from head to
    tail. The node links, the iterator objects and the mutation-during-
    iteration guard are not modelled: element equality is pure here. */
module Deque {
  import opened Results
  import opened Seqs

  /** `ValueError` for a negative `maxlen` and for `index` finding nothing;
      the three `IndexError`s: popping an empty deque, an index out of
      range, inserting into a full deque. */
  datatype DequeError = MaxlenNegative | EmptyPop | IndexOutOfRange | AtMaxSize | NotInDeque

  predicate IsIndexError(e: DequeError) {
    e.EmptyPop? || e.IndexOutOfRange? || e.AtMaxSize?
  }

  datatype Deque<T> = Deque(items: seq<T>, maxlen: Option<nat>)

  /** A deque never holds more than `maxlen` items. */
  predicate Valid<T>(d: Deque<T>) {
    d.maxlen.Some? ==> |d.items| <= d.maxlen.value
  }

  /** The last `maxlen` elements of `s` (all of them without a bound). */
  function KeepLast<T>(s: seq<T>, maxlen: Option<nat>): seq<T> {
    if maxlen.None? || |s| <= maxlen.value then s else s[|s| - maxlen.value..]
  }

  /** The first `maxlen` elements of `s`. */
  function KeepFirst<T>(s: seq<T>, maxlen: Option<nat>): seq<T> {
    if maxlen.None? || |s| <= maxlen.value then s else s[..maxlen.value]
  }

  /** Python's negative index counted from the end. */
  function Rectify(idx: int, len: int): int {
    if idx < 0 then len + idx else idx
  }

  // ---- Popping and appending ----

  /** `pop`: the tail value and the deque without it. */
  function Pop<T>(d: Deque<T>): (r: Result<(T, Deque<T>), DequeError>)
    ensures r.Err? <==> |d.items| == 0
    ensures r.Err? ==> r.error == EmptyPop
    ensures r.Ok? ==> r.value.1.items + [r.value.0] == d.items && r.value.1.maxlen == d.maxlen
  {
    if |d.items| == 0 then Err(EmptyPop)
    else Ok((d.items[|d.items| - 1], d.(items := d.items[..|d.items| - 1])))
  }

  /** `popleft`: the head value and the deque without it. */
  function PopLeft<T>(d: Deque<T>): (r: Result<(T, Deque<T>), DequeError>)
    ensures r.Err? <==> |d.items| == 0
    ensures r.Err? ==> r.error == EmptyPop
    ensures r.Ok? ==> [r.value.0] + r.value.1.items == d.items && r.value.1.maxlen == d.maxlen
  {
    if |d.items| == 0 then Err(EmptyPop)
    else Ok((d.items[0], d.(items := d.items[1..])))
  }

  /** `append`: at `maxlen` the head is popped first, and nothing happens
      when `maxlen` is 0. */
  function Append<T>(d: Deque<T>, v: T): (r: Deque<T>)
    ensures r.maxlen == d.maxlen
    ensures Valid(d) ==> Valid(r) && r.items == KeepLast(d.items + [v], d.maxlen)
  {
    if d.maxlen.Some? && |d.items| >= d.maxlen.value then
      if d.maxlen.value == 0 then d
      else
        var rest := PopLeft(d).value.1;
        rest.(items := rest.items + [v])
    else d.(items := d.items + [v])
  }

  /** `appendleft`: at `maxlen` the tail is popped first. */
  function AppendLeft<T>(d: Deque<T>, v: T): (r: Deque<T>)
    ensures r.maxlen == d.maxlen
    ensures Valid(d) ==> Valid(r) && r.items == KeepFirst([v] + d.items, d.maxlen)
  {
    if d.maxlen.Some? && |d.items| >= d.maxlen.value then
      if d.maxlen.value == 0 then d
      else
        var rest := Pop(d).value.1;
        rest.(items := [v] + rest.items)
    else d.(items := [v] + d.items)
  }

  /** Keeping the last `m` twice is keeping them once. */
  lemma KeepLastThenAppend<T>(u: seq<T>, t: seq<T>, maxlen: Option<nat>)
    ensures KeepLast(KeepLast(u, maxlen) + t, maxlen) == KeepLast(u + t, maxlen)
  {
    if maxlen.Some? && |u| > maxlen.value {
      var m := maxlen.value;
      var a := u[|u| - m..] + t;
      assert a[|a| - m..] == (u + t)[|u + t| - m..];
    }
  }

  lemma KeepFirstThenPrepend<T>(t: seq<T>, u: seq<T>, maxlen: Option<nat>)
    ensures KeepFirst(t + KeepFirst(u, maxlen), maxlen) == KeepFirst(t + u, maxlen)
  {
    if maxlen.Some? && |u| > maxlen.value {
      var m := maxlen.value;
      assert (t + u[..m])[..m] == (t + u)[..m];
    }
  }

  /** `extend`: the iterable is copied first, then each item is appended,
      so `d.extend(d)` doubles `d`. */
  function Extend<T>(d: Deque<T>, xs: seq<T>): (r: Deque<T>)
    ensures r.maxlen == d.maxlen
    ensures Valid(d) ==> Valid(r) && r.items == KeepLast(d.items + xs, d.maxlen)
    decreases |xs|
  {
    if |xs| == 0 then d
    else
      var r := Extend(Append(d, xs[0]), xs[1..]);
      assert d.items + xs == d.items + [xs[0]] + xs[1..];
      KeepLastThenAppend(d.items + [xs[0]], xs[1..], d.maxlen);
      r
  }

  /** `extendleft`: each item is prepended in turn, so they end up
      reversed in front. */
  function ExtendLeft<T>(d: Deque<T>, xs: seq<T>): (r: Deque<T>)
    ensures r.maxlen == d.maxlen
    ensures Valid(d) ==> Valid(r) && r.items == KeepFirst(Reverse(xs) + d.items, d.maxlen)
    decreases |xs|
  {
    if |xs| == 0 then d
    else
      var r := ExtendLeft(AppendLeft(d, xs[0]), xs[1..]);
      assert Reverse(xs) + d.items == Reverse(xs[1..]) + ([xs[0]] + d.items);
      KeepFirstThenPrepend(Reverse(xs[1..]), [xs[0]] + d.items, d.maxlen);
      r
  }

  /** `Deque(iterable, maxlen)`. */
  function New<T>(iterable: seq<T>, maxlen: Option<int>): (r: Result<Deque<T>, DequeError>)
    ensures r.Err? <==> maxlen.Some? && maxlen.value < 0
    ensures r.Err? ==> r.error == MaxlenNegative
    ensures r.Ok? ==> Valid(r.value) && r.value.items == KeepLast(iterable, r.value.maxlen)
    ensures r.Ok? ==> (r.value.maxlen.None? <==> maxlen.None?)
    ensures r.Ok? && maxlen.Some? ==> r.value.maxlen.value == maxlen.value
  {
    if maxlen.Some? && maxlen.value < 0 then Err(MaxlenNegative)
    else
      var bound: Option<nat> := if maxlen.None? then None else Some(maxlen.value);
      Ok(Extend(Deque([], bound), iterable))
  }

  // ---- Rotation ----

  /** `appendleft(pop())`. */
  function StepRight<T>(d: Deque<T>): (r: Deque<T>)
    requires |d.items| > 0
  {
    var (v, rest) := Pop(d).value;
    AppendLeft(rest, v)
  }

  /** `append(popleft())`. */
  function StepLeft<T>(d: Deque<T>): (r: Deque<T>)
    requires |d.items| > 0
  {
    var (v, rest) := PopLeft(d).value;
    Append(rest, v)
  }

  lemma StepRightIsOneRight<T>(d: Deque<T>)
    requires Valid(d) && |d.items| > 0
    ensures StepRight(d) == d.(items := OneRight(d.items))
  {
  }

  lemma StepLeftIsOneLeft<T>(d: Deque<T>)
    requires Valid(d) && |d.items| > 0
    ensures StepLeft(d) == d.(items := OneLeft(d.items))
  {
  }

  /** `count` repetitions of `appendleft(pop())`. */
  function StepsRight<T>(d: Deque<T>, count: nat): (r: Deque<T>)
    requires Valid(d) && |d.items| > 0
    ensures r == d.(items := Rotated(d.items, count))
  {
    if count == 0 then
      RotatedZero(d.items);
      d
    else
      var prev := StepsRight(d, count - 1);
      StepRightIsOneRight(prev);
      RightOfRotated(d.items, count - 1);
      StepRight(prev)
  }

  /** `count` repetitions of `append(popleft())`. */
  function StepsLeft<T>(d: Deque<T>, count: nat): (r: Deque<T>)
    requires Valid(d) && |d.items| > 0
    ensures r == d.(items := Rotated(d.items, -(count as int)))
  {
    if count == 0 then
      RotatedZero(d.items);
      d
    else
      var prev := StepsLeft(d, count - 1);
      StepLeftIsOneLeft(prev);
      LeftOfRotated(d.items, -((count - 1) as int));
      StepLeft(prev)
  }

  /** `rotate(n)`: nothing on an empty deque; otherwise `n` steps right,
      or `-n` steps left. */
  function Rotate<T>(d: Deque<T>, n: int): (r: Deque<T>)
    requires Valid(d)
    ensures Valid(r) && r.maxlen == d.maxlen && |r.items| == |d.items|
    ensures |d.items| > 0 ==> r.items == Rotated(d.items, n)
    ensures |d.items| == 0 ==> r == d
  {
    if |d.items| == 0 then d
    else if n > 0 then StepsRight(d, n)
    else if n < 0 then StepsLeft(d, -n)
    else
      RotatedZero(d.items);
      d
  }

  /** `rotate(n)` followed by `rotate(-n)` restores the deque. */
  lemma RotateRoundTrip<T>(d: Deque<T>, n: int)
    requires Valid(d)
    ensures Rotate(Rotate(d, n), -n) == d
  {
    if |d.items| > 0 {
      var r := Rotate(d, n);
      assert Rotate(r, -n).items == d.items by {
        RotatedInverse(d.items, n);
      }
    }
  }

  // ---- Indexing ----

  /** `_getnode`: the position an index addresses, negatives from the
      end. Which end the walk starts from does not change the node found. */
  function GetNode<T>(d: Deque<T>, index: int): (r: Result<nat, DequeError>)
    ensures r.Ok? <==> -|d.items| <= index < |d.items|
    ensures r.Err? ==> r.error == IndexOutOfRange
    ensures r.Ok? ==> r.value < |d.items| && (r.value == index || r.value == |d.items| + index)
  {
    if index >= |d.items| || index < -|d.items| then Err(IndexOutOfRange)
    else Ok(Rectify(index, |d.items|))
  }

  /** `d[index]`. */
  function Get<T>(d: Deque<T>, index: int): (r: Result<T, DequeError>)
    ensures r.Ok? <==> -|d.items| <= index < |d.items|
    ensures r.Ok? ==> r.value == d.items[if index < 0 then |d.items| + index else index]
  {
    var i :- GetNode(d, index);
    Ok(d.items[i])
  }

  /** `d[index] = value`: only that element changes. */
  function SetItem<T>(d: Deque<T>, index: int, value: T): (r: Result<Deque<T>, DequeError>)
    ensures r.Ok? <==> -|d.items| <= index < |d.items|
    ensures r.Err? ==> r.error == IndexOutOfRange
    ensures r.Ok? ==> r.value.maxlen == d.maxlen && |r.value.items| == |d.items|
    ensures r.Ok? ==> forall j :: 0 <= j < |d.items| ==>
      r.value.items[j] == if j == Rectify(index, |d.items|) then value else d.items[j]
  {
    var i :- GetNode(d, index);
    Ok(d.(items := d.items[i := value]))
  }

  /** `del d[index]`: the head and tail go through `popleft` and `pop`,
      any other position is unlinked; only that element disappears. */
  function DelItem<T>(d: Deque<T>, index: int): (r: Result<Deque<T>, DequeError>)
    ensures r.Ok? <==> -|d.items| <= index < |d.items|
    ensures r.Err? ==> IsIndexError(r.error)
    ensures r.Ok? ==> var k := Rectify(index, |d.items|);
      r.value.maxlen == d.maxlen && r.value.items == d.items[..k] + d.items[k + 1..]
  {
    var len := |d.items|;
    if index == 0 || index == -len then
      var (_, rest) :- PopLeft(d);
      Ok(rest)
    else if index == len - 1 || index == -1 then
      var (_, rest) :- Pop(d);
      Ok(rest)
    else
      var i :- GetNode(d, index);
      Ok(d.(items := d.items[..i] + d.items[i + 1..]))
  }

  /** Where `list.index` and `list.insert` clamp a slice bound. */
  function Clamp(i: int, len: nat): (r: nat)
    ensures r <= len
  {
    if i < 0 then (if i + len < 0 then 0 else i + len) else (if i > len then len else i)
  }

  /** The loop of `index` from position `idx`. */
  function IndexFrom<T(==)>(s: seq<T>, x: T, start: int, stop: int, idx: nat): (r: Result<nat, DequeError>)
    requires idx <= |s|
    ensures r.Err? ==> r.error == NotInDeque
    ensures r.Ok? ==> idx <= r.value < |s| && start <= r.value < stop && s[r.value] == x
    ensures r.Ok? ==> forall j :: idx <= j < r.value && start <= j ==> s[j] != x
    ensures r.Err? ==> forall j :: idx <= j < |s| && start <= j < stop ==> s[j] != x
    decreases |s| - idx
  {
    if idx == |s| then Err(NotInDeque)
    else if idx < start then IndexFrom(s, x, start, stop, idx + 1)
    else if idx >= stop then Err(NotInDeque)
    else if s[idx] == x then Ok(idx)
    else IndexFrom(s, x, start, stop, idx + 1)
  }

  /** `index(x, start, stop)`: the first position in the clamped slice
      `[start:stop]` holding `x`, as `list.index` finds it. */
  function Index<T(==)>(d: Deque<T>, x: T, start: Option<int>, stop: Option<int>): (r: Result<nat, DequeError>)
    ensures r.Err? ==> r.error == NotInDeque
    ensures var len := |d.items|;
      var lo := Clamp(if start.None? then 0 else start.value, len);
      var hi := Clamp(if stop.None? then len else stop.value, len);
      && (r.Ok? ==> lo <= r.value < hi && d.items[r.value] == x)
      && (r.Ok? ==> forall j :: lo <= j < r.value ==> d.items[j] != x)
      && (r.Err? ==> forall j :: lo <= j < hi ==> d.items[j] != x)
  {
    var len := |d.items|;
    var st := if start.None? then 0 else start.value;
    var sp := if stop.None? then len else stop.value;
    if !(st >= len || sp < -len) then
      IndexFrom(d.items, x, Rectify(st, len), Rectify(sp, len), 0)
    else Err(NotInDeque)
  }

  /** `insert(i, x)`: `IndexError` at `maxlen`; otherwise `x` lands where
      `list.insert` puts it. */
  function Insert<T>(d: Deque<T>, i: int, x: T): (r: Result<Deque<T>, DequeError>)
    ensures r.Err? <==> d.maxlen.Some? && |d.items| >= d.maxlen.value
    ensures r.Err? ==> r.error == AtMaxSize
    ensures r.Ok? ==> var p := Clamp(i, |d.items|);
      r.value.maxlen == d.maxlen && r.value.items == d.items[..p] + [x] + d.items[p..]
    ensures r.Ok? && Valid(d) ==> Valid(r.value)
  {
    if d.maxlen.Some? && |d.items| >= d.maxlen.value then Err(AtMaxSize)
    else
      var len := |d.items|;
      var i1 := if i < -len then 0 else i;
      var i2 := if i1 >= len then len else i1;
      var k := Rectify(i2, len);
      if k == 0 then Ok(AppendLeft(d, x))
      else if k == len then Ok(Append(d, x))
      else Ok(d.(items := d.items[..k] + [x] + d.items[k..]))
  }

  // ---- Whole-deque operations ----

  /** `reverse`: the links of every node are swapped. */
  function ReverseDeque<T>(d: Deque<T>): (r: Deque<T>)
    ensures r.maxlen == d.maxlen && |r.items| == |d.items|
    ensures forall i :: 0 <= i < |d.items| ==> r.items[i] == d.items[|d.items| - 1 - i]
  {
    d.(items := Reverse(d.items))
  }

  lemma ReverseTwice<T>(d: Deque<T>)
    ensures ReverseDeque(ReverseDeque(d)) == d
  {
    assert ReverseDeque(ReverseDeque(d)).items == d.items;
  }

  /** `k` copies of `s` one after another. */
  function Repeat<T>(s: seq<T>, k: nat): seq<T> {
    if k == 0 then [] else s + Repeat(s, k - 1)
  }

  /** The `extend(tmp_self)` loop run `k` times. */
  function ExtendTimes<T>(d: Deque<T>, xs: seq<T>, k: nat): (r: Deque<T>)
    ensures r.maxlen == d.maxlen
    ensures Valid(d) ==> Valid(r) && r.items == KeepLast(d.items + Repeat(xs, k), d.maxlen)
  {
    if k == 0 then
      assert d.items + [] == d.items;
      d
    else
      var r := Extend(ExtendTimes(d, xs, k - 1), xs);
      KeepLastThenAppend(d.items + Repeat(xs, k - 1), xs, d.maxlen);
      RepeatSnoc(xs, k - 1);
      assert d.items + Repeat(xs, k - 1) + xs == d.items + Repeat(xs, k);
      r
  }

  lemma {:induction false} RepeatSnoc<T>(s: seq<T>, k: nat)
    ensures Repeat(s, k) + s == Repeat(s, k + 1)
  {
    if k > 0 {
      RepeatSnoc(s, k - 1);
      assert Repeat(s, k) + s == s + (Repeat(s, k - 1) + s);
    }
  }

  /** `d * k`: a new deque with the same `maxlen` extended `k` times by a
      copy of `d`. */
  function Mul<T>(d: Deque<T>, k: int): (r: Deque<T>)
    ensures r.maxlen == d.maxlen
    ensures Valid(d) ==> Valid(r) && r.items == KeepLast(Repeat(d.items, if k < 0 then 0 else k), d.maxlen)
  {
    var ret := Deque([], d.maxlen);
    if k <= 0 then ret
    else
      assert [] + Repeat(d.items, k) == Repeat(d.items, k);
      ExtendTimes(ret, d.items, k)
  }

  /** `d *= k`: cleared for `k <= 0`, else extended `k - 1` times by a copy
      of itself. */
  function IMul<T>(d: Deque<T>, k: int): (r: Deque<T>)
    ensures r.maxlen == d.maxlen
    ensures Valid(d) ==> Valid(r) && r.items == KeepLast(Repeat(d.items, if k < 0 then 0 else k), d.maxlen)
  {
    if k <= 0 then d.(items := [])
    else
      var r := ExtendTimes(d, d.items, k - 1);
      assert d.items + Repeat(d.items, k - 1) == Repeat(d.items, k);
      r
  }

  /** `d * k` and `d *= k` leave the same items. */
  lemma MulAgreesWithIMul<T>(d: Deque<T>, k: int)
    requires Valid(d)
    ensures Mul(d, k).items == IMul(d, k).items
  {
  }

  /** `d + other`: a copy of `d` with `d`'s `maxlen`, extended by `other`. */
  function Add<T>(d: Deque<T>, other: Deque<T>): (r: Deque<T>)
    ensures r.maxlen == d.maxlen
    ensures r.items == KeepLast(d.items + other.items, d.maxlen)
  {
    var empty := Deque([], d.maxlen);
    assert Valid(empty) && empty.items + d.items == d.items;
    var copy := Extend(empty, d.items);
    assert copy.items == KeepLast(d.items, d.maxlen);
    KeepLastThenAppend(d.items, other.items, d.maxlen);
    Extend(copy, other.items)
  }

  /** `d == other`: equal lengths and pairwise equal values over `zip`;
      `maxlen` is not compared. */
  predicate Equal<T(==)>(d: Deque<T>, other: Deque<T>) {
    |d.items| == |other.items| && forall i :: 0 <= i < |d.items| ==> d.items[i] == other.items[i]
  }

  lemma EqualIsSameItems<T>(d: Deque<T>, other: Deque<T>)
    ensures Equal(d, other) <==> d.items == other.items
  {
  }
}
