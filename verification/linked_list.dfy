/** `LinkedList` of datastructures/linked_list.py, a doubly linked list
    without a length bound, seen as the sequence of its values from `root`
    to `tail`; `count` is the sequence's length. */
module LinkedList {
  import opened Results
  import opened Seqs

  /** `ValueError("linked list is empty")` and `IndexError`. */
  datatype ListError =
    | EmptyList         // `ValueError` from popping an empty list
    | IndexOutOfRange   // `IndexError` from `__getitem__`
    | ValueHasNoVal     // `AttributeError`: `.val` read off a stored value

  datatype List<T> = List(items: seq<T>)

  function Count<T>(l: List<T>): nat {
    |l.items|
  }

  /** `clear`: every node is unlinked and `count` drops to 0. */
  function Clear<T>(l: List<T>): (r: List<T>)
    ensures Count(r) == 0
  {
    List([])
  }

  /** `append`: a new tail node. */
  function Append<T>(l: List<T>, v: T): (r: List<T>)
    ensures Count(r) == Count(l) + 1
    ensures r.items[..Count(l)] == l.items && r.items[Count(l)] == v
  {
    List(l.items + [v])
  }

  /** `appendleft`: a new root node. */
  function AppendLeft<T>(l: List<T>, v: T): (r: List<T>)
    ensures Count(r) == Count(l) + 1
    ensures r.items[1..] == l.items && r.items[0] == v
  {
    List([v] + l.items)
  }

  /** `pop`: the tail value, `ValueError` on an empty list. */
  function Pop<T>(l: List<T>): (r: Result<(T, List<T>), ListError>)
    ensures r.Err? <==> Count(l) == 0
    ensures r.Err? ==> r.error == EmptyList
    ensures r.Ok? ==> r.value.1.items + [r.value.0] == l.items
  {
    if |l.items| == 0 then Err(EmptyList)
    else Ok((l.items[|l.items| - 1], List(l.items[..|l.items| - 1])))
  }

  /** `popleft`: the root value, `ValueError` on an empty list. */
  function PopLeft<T>(l: List<T>): (r: Result<(T, List<T>), ListError>)
    ensures r.Err? <==> Count(l) == 0
    ensures r.Err? ==> r.error == EmptyList
    ensures r.Ok? ==> [r.value.0] + r.value.1.items == l.items
  {
    if |l.items| == 0 then Err(EmptyList)
    else Ok((l.items[0], List(l.items[1..])))
  }

  /** `pop` undoes `append` and `popleft` undoes `appendleft`. */
  lemma PopUndoesAppend<T>(l: List<T>, v: T)
    ensures Pop(Append(l, v)) == Ok((v, l))
    ensures PopLeft(AppendLeft(l, v)) == Ok((v, l))
  {
    assert Append(l, v).items[..Count(l)] == l.items;
    assert AppendLeft(l, v).items[1..] == l.items;
  }

  /** `extend`: each item appended in order. The loop walks the iterable
      as it goes, so it is given here as a sequence of its own. */
  function Extend<T>(l: List<T>, xs: seq<T>): (r: List<T>)
    ensures r.items == l.items + xs
    decreases |xs|
  {
    if |xs| == 0 then l
    else
      var r := Extend(Append(l, xs[0]), xs[1..]);
      assert l.items + xs == l.items + [xs[0]] + xs[1..];
      r
  }

  /** `extendleft`: each item prepended in turn, so they end up reversed. */
  function ExtendLeft<T>(l: List<T>, xs: seq<T>): (r: List<T>)
    ensures r.items == Reverse(xs) + l.items
    decreases |xs|
  {
    if |xs| == 0 then l
    else
      var r := ExtendLeft(AppendLeft(l, xs[0]), xs[1..]);
      assert Reverse(xs) + l.items == Reverse(xs[1..]) + ([xs[0]] + l.items);
      r
  }

  /** `LinkedList(items)`, and `__init__` called again on an existing list:
      the old nodes are cleared first, so nothing of them survives. */
  function Init<T>(l: List<T>, items: Option<seq<T>>): (r: List<T>)
    ensures r.items == if items.None? then [] else items.value
  {
    var c := Clear(l);
    if items.None? then c else Extend(c, items.value)
  }

  /** `count` repetitions of `appendleft(pop())`; the first `pop` on an
      empty list raises. */
  function StepsRight<T>(l: List<T>, count: nat): (r: Result<List<T>, ListError>)
    ensures r.Err? <==> Count(l) == 0 && count > 0
    ensures r.Err? ==> r.error == EmptyList
    ensures r.Ok? && Count(l) > 0 ==> r.value.items == Rotated(l.items, count)
  {
    if count == 0 then
      assert |l.items| > 0 ==> Rotated(l.items, 0) == l.items by {
        if |l.items| > 0 { RotatedZero(l.items); }
      }
      Ok(l)
    else
      var prev :- StepsRight(l, count - 1);
      var (v, rest) :- Pop(prev);
      RightOfRotated(l.items, count - 1);
      assert OneRight(prev.items) == [v] + rest.items;
      Ok(AppendLeft(rest, v))
  }

  /** `count` repetitions of `append(popleft())`. */
  function StepsLeft<T>(l: List<T>, count: nat): (r: Result<List<T>, ListError>)
    ensures r.Err? <==> Count(l) == 0 && count > 0
    ensures r.Err? ==> r.error == EmptyList
    ensures r.Ok? && Count(l) > 0 ==> r.value.items == Rotated(l.items, -(count as int))
  {
    if count == 0 then
      assert |l.items| > 0 ==> Rotated(l.items, 0) == l.items by {
        if |l.items| > 0 { RotatedZero(l.items); }
      }
      Ok(l)
    else
      var prev :- StepsLeft(l, count - 1);
      var (v, rest) :- PopLeft(prev);
      LeftOfRotated(l.items, -((count - 1) as int));
      assert OneLeft(prev.items) == rest.items + [v];
      Ok(Append(rest, v))
  }

  /** `rotate(n)`: unlike the deque's, it raises on an empty list whenever
      `n != 0`, because the first `pop` does. */
  function Rotate<T>(l: List<T>, n: int): (r: Result<List<T>, ListError>)
    ensures r.Err? <==> Count(l) == 0 && n != 0
    ensures r.Err? ==> r.error == EmptyList
    ensures r.Ok? ==> Count(r.value) == Count(l)
    ensures r.Ok? && Count(l) > 0 ==> r.value.items == Rotated(l.items, n)
    ensures n == 0 ==> r == Ok(l)
  {
    if n > 0 then StepsRight(l, n)
    else if n < 0 then StepsLeft(l, -n)
    else Ok(l)
  }

  /** `rotate(n)` followed by `rotate(-n)` restores a non-empty list. */
  lemma RotateRoundTrip<T>(l: List<T>, n: int)
    requires Count(l) > 0
    ensures Rotate(l, n).Ok? && Rotate(Rotate(l, n).value, -n) == Ok(l)
  {
    var r := Rotate(l, n).value;
    assert Rotate(r, -n).value.items == l.items by {
      RotatedInverse(l.items, n);
    }
  }

  /** The forward walk of `__getitem__`, from position `i`: whether it
      reaches `index`, and the item there. */
  function ScanForward<T>(s: seq<T>, index: int, i: nat): (r: Option<T>)
    requires i <= |s|
    ensures r.Some? <==> i <= index < |s|
    ensures r.Some? ==> r.value == s[index]
    decreases |s| - i
  {
    if i == |s| then None
    else if i == index then Some(s[i])
    else ScanForward(s, index, i + 1)
  }

  /** The walk of `__getitem__` over `reversed(self)`, `i` nodes from the
      tail: whether it reaches `index`, and the item there. */
  function ScanBackward<T>(s: seq<T>, index: int, i: nat): (r: Option<T>)
    requires i <= |s|
    ensures r.Some? <==> 0 <= index <= |s| - 1 - i
    ensures r.Some? ==> r.value == s[index]
    decreases |s| - i
  {
    if i == |s| then None
    else if |s| - 1 - i == index then Some(s[|s| - 1 - i])
    else ScanBackward(s, index, i + 1)
  }

  /** `l[index]` as written: both walks iterate the list itself, which
      yields the stored values rather than the nodes, so the walk that
      reaches `index` reads `.val` off a value and raises `AttributeError`.
      `IndexError` from `count` on; a negative index matches no position of
      either walk, so the method falls off its end and returns `None`. */
  function GetItemAsWritten<T>(l: List<T>, index: int): (r: Result<Option<T>, ListError>)
    ensures index >= Count(l) ==> r == Err(IndexOutOfRange)
    ensures 0 <= index < Count(l) ==> r == Err(ValueHasNoVal)
    ensures index < 0 ==> r == Ok(None)
  {
    if index >= |l.items| then Err(IndexOutOfRange)
    else
      var iterateForward := (|l.items| - 1) / 2 - index >= 0;
      var hit := if iterateForward then ScanForward(l.items, index, 0) else ScanBackward(l.items, index, 0);
      if hit.Some? then Err(ValueHasNoVal) else Ok(None)
  }

  /** The as-written lookup fails exactly where the intended one reads an
      item, and agrees with it everywhere else. */
  lemma GetItemAsWrittenFailsOnItems<T>(l: List<T>, index: int)
    ensures GetItemAsWritten(l, index) == Err(ValueHasNoVal) <==> GetItem(l, index).Ok? && GetItem(l, index).value.Some?
    ensures GetItem(l, index).Err? || GetItem(l, index) == Ok(None) ==> GetItemAsWritten(l, index) == GetItem(l, index)
  {
  }

  /** `LinkedList([1])[0]` raises `AttributeError` as written; the intended
      lookup returns 1. */
  lemma GetItemAsWrittenExample()
    ensures GetItemAsWritten(List([1]), 0) == Err(ValueHasNoVal)
    ensures GetItem(List([1]), 0) == Ok(Some(1))
  {
  }

  /** `l[index]` as evidently intended: the walk that reaches `index`
      returns the node's value. `IndexError` from `count` on; a negative
      index matches no position of either walk and gives `None`.
      (`(count - 1) // 2` floors; Dafny's `/` agrees for a positive
      divisor.) */
  function GetItem<T>(l: List<T>, index: int): (r: Result<Option<T>, ListError>)
    ensures r.Err? <==> index >= Count(l)
    ensures r.Err? ==> r.error == IndexOutOfRange
    ensures r.Ok? ==> (r.value.Some? <==> 0 <= index)
    ensures r.Ok? && r.value.Some? ==> r.value.value == l.items[index]
  {
    if index >= |l.items| then Err(IndexOutOfRange)
    else
      var iterateForward := (|l.items| - 1) / 2 - index >= 0;
      if iterateForward then Ok(ScanForward(l.items, index, 0))
      else Ok(ScanBackward(l.items, index, 0))
  }

  /** `l == other` as written: `all` over `zip`, which stops at the shorter
      list, so only the common prefix is compared. */
  predicate Equal<T(==)>(l: List<T>, other: List<T>) {
    forall i :: 0 <= i < |l.items| && i < |other.items| ==> l.items[i] == other.items[i]
  }

  lemma EqualIsCommonPrefix<T>(l: List<T>, other: List<T>)
    ensures var m := if Count(l) < Count(other) then Count(l) else Count(other);
      Equal(l, other) <==> l.items[..m] == other.items[..m]
  {
    var m := if Count(l) < Count(other) then Count(l) else Count(other);
    if l.items[..m] == other.items[..m] {
      forall i | 0 <= i < m ensures l.items[i] == other.items[i] {
        assert l.items[..m][i] == other.items[..m][i];
      }
    }
  }

  /** A list equals every prefix of itself, so `Equal` is not equality. */
  lemma EqualIgnoresLength()
    ensures Equal(List([1, 2]), List([1])) && List([1, 2]) != List([1])
  {
    assert List([1, 2]).items[0] == List([1]).items[0];
    assert List([1, 2]).items != List([1]).items by {
      assert |List([1, 2]).items| != |List([1]).items|;
    }
  }

  /** Equality with the length check the deque's `__eq__` makes. */
  predicate EqualFixed<T(==)>(l: List<T>, other: List<T>) {
    Count(l) == Count(other) && Equal(l, other)
  }

  lemma EqualFixedIsEquality<T>(l: List<T>, other: List<T>)
    ensures EqualFixed(l, other) <==> l == other
  {
    if EqualFixed(l, other) {
      assert l.items == other.items;
    }
  }
}
