/** datastructures/divide_and_conquer.py: a sortedness test, binary search
    for the first index where a monotone predicate holds, Lomuto partition
    with a median-of-three pre-pass, and quicksort driven by an explicit
    stack. Lists are sequences of integers; the in-place mutations of the
    Python list become returned sequences. */
module DivideAndConquer {
  import opened Results

  datatype SortError =
    | Unsorted          // `ValueError`: binary search on an unsorted list
    | BadRange          // `ValueError("start or end out of range")`
    | IndexOutOfRange   // `IndexError` raised by `_partition` when `end` is past the list

  // ---- _is_sorted ----

  /** `_is_sorted`: every adjacent pair is non-decreasing. */
  predicate IsSorted(s: seq<int>) {
    forall i :: 0 <= i < |s| - 1 ==> s[i] <= s[i + 1]
  }

  /** Adjacent order is order between any two positions. */
  lemma {:induction false} IsSortedIsPairwise(s: seq<int>)
    ensures IsSorted(s) <==> forall i, j :: 0 <= i < j < |s| ==> s[i] <= s[j]
    decreases |s|
  {
    if IsSorted(s) && |s| > 1 {
      IsSortedIsPairwise(s[1..]);
      assert IsSorted(s[1..]) by {
        forall i | 0 <= i < |s| - 2 ensures s[1..][i] <= s[1..][i + 1] {
          assert s[i + 1] <= s[i + 2];
        }
      }
      forall i, j | 0 <= i < j < |s| ensures s[i] <= s[j] {
        if i > 0 {
          assert s[1..][i - 1] <= s[1..][j - 1];
        } else if j > 1 {
          assert s[1..][0] <= s[1..][j - 1];
        }
      }
    }
  }

  // ---- binary_search ----

  /** The predicate is false on a prefix of `s` and true on the rest. */
  ghost predicate Monotone(s: seq<int>, check: int -> bool) {
    forall i, j :: 0 <= i <= j < |s| && check(s[i]) ==> check(s[j])
  }

  /** `binary_search`: `ValueError` on an unsorted list; otherwise an index
      `h` where `check` holds and fails just before it, or -1 when it fails
      on the last element (or the list is empty). For a monotone `check`
      that is the first index where it holds, or -1 when there is none. */
  method BinarySearch(s: seq<int>, check: int -> bool) returns (r: Result<int, SortError>)
    ensures r.Err? <==> !IsSorted(s)
    ensures r.Err? ==> r.error == Unsorted
    ensures r.Ok? ==> -1 <= r.value < |s|
    ensures r.Ok? && r.value >= 0 ==> check(s[r.value]) && (r.value == 0 || !check(s[r.value - 1]))
    ensures r.Ok? && r.value == -1 ==> |s| == 0 || !check(s[|s| - 1])
    ensures r.Ok? && Monotone(s, check) ==>
      && (r.value == -1 <==> forall i :: 0 <= i < |s| ==> !check(s[i]))
      && (r.value >= 0 ==> forall i :: 0 <= i < r.value ==> !check(s[i]))
  {
    if !IsSorted(s) {
      return Err(Unsorted);
    }
    var low := 0;
    var high := |s|;
    while low != high
      invariant 0 <= low <= high <= |s|
      invariant high < |s| ==> check(s[high])
      invariant low > 0 ==> !check(s[low - 1])
      invariant Monotone(s, check) ==> forall i :: 0 <= i < low ==> !check(s[i])
      invariant Monotone(s, check) ==> forall i :: high <= i < |s| ==> check(s[i])
      decreases high - low
    {
      var mid := (low + high) / 2;
      if check(s[mid]) {
        high := mid;
      } else {
        low := mid + 1;
      }
    }
    if high == |s| {
      return Ok(-1);
    }
    return Ok(high);
  }

  // ---- _partition ----

  /** `cmp` of `_partition`: `x <= y`, or `x >= y` when sorting in reverse. */
  predicate Cmp(x: int, y: int, reverse: bool) {
    if reverse then x >= y else x <= y
  }

  function Swap(s: seq<int>, i: int, j: int): (r: seq<int>)
    requires 0 <= i < |s| && 0 <= j < |s|
    ensures |r| == |s| && r[i] == s[j] && r[j] == s[i]
    ensures forall k :: 0 <= k < |s| && k != i && k != j ==> r[k] == s[k]
    ensures multiset(r) == multiset(s)
  {
    s[i := s[j]][j := s[i]]
  }

  /** Positions outside `[lo, hi]` hold the same values in `a` and `b`. */
  ghost predicate SameOutside(a: seq<int>, b: seq<int>, lo: int, hi: int) {
    |a| == |b| && forall k :: 0 <= k < |a| && (k < lo || hi < k) ==> b[k] == a[k]
  }

  /** A permutation that leaves both ends alone permutes the middle. */
  lemma MiddlePermuted(a: seq<int>, b: seq<int>, lo: int, hi: int)
    requires 0 <= lo <= hi < |a| && SameOutside(a, b, lo, hi)
    requires multiset(a) == multiset(b)
    ensures multiset(a[lo..hi + 1]) == multiset(b[lo..hi + 1])
  {
    assert a[..lo] == b[..lo];
    assert a[hi + 1..] == b[hi + 1..];
    assert a == a[..lo] + a[lo..hi + 1] + a[hi + 1..];
    assert b == b[..lo] + b[lo..hi + 1] + b[hi + 1..];
    assert multiset(a[lo..hi + 1]) == multiset(a) - multiset(a[..lo]) - multiset(a[hi + 1..]);
    assert multiset(b[lo..hi + 1]) == multiset(b) - multiset(b[..lo]) - multiset(b[hi + 1..]);
  }

  /** Permuting the middle permutes the whole. */
  lemma WholePermuted(a: seq<int>, b: seq<int>, lo: int, hi: int)
    requires 0 <= lo <= hi < |a| && SameOutside(a, b, lo, hi)
    requires multiset(a[lo..hi + 1]) == multiset(b[lo..hi + 1])
    ensures multiset(a) == multiset(b)
  {
    assert a[..lo] == b[..lo];
    assert a[hi + 1..] == b[hi + 1..];
    assert a == a[..lo] + a[lo..hi + 1] + a[hi + 1..];
    assert b == b[..lo] + b[lo..hi + 1] + b[hi + 1..];
  }

  /** The median-of-three pass: up to three swaps among `start`, `mid`
      and `end`. */
  method MedianOfThree(a: seq<int>, start: int, end: int) returns (b: seq<int>)
    requires 0 <= start <= end < |a|
    ensures SameOutside(a, b, start, end) && multiset(b) == multiset(a)
  {
    b := a;
    var mid := (start + end) / 2;
    if b[mid] < b[start] {
      b := Swap(b, start, mid);
    }
    if b[end] < b[start] {
      b := Swap(b, start, end);
    }
    if b[mid] < b[start] {
      b := Swap(b, mid, start);
    }
  }

  /** `_partition(iterable, start, end, reverse)`. The three swaps of the
      median-of-three pass only permute the range; the pivot is whatever
      value they leave at `end`, which is not necessarily the median. */
  method Partition(a: seq<int>, start: int, end: int, reverse: bool) returns (b: seq<int>, p: int)
    requires 0 <= start <= end < |a|
    ensures start <= p <= end && SameOutside(a, b, start, end)
    ensures multiset(b[start..end + 1]) == multiset(a[start..end + 1])
    ensures forall k :: start <= k < p ==> Cmp(b[k], b[p], reverse)
    ensures forall k :: p < k <= end ==> !Cmp(b[k], b[p], reverse)
  {
    b := MedianOfThree(a, start, end);
    var pivot := b[end];
    p := start;
    var i := start;
    while i < end
      invariant start <= p <= i <= end
      invariant SameOutside(a, b, start, end) && b[end] == pivot
      invariant multiset(b) == multiset(a)
      invariant forall k :: start <= k < p ==> Cmp(b[k], pivot, reverse)
      invariant forall k :: p <= k < i ==> !Cmp(b[k], pivot, reverse)
    {
      if Cmp(b[i], pivot, reverse) {
        b := Swap(b, i, p);
        p := p + 1;
      }
      i := i + 1;
    }
    b := Swap(b, p, end);
    MiddlePermuted(a, b, start, end);
  }

  // ---- quicksort ----

  /** Positions `i <= j` lie together in one range of the stack. */
  function SameRange(stack: seq<(int, int)>, i: int, j: int): bool {
    if |stack| == 0 then false
    else
      var top := stack[|stack| - 1];
      (top.0 <= i && j <= top.1) || SameRange(stack[..|stack| - 1], i, j)
  }

  lemma {:induction false} SameRangeMeans(stack: seq<(int, int)>, i: int, j: int)
    ensures SameRange(stack, i, j) <==> exists q :: 0 <= q < |stack| && stack[q].0 <= i && j <= stack[q].1
  {
    if |stack| > 0 {
      var init := stack[..|stack| - 1];
      SameRangeMeans(init, i, j);
      if SameRange(init, i, j) {
        var q :| 0 <= q < |init| && init[q].0 <= i && j <= init[q].1;
        assert stack[q] == init[q];
      }
      if exists q :: 0 <= q < |stack| && stack[q].0 <= i && j <= stack[q].1 {
        var q :| 0 <= q < |stack| && stack[q].0 <= i && j <= stack[q].1;
        if q < |init| {
          assert init[q] == stack[q];
        }
      }
    }
  }

  /** Every pending range is non-trivial and inside `[lo, hi]`. */
  predicate InBounds(stack: seq<(int, int)>, lo: int, hi: int) {
    forall q :: 0 <= q < |stack| ==> lo <= stack[q].0 < stack[q].1 <= hi
  }

  /** Pending ranges do not overlap. */
  predicate Disjoint(stack: seq<(int, int)>) {
    forall q, r :: 0 <= q < r < |stack| ==> stack[q].1 < stack[r].0 || stack[r].1 < stack[q].0
  }

  /** Any two positions of `[lo, hi]` that no pending range holds together
      are already in order. */
  predicate Settled(b: seq<int>, stack: seq<(int, int)>, lo: int, hi: int, reverse: bool)
    requires 0 <= lo && hi < |b|
  {
    forall i, j :: lo <= i < j <= hi && !SameRange(stack, i, j) ==> Cmp(b[i], b[j], reverse)
  }

  /** The number of positions the pending ranges still hold. */
  function Pending(stack: seq<(int, int)>): nat {
    if |stack| == 0 then 0
    else
      var top := stack[|stack| - 1];
      Pending(stack[..|stack| - 1]) + (if top.0 <= top.1 then top.1 - top.0 + 1 else 0)
  }

  /** The ranges `quicksort` pushes after partitioning `[lo, hi]` at `p`. */
  function Halves(lo: int, hi: int, p: int): seq<(int, int)> {
    (if p - 1 > lo then [(lo, p - 1)] else []) + (if p + 1 < hi then [(p + 1, hi)] else [])
  }

  lemma PendingShrinks(rest: seq<(int, int)>, lo: int, hi: int, p: int)
    requires lo <= p <= hi
    ensures Pending(rest + Halves(lo, hi, p)) < Pending(rest + [(lo, hi)])
  {
    assert (rest + [(lo, hi)])[..|rest|] == rest;
    var h := Halves(lo, hi, p);
    if p - 1 > lo && p + 1 < hi {
      assert (rest + h)[..|rest| + 1] == rest + [(lo, p - 1)];
      assert (rest + [(lo, p - 1)])[..|rest|] == rest;
    } else if p - 1 > lo {
      assert (rest + h)[..|rest|] == rest;
    } else if p + 1 < hi {
      assert (rest + h)[..|rest|] == rest;
    } else {
      assert rest + h == rest;
    }
  }

  lemma SameRangeOfPushed(rest: seq<(int, int)>, h: seq<(int, int)>, i: int, j: int)
    ensures SameRange(rest, i, j) ==> SameRange(rest + h, i, j)
    ensures (exists q :: 0 <= q < |h| && h[q].0 <= i && j <= h[q].1) ==> SameRange(rest + h, i, j)
  {
    SameRangeMeans(rest, i, j);
    SameRangeMeans(rest + h, i, j);
    if SameRange(rest, i, j) {
      var q :| 0 <= q < |rest| && rest[q].0 <= i && j <= rest[q].1;
      assert (rest + h)[q] == rest[q];
    }
    if exists q :: 0 <= q < |h| && h[q].0 <= i && j <= h[q].1 {
      var q :| 0 <= q < |h| && h[q].0 <= i && j <= h[q].1;
      assert (rest + h)[|rest| + q] == h[q];
    }
  }

  /** Two positions left of the pivot share the pushed left half. */
  lemma LeftHalfHolds(rest: seq<(int, int)>, lo: int, hi: int, p: int, i: int, j: int)
    requires lo <= i < j < p <= hi
    ensures SameRange(rest + Halves(lo, hi, p), i, j)
  {
    var h := Halves(lo, hi, p);
    assert h[0] == (lo, p - 1);
    SameRangeOfPushed(rest, h, i, j);
  }

  /** Two positions right of the pivot share the pushed right half. */
  lemma RightHalfHolds(rest: seq<(int, int)>, lo: int, hi: int, p: int, i: int, j: int)
    requires lo <= p < i < j <= hi
    ensures SameRange(rest + Halves(lo, hi, p), i, j)
  {
    var h := Halves(lo, hi, p);
    assert h[|h| - 1] == (p + 1, hi);
    SameRangeOfPushed(rest, h, i, j);
  }

  /** A position of the popped range shares no other pending range with a
      position outside it. */
  lemma NoSharedRange(rest: seq<(int, int)>, lo: int, hi: int, m: int, x: int)
    requires Disjoint(rest + [(lo, hi)])
    requires lo <= m <= hi && (x < lo || hi < x)
    ensures !SameRange(rest, if m < x then m else x, if m < x then x else m)
  {
    var i := if m < x then m else x;
    var j := if m < x then x else m;
    var st := rest + [(lo, hi)];
    forall q | 0 <= q < |rest| ensures !(rest[q].0 <= i && j <= rest[q].1) {
      assert st[q] == rest[q] && st[|rest|] == (lo, hi);
    }
    SameRangeMeans(rest, i, j);
  }

  /** `Cmp` against the pivot orders the two sides of a partition. */
  lemma CmpAcrossPivot(x: int, pivot: int, y: int, reverse: bool)
    requires Cmp(x, pivot, reverse) && !Cmp(y, pivot, reverse)
    ensures Cmp(x, y, reverse) && Cmp(pivot, y, reverse)
  {
  }

  /** A value of the partitioned range was somewhere in the old range. */
  lemma CameFrom(b: seq<int>, b2: seq<int>, lo: int, hi: int, k: int) returns (m: int)
    requires 0 <= lo <= k <= hi < |b| && |b2| == |b|
    requires multiset(b2[lo..hi + 1]) == multiset(b[lo..hi + 1])
    ensures lo <= m <= hi && b2[k] == b[m]
  {
    assert b2[k] == b2[lo..hi + 1][k - lo];
    assert b2[k] in multiset(b[lo..hi + 1]);
    var t :| 0 <= t < hi + 1 - lo && b[lo..hi + 1][t] == b2[k];
    m := lo + t;
  }

  /** Partitioning the popped range and pushing its halves keeps the stack
      invariant `Settled`. */
  lemma StepSettles(b: seq<int>, b2: seq<int>, rest: seq<(int, int)>, lo: int, hi: int, p: int,
                    s: int, e: int, reverse: bool)
    requires 0 <= s <= lo <= p <= hi <= e < |b| && |b2| == |b|
    requires Disjoint(rest + [(lo, hi)])
    requires Settled(b, rest + [(lo, hi)], s, e, reverse)
    requires SameOutside(b, b2, lo, hi)
    requires multiset(b2[lo..hi + 1]) == multiset(b[lo..hi + 1])
    requires forall k :: lo <= k < p ==> Cmp(b2[k], b2[p], reverse)
    requires forall k :: p < k <= hi ==> !Cmp(b2[k], b2[p], reverse)
    ensures Settled(b2, rest + Halves(lo, hi, p), s, e, reverse)
  {
    var old_ := rest + [(lo, hi)];
    var h := Halves(lo, hi, p);
    assert old_[..|rest|] == rest;
    forall i, j | s <= i < j <= e && !SameRange(rest + h, i, j)
      ensures Cmp(b2[i], b2[j], reverse)
    {
      SameRangeOfPushed(rest, h, i, j);
      var inI := lo <= i <= hi;
      var inJ := lo <= j <= hi;
      if inI && inJ {
        if i < p && p < j {
          CmpAcrossPivot(b2[i], b2[p], b2[j], reverse);
        } else if i < p && j == p {
        } else if i == p {
          CmpAcrossPivot(b2[p], b2[p], b2[j], reverse);
        } else if j < p {
          LeftHalfHolds(rest, lo, hi, p, i, j);
        } else {
          RightHalfHolds(rest, lo, hi, p, i, j);
        }
      } else if inI {
        var m := CameFrom(b, b2, lo, hi, i);
        NoSharedRange(rest, lo, hi, m, j);
        assert !SameRange(old_, m, j);
      } else if inJ {
        var m := CameFrom(b, b2, lo, hi, j);
        NoSharedRange(rest, lo, hi, m, i);
        assert !SameRange(old_, i, m);
      } else {
        assert !SameRange(old_, i, j);
      }
    }
  }

  /** The halves pushed after a partition keep the stack in bounds and
      disjoint. */
  lemma StepKeepsStack(rest: seq<(int, int)>, lo: int, hi: int, p: int, s: int, e: int)
    requires lo <= p <= hi
    requires InBounds(rest + [(lo, hi)], s, e) && Disjoint(rest + [(lo, hi)])
    ensures InBounds(rest + Halves(lo, hi, p), s, e) && Disjoint(rest + Halves(lo, hi, p))
  {
    var old_ := rest + [(lo, hi)];
    var st := rest + Halves(lo, hi, p);
    forall q | 0 <= q < |rest| ensures st[q] == old_[q] { }
    forall q | |rest| <= q < |st| ensures lo <= st[q].0 <= st[q].1 <= hi { }
    forall q, r | 0 <= q < r < |st| ensures st[q].1 < st[r].0 || st[r].1 < st[q].0 {
      if r < |rest| {
        assert old_[q] == st[q] && old_[r] == st[r];
      } else if q < |rest| {
        assert old_[q] == st[q] && old_[|rest|] == (lo, hi);
      }
    }
  }

  /** One turn of `quicksort`'s loop: pop a range, partition it, push the
      halves that still have two or more elements. */
  method QuicksortStep(b: seq<int>, stack: seq<(int, int)>, start: int, e: int, reverse: bool)
    returns (b2: seq<int>, stack2: seq<(int, int)>)
    requires 0 <= start && e < |b| && |stack| > 0
    requires InBounds(stack, start, e) && Disjoint(stack)
    requires Settled(b, stack, start, e, reverse)
    ensures SameOutside(b, b2, start, e) && multiset(b2) == multiset(b)
    ensures InBounds(stack2, start, e) && Disjoint(stack2)
    ensures Settled(b2, stack2, start, e, reverse)
    ensures Pending(stack2) < Pending(stack)
  {
    var rest := stack[..|stack| - 1];
    var (lo, hi) := stack[|stack| - 1];
    assert stack == rest + [(lo, hi)];
    var p;
    b2, p := Partition(b, lo, hi, reverse);
    StepSettles(b, b2, rest, lo, hi, p, start, e, reverse);
    StepKeepsStack(rest, lo, hi, p, start, e);
    PendingShrinks(rest, lo, hi, p);
    WholePermuted(b, b2, lo, hi);
    stack2 := rest;
    if p - 1 > lo {
      stack2 := stack2 + [(lo, p - 1)];
    }
    if p + 1 < hi {
      stack2 := stack2 + [(p + 1, hi)];
    }
    assert stack2 == rest + Halves(lo, hi, p);
  }

  /** `quicksort(iterable, start, end, reverse)`: `ValueError` when
      `start >= end` or `start < 0` (`end` defaults to the last index, so a
      list of at most one element is refused); `IndexError` when `end` is
      past the list. Otherwise `[start, end]` comes back sorted, ascending
      or with `reverse` descending, as a permutation of itself, and the
      rest of the list is untouched. */
  method Quicksort(a: seq<int>, start: int, end: Option<int>, reverse: bool) returns (r: Result<seq<int>, SortError>)
    ensures var e := if end.None? then |a| - 1 else end.value;
      && (r.Err? <==> start >= e || start < 0 || e >= |a|)
      && (r.Err? ==> r.error == if start >= e || start < 0 then BadRange else IndexOutOfRange)
      && (r.Ok? ==> SameOutside(a, r.value, start, e))
      && (r.Ok? ==> multiset(r.value[start..e + 1]) == multiset(a[start..e + 1]))
      && (r.Ok? ==> forall i, j :: start <= i < j <= e ==> Cmp(r.value[i], r.value[j], reverse))
  {
    var e := if end.None? then |a| - 1 else end.value;
    if start >= e || start < 0 {
      return Err(BadRange);
    }
    if e >= |a| {
      return Err(IndexOutOfRange);
    }
    var b := a;
    var stack := [(start, e)];
    while |stack| > 0
      invariant SameOutside(a, b, start, e) && multiset(b) == multiset(a)
      invariant InBounds(stack, start, e) && Disjoint(stack)
      invariant Settled(b, stack, start, e, reverse)
      decreases Pending(stack)
    {
      var b2, stack2 := QuicksortStep(b, stack, start, e, reverse);
      b, stack := b2, stack2;
    }
    MiddlePermuted(a, b, start, e);
    return Ok(b);
  }

  /** Sorted ascending by `quicksort` is sorted for `_is_sorted`. */
  lemma AscendingIsSorted(s: seq<int>)
    requires forall i, j :: 0 <= i < j < |s| ==> Cmp(s[i], s[j], false)
    ensures IsSorted(s)
  {
    assert forall i :: 0 <= i < |s| - 1 ==> Cmp(s[i], s[i + 1], false);
  }
}
