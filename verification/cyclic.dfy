/** Slots of a fixed table seen as a ring of `n` positions, the way both
    hash maps probe them: step `w` from `home` lands on `(home + w) % n`. */
module Cyclic {

  /** The slot reached after `w` steps from `home` (for `w <= n`), written
      without the modulus; `PosIsModulus` relates it to Python's
      `(home + w) % n`. */
  function Pos(home: int, w: int, n: int): int {
    if home + w < n then home + w else home + w - n
  }

  /** How many steps it takes from `home` to reach slot `i`. */
  function Dist(home: int, i: int, n: int): int {
    if home <= i then i - home else i - home + n
  }

  lemma PosIsModulus(home: int, w: int, n: int)
    requires 0 <= home < n && 0 <= w < n
    ensures Pos(home, w, n) == (home + w) % n
  {
  }

  lemma PosDist(home: int, i: int, n: int)
    requires 0 <= home < n && 0 <= i < n
    ensures 0 <= Dist(home, i, n) < n
    ensures Pos(home, Dist(home, i, n), n) == i
  {
  }

  lemma DistPos(home: int, w: int, n: int)
    requires 0 <= home < n && 0 <= w < n
    ensures 0 <= Pos(home, w, n) < n
    ensures Dist(home, Pos(home, w, n), n) == w
  {
  }

  /** Within one sweep, different step counts reach different slots. */
  lemma PosInjective(home: int, w1: int, w2: int, n: int)
    requires 0 <= home < n && 0 <= w1 < n && 0 <= w2 < n
    requires Pos(home, w1, n) == Pos(home, w2, n)
    ensures w1 == w2
  {
  }

  /** Python's `i = (i + 1) % n` takes one more step; after `n` steps the
      walk is back at `home`. */
  lemma PosNext(home: int, w: int, n: int)
    requires 0 <= home < n && 0 <= w && w + 1 <= n
    ensures (Pos(home, w, n) + 1) % n == Pos(home, w + 1, n)
    ensures w + 1 == n ==> Pos(home, w + 1, n) == home
  {
  }

  /** Dafny's `%` has the single remainder in `[0, n)`: any other way of
      writing `a` as `q * n + k` gives the same `k`. */
  lemma ModUnique(a: int, n: int, q: int, k: int)
    requires n > 0 && a == q * n + k && 0 <= k < n
    ensures a % n == k
  {
    var q', k' := a / n, a % n;
    assert (q - q') * n == k' - k;
    if q - q' >= 1 {
    } else if q - q' <= -1 {
    }
  }

  /** A whole turn of the ring does not change the residue. */
  lemma ModTurn(a: int, n: int)
    requires n > 0
    ensures (a + n) % n == a % n
  {
    var q := a / n;
    assert (q + 1) * n == q * n + n;
    ModUnique(a + n, n, q + 1, a % n);
  }

  /** One step forward around the ring. */
  lemma ModSucc(a: int, n: int)
    requires n > 0
    ensures (a + 1) % n == if a % n + 1 < n then a % n + 1 else 0
  {
    if a % n + 1 < n {
      ModUnique(a + 1, n, a / n, a % n + 1);
    } else {
      ModUnique(a + 1, n, a / n + 1, 0);
    }
  }

  /** One step backward around the ring. */
  lemma ModPred(a: int, n: int)
    requires n > 0
    ensures (a - 1) % n == if a % n > 0 then a % n - 1 else n - 1
  {
    if a % n > 0 {
      ModUnique(a - 1, n, a / n, a % n - 1);
    } else {
      ModUnique(a - 1, n, a / n - 1, n - 1);
    }
  }

  /** The residue of `a` in `[0, n)`, reached by whole turns of the ring;
      `WrapIsModulus` shows it is `a % n`. */
  function Wrap(a: int, n: int): (k: int)
    requires n > 0
    ensures 0 <= k < n
    decreases if a < 0 then n - a else a
  {
    if a < 0 then Wrap(a + n, n)
    else if a >= n then Wrap(a - n, n)
    else a
  }

  lemma {:induction false} WrapIsModulus(a: int, n: int)
    requires n > 0
    ensures Wrap(a, n) == a % n
    decreases if a < 0 then n - a else a
  {
    if a < 0 {
      WrapIsModulus(a + n, n);
      ModTurn(a, n);
    } else if a >= n {
      WrapIsModulus(a - n, n);
      ModTurn(a - n, n);
    }
  }

  lemma WrapSucc(a: int, n: int)
    requires n > 0
    ensures Wrap(a + 1, n) == if Wrap(a, n) + 1 < n then Wrap(a, n) + 1 else 0
  {
    WrapIsModulus(a, n);
    WrapIsModulus(a + 1, n);
    ModSucc(a, n);
  }

  lemma WrapPred(a: int, n: int)
    requires n > 0
    ensures Wrap(a - 1, n) == if Wrap(a, n) > 0 then Wrap(a, n) - 1 else n - 1
  {
    WrapIsModulus(a, n);
    WrapIsModulus(a - 1, n);
    ModPred(a, n);
  }
}
