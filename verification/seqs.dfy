/** Sequence facts shared by the two list models: reversal and rotation.
    A right step moves the last element to the front, a left step the
    first element to the back. */
module Seqs {
  import opened Cyclic

  function Reverse<T>(s: seq<T>): (r: seq<T>)
    ensures |r| == |s|
    ensures forall i :: 0 <= i < |s| ==> r[i] == s[|s| - 1 - i]
  {
    if |s| == 0 then [] else Reverse(s[1..]) + [s[0]]
  }

  /** The last element moved to the front. */
  function OneRight<T>(s: seq<T>): seq<T>
    requires |s| > 0
  {
    [s[|s| - 1]] + s[..|s| - 1]
  }

  /** The first element moved to the back. */
  function OneLeft<T>(s: seq<T>): seq<T>
    requires |s| > 0
  {
    s[1..] + [s[0]]
  }

  /** `s` rotated right by `k` steps, for `0 <= k < |s|`. */
  function RotatedBy<T>(s: seq<T>, k: int): (r: seq<T>)
    requires 0 <= k < |s|
    ensures |r| == |s|
  {
    s[|s| - k..] + s[..|s| - k]
  }

  /** `s` rotated right by `n` steps (left for negative `n`), that is by
      `n % |s|`. */
  function Rotated<T>(s: seq<T>, n: int): (r: seq<T>)
    requires |s| > 0
    ensures |r| == |s|
  {
    RotatedBy(s, Wrap(n, |s|))
  }

  lemma RotatedZero<T>(s: seq<T>)
    requires |s| > 0
    ensures Rotated(s, 0) == s
  {
    assert s[|s|..] + s[..|s|] == s;
  }

  lemma OneRightRotates<T>(s: seq<T>, k: int)
    requires 0 <= k < |s|
    ensures OneRight(RotatedBy(s, k)) == RotatedBy(s, if k + 1 < |s| then k + 1 else 0)
  {
    var L := |s|;
    var t := RotatedBy(s, k);
    if k + 1 < L {
      assert OneRight(t) == s[L - k - 1..] + s[..L - k - 1];
    } else {
      assert OneRight(t) == s[L..] + s[..L];
    }
  }

  lemma OneLeftRotates<T>(s: seq<T>, k: int)
    requires 0 <= k < |s|
    ensures OneLeft(RotatedBy(s, k)) == RotatedBy(s, if k > 0 then k - 1 else |s| - 1)
  {
    var L := |s|;
    var t := RotatedBy(s, k);
    if k > 0 {
      assert OneLeft(t) == s[L - k + 1..] + s[..L - k + 1];
    } else {
      assert OneLeft(t) == s[1..] + s[..1];
    }
  }

  /** One more right step is one more unit of rotation. */
  lemma RightOfRotated<T>(s: seq<T>, n: int)
    requires |s| > 0
    ensures OneRight(Rotated(s, n)) == Rotated(s, n + 1)
  {
    OneRightRotates(s, Wrap(n, |s|));
    WrapSucc(n, |s|);
  }

  /** One more left step is one less unit of rotation. */
  lemma LeftOfRotated<T>(s: seq<T>, n: int)
    requires |s| > 0
    ensures OneLeft(Rotated(s, n)) == Rotated(s, n - 1)
  {
    OneLeftRotates(s, Wrap(n, |s|));
    WrapPred(n, |s|);
  }

  lemma ComposeRight<T>(s: seq<T>, a: int, b: int)
    requires |s| > 0 && Rotated(Rotated(s, a), b - 1) == Rotated(s, a + b - 1)
    ensures Rotated(Rotated(s, a), b) == Rotated(s, a + b)
  {
    RightOfRotated(Rotated(s, a), b - 1);
    RightOfRotated(s, a + b - 1);
  }

  lemma ComposeLeft<T>(s: seq<T>, a: int, b: int)
    requires |s| > 0 && Rotated(Rotated(s, a), b + 1) == Rotated(s, a + b + 1)
    ensures Rotated(Rotated(s, a), b) == Rotated(s, a + b)
  {
    LeftOfRotated(Rotated(s, a), b + 1);
    LeftOfRotated(s, a + b + 1);
  }

  /** Rotations compose by adding their step counts. */
  lemma {:induction false} RotatedCompose<T>(s: seq<T>, a: int, b: int)
    requires |s| > 0
    ensures Rotated(Rotated(s, a), b) == Rotated(s, a + b)
    decreases if b < 0 then -b else b
  {
    if b == 0 {
      RotatedZero(Rotated(s, a));
    } else if b > 0 {
      RotatedCompose(s, a, b - 1);
      ComposeRight(s, a, b);
    } else {
      RotatedCompose(s, a, b + 1);
      ComposeLeft(s, a, b);
    }
  }

  /** Rotating by `n` and then by `-n` gives back `s`. */
  lemma RotatedInverse<T>(s: seq<T>, n: int)
    requires |s| > 0
    ensures Rotated(Rotated(s, n), -n) == s
  {
    RotatedCompose(s, n, -n);
    RotatedZero(s);
  }
}
