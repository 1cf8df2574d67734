/** Small helper types shared by every module: an optional value (Python's
    `None` or a value) and a success-or-error result standing in for a
    raised exception. */
module Results {

  datatype Option<+T> = None | Some(value: T)

  /** `Ok` is a normal return; `Err` is the exception the Python code raises. */
  datatype Result<+T, +E> = Ok(value: T) | Err(error: E) {
    predicate IsFailure() {
      Err?
    }

    function PropagateFailure<U>(): Result<U, E>
      requires Err?
    {
      Err(error)
    }

    function Extract(): T
      requires Ok?
    {
      value
    }
  }
}

/** Python's `float('inf')` as used for "no distance yet": an integer
    extended with a top element, ordered as floats order them. */
module ExtInt {

  datatype ExtInt = Fin(n: int) | Inf

  /** Python `a < b` on ints and `float('inf')`. */
  predicate Less(a: ExtInt, b: ExtInt) {
    match (a, b)
    case (Fin(x), Fin(y)) => x < y
    case (Fin(_), Inf) => true
    case (Inf, _) => false
  }

  /** Python `a <= b`. */
  predicate LessEq(a: ExtInt, b: ExtInt) {
    !Less(b, a)
  }

  /** Python `a + w` where `w` is an int edge weight: `inf + w == inf`. */
  function Plus(a: ExtInt, w: int): (r: ExtInt)
    ensures r.Inf? <==> a.Inf?
    ensures a.Fin? ==> r.n - a.n == w
  {
    match a
    case Fin(x) => Fin(x + w)
    case Inf => Inf
  }

  /** `Less` is a strict total order, which the heaps rely on. */
  lemma LessIsStrictTotalOrder(a: ExtInt, b: ExtInt, c: ExtInt)
    ensures !Less(a, a)
    ensures Less(a, b) ==> !Less(b, a)
    ensures Less(a, b) && Less(b, c) ==> Less(a, c)
    ensures a == b || Less(a, b) || Less(b, a)
  {
  }
}
