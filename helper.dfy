/** Machine integers and the checked addition the evaluator uses for its counters. */
module Helper {

  /** Largest value of a 64-bit `usize`. */
  const USIZE_MAX: int := 0xFFFF_FFFF_FFFF_FFFF

  /** An unsigned machine word: the type of program counters, input cursors and addresses. */
  type usize = x: int | 0 <= x <= USIZE_MAX

  /** Success with a value, or failure with an error value. */
  datatype Result<+T, +E> = Ok(value: T) | Err(error: E)

  /**
   * Checked addition: the sum when it fits in a `usize`, otherwise the
   * caller's error `err` (never a wrapped-around value).
   */
  function SafeAdd<E>(dst: usize, src: usize, err: E): (r: Result<usize, E>)
    ensures r.Ok? <==> dst + src <= USIZE_MAX
    ensures r.Ok? ==> r.value == dst + src && r.value >= dst
    ensures r.Err? ==> r.error == err && dst + src > USIZE_MAX
  {
    if dst + src <= USIZE_MAX then Ok(dst + src) else Err(err)
  }

  /** The two behaviours the unit tests fix: 10 + 20 is 30, and usize::MAX + 1 fails. */
  lemma SafeAddExamples()
    ensures SafeAdd(10, 20, ()) == Ok(30)
    ensures SafeAdd(USIZE_MAX, 1, ()) == Err(())
  {
  }
}
