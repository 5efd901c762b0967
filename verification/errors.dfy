/** The two ways the compiler fails, a failure-compatible result type for them, and what a
    sequence of outcomes can say: all succeeded, or which one failed first. */
module Errors {

  /** `BadTime` is `strptime`'s "time data ... does not match format" (carrying the
      stripped, lower-cased token it was given); `RangePieces` is the unpacking error of
      `start_str, end_str = rng.split('-')`, carrying how many pieces the split produced. */
  datatype ParseError =
    | BadTime(text: string)
    | RangePieces(count: nat)

  datatype Option<+T> = None | Some(value: T) {

    predicate IsFailure() {
      None?
    }

    function PropagateFailure<U>(): Option<U>
      requires None?
    {
      None
    }

    function Extract(): T
      requires Some?
    {
      value
    }
  }

  datatype Result<+T> = Ok(value: T) | Err(error: ParseError) {

    predicate IsFailure() {
      Err?
    }

    function PropagateFailure<U>(): Result<U>
      requires Err?
    {
      Err(error)
    }

    function Extract(): T
      requires Ok?
    {
      value
    }
  }

  // ---- sequences of outcomes ----

  /** Every outcome succeeded. */
  predicate AllOk<T>(rs: seq<Result<T>>) {
    forall i :: 0 <= i < |rs| ==> rs[i].Ok?
  }

  /** The i-th outcome is the first failure, and `e` is its error. */
  predicate FirstFailure<T>(rs: seq<Result<T>>, i: nat, e: ParseError) {
    i < |rs| && AllOk(rs[..i]) && rs[i] == Err(e)
  }

  /** There is only one first failure. */
  lemma FirstFailureUnique<T>(rs: seq<Result<T>>, i: nat, e: ParseError, i': nat, e': ParseError)
    requires FirstFailure(rs, i, e) && FirstFailure(rs, i', e')
    ensures i == i' && e == e'
  {
  }

  lemma AllOkConcat<T>(r1: seq<Result<T>>, r2: seq<Result<T>>)
    ensures AllOk(r1 + r2) <==> AllOk(r1) && AllOk(r2)
  {
    if AllOk(r1 + r2) {
      assert forall i :: 0 <= i < |r1| ==> r1[i] == (r1 + r2)[i];
      assert forall i :: 0 <= i < |r2| ==> r2[i] == (r1 + r2)[|r1| + i];
    }
    if AllOk(r1) && AllOk(r2) {
      forall i | 0 <= i < |r1 + r2|
        ensures (r1 + r2)[i].Ok?
      {
        if i >= |r1| {
          assert (r1 + r2)[i] == r2[i - |r1|];
        }
      }
    }
  }

  lemma FirstFailureConcat<T>(r1: seq<Result<T>>, r2: seq<Result<T>>, i: nat, e: ParseError)
    ensures FirstFailure(r1, i, e) ==> FirstFailure(r1 + r2, i, e)
    ensures AllOk(r1) && FirstFailure(r2, i, e) ==> FirstFailure(r1 + r2, |r1| + i, e)
  {
    if FirstFailure(r1, i, e) {
      assert (r1 + r2)[..i] == r1[..i];
    }
    if AllOk(r1) && FirstFailure(r2, i, e) {
      assert (r1 + r2)[..|r1| + i] == r1 + r2[..i];
      AllOkConcat(r1, r2[..i]);
    }
  }
}
