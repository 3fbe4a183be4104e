/** Failure-carrying results shared by every module. */
module Common {

  datatype Option<+T> = None | Some(value: T)

  /** The source's `(value, error)` pairs; error wording is not modelled. */
  datatype Result<+T> = Ok(value: T) | Err

  /** Puts a list in front of a successful result. */
  function Prepend<T>(front: seq<T>, r: Result<seq<T>>): Result<seq<T>> {
    if r.Ok? then Ok(front + r.value) else Err
  }

  lemma PrependTwice<T>(a: seq<T>, b: seq<T>, r: Result<seq<T>>)
    ensures Prepend(a, Prepend(b, r)) == Prepend(a + b, r)
    ensures Prepend([], r) == r
  {
    if r.Ok? {
      assert a + (b + r.value) == a + b + r.value;
      assert [] + r.value == r.value;
    }
  }

  type byte = x: int | 0 <= x < 256

  type Bytes = seq<byte>
}
