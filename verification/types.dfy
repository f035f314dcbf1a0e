/** Shared vocabulary of the HAL codec model: bytes, failures and results. */
module Types {

  /** A byte as the codec reads and writes it: an unsigned value 0..255. */
  type Byte = b: int | 0 <= b < 256

  /** A byte survives the trip to a bit-vector byte and back. The proof counts
      up to `x` in `bv8`, where no step overflows, and then converts that
      bit-vector back. */
  lemma ByteToBv8(x: Byte)
    ensures (x as bv8) as int == x
  {
    var b: bv8 := 0;
    var i := 0;
    while i < x
      invariant 0 <= i <= x && b as int == i
    {
      b := b + 1;
      i := i + 1;
    }
    Bv8ToByte(b);
  }

  /** A bit-vector byte survives the trip to a byte and back. */
  lemma Bv8ToByte(b: bv8)
    ensures (b as int) as bv8 == b
  {
  }

  /** Why decoding (or encoding) stops without a result. The original raises
      ValueError, AssertionError, OverflowError or an out-of-range read; the model
      keeps one constructor per distinct cause. */
  datatype Error =
    | Truncated       // a read past the end of the input
    | TooBig          // the decoded output would pass 65 535 bytes
    | UnknownCommand  // command code 7
    | BadReference    // a back-reference that leaves the output produced so far
    | Overflow        // a value that does not fit the bytes it is written to

  datatype Result<T> = Ok(value: T) | Err(error: Error) {
    predicate IsFailure() { Err? }

    function PropagateFailure<U>(): Result<U>
      requires Err?
    {
      Err(error)
    }

    function Extract(): T
      requires Ok?
    {
      value
    }
  }

  datatype Option<T> = None | Some(value: T)
}
