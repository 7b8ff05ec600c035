/** Fixed-width C integers, byte strings and the status type shared by every component. */
module Types {
  type byte = b: int | 0 <= b < 0x100
  type uint32 = u: int | 0 <= u < 0x1_0000_0000
  type uint64 = u: int | 0 <= u < 0x1_0000_0000_0000_0000
  type int32 = i: int | -0x8000_0000 <= i < 0x8000_0000

  type Bytes = seq<byte>
  type Oid = seq<uint32>

  const UINT32_MAX: nat := 0xFFFF_FFFF
  const SIZE_LIMIT: nat := 0x1_0000_0000  // size_t is 32 bits wide on the target

  datatype Option<+T> = None | Some(value: T)

  /** Concatenation of two encodings, if both exist. */
  function Join(first: Option<Bytes>, second: Option<Bytes>): Option<Bytes> {
    if first.Some? && second.Some? then Some(first.value + second.value) else None
  }

  /** The failing members of ber_status_t. */
  datatype BerError = Truncated | BadTag | BadLength | Overflow | Depth | BadArgs

  /** A status together with the out-parameter that BER_OK comes with. */
  datatype Result<+T> = Ok(value: T) | Err(error: BerError) {
    predicate IsFailure() {
      Err?
    }

    function PropagateFailure<U>(): Result<U>
      requires Err?
    {
      Err(error)
    }

    function Extract(): T
      requires Ok?
    {
      value
    }
  }

  /** What a loop that has already produced done makes of the outcome of the rest. */
  function Prepend<T>(done: seq<T>, r: Result<seq<T>>): Result<seq<T>> {
    if r.Ok? then Ok(done + r.value) else r
  }

  lemma PrependOne<T>(done: seq<T>, next: T, r: Result<seq<T>>)
    ensures Prepend(done + [next], r) == Prepend(done, Prepend([next], r))
  {
    if r.Ok? {
      assert (done + [next]) + r.value == done + ([next] + r.value);
    }
  }
}
