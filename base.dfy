/** Machine types and failure-carrying wrappers shared by the whole model. */
module Base {

  /** One byte of file content or of an OS file name. */
  newtype byte = x: int | 0 <= x < 256

  /** Rust's `u64`: sizes from file metadata and the XXH64 state. */
  newtype u64 = x: int | 0 <= x < 0x1_0000_0000_0000_0000

  const U64_MAX: u64 := 0xFFFF_FFFF_FFFF_FFFF

  datatype Option<+T> = None | Some(value: T)

  /** Rust's `Result`: `Ok` carries the value, `Err` the error and nothing else. */
  datatype Result<+T, +E> = Ok(value: T) | Err(error: E)

  /** The concatenation, in order, of a sequence of chunks. */
  function Flatten<T>(chunks: seq<seq<T>>): seq<T>
  {
    if chunks == [] then [] else chunks[0] + Flatten(chunks[1..])
  }

  lemma {:induction false} FlattenSnoc<T>(chunks: seq<seq<T>>, last: seq<T>)
    ensures Flatten(chunks + [last]) == Flatten(chunks) + last
  {
    if chunks == [] {
      assert chunks + [last] == [last];
      assert Flatten([last]) == last + Flatten([]);
    } else {
      assert (chunks + [last])[1..] == chunks[1..] + [last];
      FlattenSnoc(chunks[1..], last);
    }
  }
}
