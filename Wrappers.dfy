/** Shared vocabulary of the model: optional values, results with an error
    kind, bytes, and flattening a sequence of chunks. */
module Wrappers {

  datatype Option<+T> = None | Some(value: T)

  datatype Result<+T, +E> = Ok(value: T) | Err(error: E)

  /** An unsigned 8-bit value, the element type of every `byte[]`. */
  type Byte = b: int | 0 <= b < 0x100

  /** The chunks of `chunks` laid end to end, first chunk first. */
  function Concat<T>(chunks: seq<seq<T>>): seq<T>
  {
    if chunks == [] then [] else Concat(chunks[..|chunks| - 1]) + chunks[|chunks| - 1]
  }

  /** Appending one chunk appends its bytes. */
  lemma ConcatSnoc<T>(chunks: seq<seq<T>>, last: seq<T>)
    ensures Concat(chunks + [last]) == Concat(chunks) + last
  {
    assert (chunks + [last])[..|chunks|] == chunks;
  }
}
