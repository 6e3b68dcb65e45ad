/** Small shared vocabulary: optional values, results with an error, bytes. */
module Wrappers {
  /** A value that may be missing, standing for a C address that may be NULL. */
  datatype Option<T> = None | Some(value: T)

  /** The outcome of an operation that can fail with a reason. */
  datatype Result<T, E> = Ok(value: T) | Err(error: E)

  /** An octet, the element type of every buffer and wire transfer. */
  type byte = x: int | 0 <= x < 0x100

  /** The bytes of a text whose characters are all octets. */
  function Bytes(s: string): (r: seq<byte>)
    requires forall i :: 0 <= i < |s| ==> s[i] as int < 0x100
    ensures |r| == |s|
    ensures forall i :: 0 <= i < |s| ==> r[i] == s[i] as int
  {
    if s == [] then [] else [s[0] as int as byte] + Bytes(s[1..])
  }
}
