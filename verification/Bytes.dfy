/** Bytes, and text as bytes. */
module Bytes {

  type Byte = b: int | 0 <= b < 256

  predicate IsAscii(bytes: seq<Byte>) {
    forall k :: 0 <= k < |bytes| ==> bytes[k] < 128
  }

  function Joined(chunks: seq<seq<Byte>>): seq<Byte> {
    if chunks == [] then [] else Joined(chunks[..|chunks| - 1]) + chunks[|chunks| - 1]
  }
}
