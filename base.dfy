/** Shared vocabulary: Go's `byte` and `[]byte`, and an Option for Go's nil-able values. */
module Base {

  /** Go's `byte` (uint8). */
  type byte = x: int | 0 <= x < 256

  /** Go's `[]byte`; a nil slice and an empty slice are the same value here. */
  type Bytes = seq<byte>

  datatype Option<+T> = None | Some(value: T)

  /** The bytes of `chunks` laid end to end, the way successive writes fill a file. */
  function Concat(chunks: seq<Bytes>): Bytes
  {
    if chunks == [] then [] else Concat(chunks[..|chunks| - 1]) + chunks[|chunks| - 1]
  }

  predicate EndsWith(s: string, suffix: string)
  {
    |suffix| <= |s| && s[|s| - |suffix|..] == suffix
  }
}
