/** Small shared vocabulary: an optional value and ASCII text as bytes. */
module Base {

  /** Rust's `Option<T>`. */
  datatype Option<+T> = None | Some(value: T) {

    /** The value, or `default` when there is none (Rust's `unwrap_or`). */
    function GetOr(default: T): T {
      match this
      case Some(v) => v
      case None => default
    }
  }

  /** A byte as the firmware sees it (Rust's `u8`). */
  type Byte = bv8

  /** The bytes of an ASCII text, one byte per character (Rust's `b"..."` literals). */
  function AsciiBytes(s: string): (r: seq<Byte>)
    ensures |r| == |s|
  {
    seq(|s|, i requires 0 <= i < |s| => ((s[i] as int) % 256) as Byte)
  }

  /** Concatenation of a sequence of byte chunks. */
  function Flatten(chunks: seq<seq<Byte>>): seq<Byte> {
    if chunks == [] then [] else chunks[0] + Flatten(chunks[1..])
  }
}
