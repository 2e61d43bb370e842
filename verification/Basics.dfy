/** The machine widths and the small types every module shares. */
module Basics {
  type u8 = x: int | 0 <= x < 0x100
  type u16 = x: int | 0 <= x < 0x1_0000
  type u32 = x: int | 0 <= x < 0x1_0000_0000

  type byte = u8
  type bytes = seq<byte>

  /** A radio address. */
  type Addr = u32

  datatype Option<+T> = None | Some(value: T)

  /** ASCII text as bytes. */
  function Ascii(s: string): (b: bytes)
    ensures |b| == |s|
    ensures forall i :: 0 <= i < |b| ==> b[i] < 0x80
  {
    seq(|s|, i requires 0 <= i < |s| => if s[i] < 0x80 as char then s[i] as int else 0x3F)
  }

  /** The pieces of a text, put together. */
  function Joined(pieces: seq<bytes>): bytes {
    if pieces == [] then [] else Joined(pieces[..|pieces| - 1]) + pieces[|pieces| - 1]
  }
}
