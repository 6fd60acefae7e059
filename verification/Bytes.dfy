/** Machine integers and network byte order. */
module Bytes {
  newtype byte = b: int | 0 <= b < 0x100
  newtype uint16 = w: int | 0 <= w < 0x1_0000
  newtype uint32 = w: int | 0 <= w < 0x1_0000_0000

  /** A 16-bit number in network byte order. */
  function Be16(w: uint16): (b: seq<byte>)
    ensures |b| == 2 && b[0] as int * 256 + b[1] as int == w as int
  {
    [(w / 256) as byte, (w % 256) as byte]
  }

  /** The 16-bit number that two bytes in network byte order stand for. */
  function Word(hi: byte, lo: byte): (w: uint16) {
    hi as uint16 * 256 + lo as uint16
  }

  lemma WordOfBe16(w: uint16)
    ensures Word(Be16(w)[0], Be16(w)[1]) == w
  {
  }

  function Be32(w: uint32): (b: seq<byte>)
    ensures |b| == 4
    ensures ((b[0] as int * 256 + b[1] as int) * 256 + b[2] as int) * 256 + b[3] as int == w as int
  {
    Be16((w / 0x1_0000) as uint16) + Be16((w % 0x1_0000) as uint16)
  }

  function Zeros(n: nat): (b: seq<byte>)
    ensures |b| == n && forall i :: 0 <= i < n ==> b[i] == 0
  {
    seq(n, _ => 0)
  }

  /** What is left of `b` from place `i` on; nothing past the end. */
  function Rest(b: seq<byte>, i: nat): seq<byte> {
    if i <= |b| then b[i..] else []
  }

  function Concat(chunks: seq<seq<byte>>): seq<byte> {
    if chunks == [] then [] else Concat(chunks[..|chunks| - 1]) + chunks[|chunks| - 1]
  }
}
