/** Shared vocabulary of the WebSocket model: bytes, optional values and
    the range of the C `size_t` type. */
module Bytes {

  /** One octet, as stored in the `char` buffers of the protocol engine. */
  type byte = bv8

  /** Used where the C code returns a null pointer or a zero count. */
  datatype Option<+T> = None | Some(value: T)

  /** 2^64: the number of distinct `size_t` values. */
  const SizeRange: nat := 0x1_0000_0000_0000_0000

  /** The byte holding the value `n` (a `uint8_t` store of a value already
      below 256), counted up from zero so that the solver never has to
      convert an unbounded integer into a bit-vector. */
  function ByteOf(n: nat): (b: byte)
    requires n < 256
    ensures b as int == n
  {
    if n == 0 then 0 else ByteOf(n - 1) + 1
  }

  /** True if every character of `s` fits in one byte. */
  predicate IsByteString(s: string)
  {
    forall i :: 0 <= i < |s| ==> s[i] as int < 256
  }

  /** The bytes of a string literal whose characters all fit in one byte
      (C string constants copied with `memcpy`). */
  function Ascii(s: string): (r: seq<byte>)
    requires IsByteString(s)
    ensures |r| == |s|
    ensures forall i :: 0 <= i < |r| ==> r[i] as int == s[i] as int
    decreases |s|
  {
    if s == [] then [] else [ByteOf(s[0] as int)] + Ascii(s[1..])
  }

  /** The characters a run of bytes spells, one character per byte. */
  function Text(b: seq<byte>): (s: string)
    ensures |s| == |b| && IsByteString(s)
    ensures forall i :: 0 <= i < |s| ==> s[i] as int == b[i] as int
  {
    seq(|b|, i requires 0 <= i < |b| => (b[i] as int) as char)
  }

  /** Reading back the bytes of a one-byte string gives the string. */
  lemma TextAscii(s: string)
    requires IsByteString(s)
    ensures Text(Ascii(s)) == s
  {
    var t := Text(Ascii(s));
    assert forall i :: 0 <= i < |s| ==> t[i] as int == s[i] as int;
  }
}
