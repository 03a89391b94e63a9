/** The frame codec of `websock.h`: the base framing of section 5.2 of
    RFC 6455 (FIN bit, 4-bit opcode, MASK bit, 7-bit length with 16- and
    64-bit extensions) and the client-to-server masking of section 5.3.

    The C decoder works in place on a `char` buffer and reports "need more
    data" by returning 0. Here it is a pure function on the received bytes
    that returns `NeedMore` or the decoded frame, with the message views
    given as offsets. */
module Frame {
  import opened Bytes

  // ---------------------------------------------------------------------
  // Constants (the anonymous `enum` of `websock.h`)

  const HeaderLen: nat := 2

  const OpContinue: byte := 0
  const OpText: byte := 1
  const OpBinary: byte := 2
  const OpClose: byte := 8
  const OpPing: byte := 9
  const OpPong: byte := 10
  const OpcodeMask: byte := 0x0F
  const FinalMask: byte := 0x80

  const Len0Max: nat := 125
  const Len2Max: nat := 0xFFFF
  const Len2Code: byte := 126
  const Len8Code: byte := 127
  const MaskedMask: byte := 0x80

  /** Number of bytes of the masking key. */
  const MaskKeyLen: nat := 4

  // ---------------------------------------------------------------------
  // Big-endian lengths

  /** 256 to the power `n`. */
  function Pow256(n: nat): (r: nat)
    ensures r > 0
  {
    if n == 0 then 1 else 256 * Pow256(n - 1)
  }

  /** The `n` low bytes of `x`, most significant first: the bytes
      `(len >> 8 * k) & 0xff` for `k = n - 1` down to `0`. */
  function BigEndian(x: nat, n: nat): (r: seq<byte>)
    ensures |r| == n
  {
    if n == 0 then [] else BigEndian(x / 256, n - 1) + [ByteOf(x % 256)]
  }

  /** Reduction modulo 2^64: the wrap-around of a `size_t`. */
  function Wrap(x: nat): (r: nat)
    ensures r < SizeRange
    ensures x < SizeRange ==> r == x
  {
    x % SizeRange
  }

  /** One turn of the length-reading loop, `len <<= 8; len |= data[i]`, on
      a 64-bit `size_t`. With a signed `char`, a byte of `0x80` or more is
      sign-extended before the `|=`, which sets all 56 upper bits; the
      first read, `len = data[0]`, is this step from zero. */
  function ShiftIn(acc: nat, b: byte, signedChar: bool): (r: nat)
    ensures r < SizeRange
  {
    if signedChar && b >= 0x80 then SizeRange - 256 + b as nat
    else Wrap(acc * 256) + b as nat
  }

  /** One turn of the loop puts the byte read in the low 8 bits; above it
      sit the low 56 bits of the value so far, or, for a sign-extended
      byte, all ones. */
  lemma ShiftInBytes(acc: nat, b: byte, signedChar: bool)
    ensures ShiftIn(acc, b, signedChar) % 256 == b as nat
    ensures ShiftIn(acc, b, signedChar) / 256 ==
      if signedChar && b >= 0x80 then SizeRange / 256 - 1 else acc % (SizeRange / 256)
  {
    if signedChar && b >= 0x80 {
      ByteAppended(SizeRange / 256 - 1, b);
    } else {
      ShiftWrap(acc);
      ByteAppended(acc % (SizeRange / 256), b);
    }
  }

  /** A byte appended below `k`: `k * 256 + b` has low byte `b` and
      high part `k`. */
  lemma ByteAppended(k: nat, b: byte)
    ensures (k * 256 + b as nat) % 256 == b as nat && (k * 256 + b as nat) / 256 == k
  {
  }

  /** A sum below twice `2^64` wraps at most once. */
  lemma WrapOnce(x: nat)
    requires x < 2 * SizeRange
    ensures Wrap(x) == if x < SizeRange then x else x - SizeRange
  {
  }

  /** Shifting left by 8 in a `size_t` keeps the low 56 bits. */
  lemma ShiftWrap(acc: nat)
    ensures Wrap(acc * 256) == (acc % (SizeRange / 256)) * 256
  {
    var q, r := acc / (SizeRange / 256), acc % (SizeRange / 256);
    assert acc * 256 == q * SizeRange + r * 256;
  }

  /** The extended payload length read from `bs`, byte by byte. */
  function ExtLength(bs: seq<byte>, signedChar: bool): (r: nat)
    ensures r < SizeRange
    decreases |bs|
  {
    if |bs| == 0 then 0
    else ShiftIn(ExtLength(bs[..|bs| - 1], signedChar), bs[|bs| - 1], signedChar)
  }

  /** Read as unsigned, `n <= 8` bytes hold a value below `256^n`. */
  lemma {:induction false} ExtLengthBound(bs: seq<byte>)
    requires |bs| <= 8
    ensures ExtLength(bs, false) < Pow256(|bs|)
    decreases |bs|
  {
    if |bs| > 0 {
      var init := bs[..|bs| - 1];
      ExtLengthBound(init);
      ShiftInBound(ExtLength(init, false), bs[|bs| - 1], |init|);
    }
  }

  /** With unsigned bytes, a value of at most `n < 8` bytes gains one
      byte per turn. */
  lemma ShiftInBound(acc: nat, b: byte, n: nat)
    requires n < 8 && acc < Pow256(n)
    ensures ShiftIn(acc, b, false) < Pow256(n + 1)
  {
    Pow256Bound(n + 1);
    assert Pow256(n + 1) == 256 * Pow256(n);
    var r := ShiftIn(acc, b, false);
    ShiftInBytes(acc, b, false);
    assert r == (r / 256) * 256 + r % 256;
  }

  /** Reading one more byte is one more turn of the loop. */
  lemma ExtLengthSnoc(bs: seq<byte>, b: byte, signedChar: bool)
    ensures ExtLength(bs + [b], signedChar) == ShiftIn(ExtLength(bs, signedChar), b, signedChar)
  {
    assert (bs + [b])[..|bs|] == bs;
  }

  /** Eight bytes hold every `size_t`. */
  lemma Pow256Bound(n: nat)
    requires n <= 8
    ensures Pow256(n) <= Pow256(8) == SizeRange
    decreases 8 - n
  {
    if n < 8 {
      Pow256Bound(n + 1);
    }
  }

  /** Reading back `n <= 8` big-endian bytes with unsigned bytes gives
      the number written. */
  lemma {:induction false} BigEndianRoundTrip(x: nat, n: nat)
    requires n <= 8 && x < Pow256(n)
    ensures ExtLength(BigEndian(x, n), false) == x
  {
    if n > 0 {
      var hi := x / 256;
      var lo := ByteOf(x % 256);
      assert BigEndian(x, n) == BigEndian(hi, n - 1) + [lo];
      Pow256Bound(n);
      assert hi * 256 <= x < 256 * Pow256(n - 1);
      BigEndianRoundTrip(hi, n - 1);
      ExtLengthSnoc(BigEndian(hi, n - 1), lo, false);
    }
  }

  /** The reading loop of `websocket_decode_message` over the extended
      length bytes. */
  method ReadExtLength(bs: seq<byte>, signedChar: bool) returns (len: nat)
    requires |bs| > 0
    ensures len == ExtLength(bs, signedChar)
  {
    len := ShiftIn(0, bs[0], signedChar);
    assert bs[..1][..0] == [];
    var i := 1;
    while i < |bs|
      invariant 1 <= i <= |bs|
      invariant len == ExtLength(bs[..i], signedChar)
    {
      assert bs[..i + 1][..i] == bs[..i];
      len := ShiftIn(len, bs[i], signedChar);
      i := i + 1;
    }
    assert bs[..i] == bs;
  }

  // ---------------------------------------------------------------------
  // Writer

  /** `websock_write_message_len`: the 7-bit length, or the code 126 and
      a 16-bit length, or the code 127 and a 64-bit length, whichever is
      the shortest that holds `len`. (The one-byte case is the loop's single
      turn, `len & 0xff`, which is `len` itself.) */
  function LengthField(len: nat): (f: seq<byte>)
    requires len < SizeRange
    ensures |f| == (if len <= Len0Max then 1 else if len <= Len2Max then 3 else 9)
  {
    if len > Len2Max then [Len8Code] + BigEndian(len, 8)
    else if len > Len0Max then [Len2Code] + BigEndian(len, 2)
    else [ByteOf(len)]
  }

  /** Number of extended-length bytes announced by the 7-bit length. */
  function ExtLenLen(len7: nat): nat
  {
    if len7 == Len8Code as nat then 8 else if len7 == Len2Code as nat then 2 else 0
  }

  /** A byte below `0x80` is its own 7-bit length and has no mask bit. */
  lemma SmallByte(b: byte)
    requires b < 0x80
    ensures Len7(b) == b as nat && !MaskBit(b)
  {
    assert b & 0x7F == b;
  }

  /** The first byte of the length field: the length itself up to 125,
      otherwise the code of the 2- or 8-byte extension; the mask bit is
      clear and the code announces exactly the bytes that follow. */
  lemma LengthFieldHead(len: nat)
    requires len < SizeRange
    ensures var f := LengthField(len);
      && !MaskBit(f[0])
      && Len7(f[0]) == f[0] as nat
      && |f| == 1 + ExtLenLen(Len7(f[0]))
      && (len <= Len0Max ==> f[0] as nat == len)
      && (Len0Max < len <= Len2Max ==> f[0] == Len2Code)
      && (Len2Max < len ==> f[0] == Len8Code)
  {
    var f := LengthField(len);
    if len <= Len0Max {
      assert f[0] < 0x80;
    }
    SmallByte(f[0]);
  }

  /** The extension bytes of the length field read back as the length. */
  lemma LengthFieldValue(len: nat)
    requires len < SizeRange
    ensures var f := LengthField(len);
      |f| > 1 ==> ExtLength(f[1..], false) == len
  {
    var f := LengthField(len);
    if len > Len2Max {
      assert f[1..] == BigEndian(len, 8);
      Pow256Bound(8);
      BigEndianRoundTrip(len, 8);
    } else if len > Len0Max {
      assert f[1..] == BigEndian(len, 2);
      assert Pow256(2) == 0x1_0000;
      BigEndianRoundTrip(len, 2);
    }
  }

  /** `websocket_write_message`: the opcode-and-flags byte, the length
      field and the payload. The mask bit is never set. */
  function WriteMessage(data: seq<byte>, opflags: byte): (r: seq<byte>)
    requires |data| < SizeRange
    ensures |r| == 1 + |LengthField(|data|)| + |data|
    ensures r[0] == opflags && r[1..|r| - |data|] == LengthField(|data|) && r[|r| - |data|..] == data
  {
    [opflags] + LengthField(|data|) + data
  }

  /** The size of a written frame is `1 + {1, 3, 9} + len`. */
  lemma WriteMessageSize(data: seq<byte>, opflags: byte)
    requires |data| < SizeRange
    ensures var n := |WriteMessage(data, opflags)| - |data|;
      && (|data| <= Len0Max ==> n == 2)
      && (Len0Max < |data| <= Len2Max ==> n == 4)
      && (Len2Max < |data| ==> n == 10)
  {
    LengthFieldHead(|data|);
  }

  // ---------------------------------------------------------------------
  // Masking

  /** `data[i] ^= mask[i % 4]` over the payload. */
  function Xor(payload: seq<byte>, key: seq<byte>): (r: seq<byte>)
    requires |key| == MaskKeyLen
    ensures |r| == |payload|
    ensures forall i :: 0 <= i < |r| ==> r[i] == payload[i] ^ key[i % MaskKeyLen]
  {
    seq(|payload|, i requires 0 <= i < |payload| => payload[i] ^ key[i % MaskKeyLen])
  }

  /** Unmasking is its own inverse: applying the same key twice restores
      the payload. */
  lemma XorInvolution(payload: seq<byte>, key: seq<byte>)
    requires |key| == MaskKeyLen
    ensures Xor(Xor(payload, key), key) == payload
  {
    var once := Xor(payload, key);
    var twice := Xor(once, key);
    forall i | 0 <= i < |payload|
      ensures twice[i] == payload[i]
    {
      assert twice[i] == (payload[i] ^ key[i % 4]) ^ key[i % 4];
    }
  }

  /** The unmasking loop of the decoder, in place on the whole received
      region: the `len` bytes at `off` are XORed with the key found at
      `keyOff`, and no other byte changes. */
  method UnmaskInPlace(data: seq<byte>, keyOff: nat, off: nat, len: nat) returns (r: seq<byte>)
    requires keyOff + MaskKeyLen <= off && off + len <= |data|
    ensures |r| == |data|
    ensures r[..off] == data[..off] && r[off + len..] == data[off + len..]
    ensures r[off..off + len] == Xor(data[off..off + len], data[keyOff..keyOff + MaskKeyLen])
  {
    var key := data[keyOff..keyOff + MaskKeyLen];
    r := data;
    var i := 0;
    while i < len
      invariant 0 <= i <= len
      invariant |r| == |data|
      invariant forall k :: 0 <= k < off || off + len <= k < |data| ==> r[k] == data[k]
      invariant forall k :: off <= k < off + i ==> r[k] == data[k] ^ key[(k - off) % 4]
      invariant forall k :: off + i <= k < off + len ==> r[k] == data[k]
    {
      r := r[off + i := r[off + i] ^ key[i % 4]];
      i := i + 1;
    }
    assert r[..off] == data[..off];
    assert r[off + len..] == data[off + len..];
    assert r[off..off + len] == Xor(data[off..off + len], key);
  }

  // ---------------------------------------------------------------------
  // Decoder

  /** `websock_message`: the opcode, the FIN and MASK bits, and the payload
      view as an offset into the received bytes and a length. */
  datatype Message = Message(opcode: byte, final: bool, masked: bool, offset: nat, len: nat)

  /** The result of `websocket_decode_message`: 0 ("need more data"), or
      the number of bytes used, the message and its payload (unmasked).
      `Overrun` is a frame the C size check lets through although its
      payload runs past the received bytes, because the sum it compares
      against wrapped around in `size_t`; `consumed` is the wrapped count
      the C function returns, which is 0 for a masked frame whose sum
      wraps to exactly 0: the check passes and the unmasking loop runs,
      but the caller reads the 0 as "need more data". */
  datatype Decoded =
    | NeedMore
    | Frame(consumed: nat, msg: Message, payload: seq<byte>)
    | Overrun(consumed: nat, msg: Message)

  /** The 7-bit length of the second header byte. */
  function Len7(b1: byte): (n: nat)
    ensures n < 128
  {
    (b1 & 0x7F) as nat
  }

  /** The MASK bit of the second header byte. */
  predicate MaskBit(b1: byte)
  {
    b1 & MaskedMask != 0
  }

  /** Offset of the masking key (or of the payload when unmasked):
      the header and the extended length. */
  function KeyOffset(b1: byte): nat
  {
    HeaderLen + ExtLenLen(Len7(b1))
  }

  /** Offset of the payload: the key follows the extended length. */
  function PayloadOffset(b1: byte): nat
  {
    KeyOffset(b1) + (if MaskBit(b1) then MaskKeyLen else 0)
  }

  /** The payload length announced by a header whose extended length
      bytes are all present. */
  function PayloadLen(data: seq<byte>, signedChar: bool): (n: nat)
    requires HeaderLen <= |data| && KeyOffset(data[1]) <= |data|
  {
    if ExtLenLen(Len7(data[1])) > 0 then ExtLength(data[HeaderLen..KeyOffset(data[1])], signedChar)
    else Len7(data[1])
  }

  /** The payload as delivered: unmasked with `key` when the MASK bit of
      `b1` is set, as received otherwise. */
  function Unmask(b1: byte, key: seq<byte>, payload: seq<byte>): (r: seq<byte>)
    requires MaskBit(b1) ==> |key| == MaskKeyLen
    ensures |r| == |payload|
  {
    if MaskBit(b1) then Xor(payload, key) else payload
  }

  /** The frame found at the start of `data` once all of it is present. */
  function FrameAt(data: seq<byte>, len: nat): (r: Decoded)
    requires HeaderLen <= |data| && PayloadOffset(data[1]) + len <= |data|
    ensures r.Frame? && |r.payload| == r.msg.len == len
    ensures r.consumed == PayloadOffset(data[1]) + len == r.msg.offset + len
  {
    var off := PayloadOffset(data[1]);
    var body := Unmask(data[1], data[KeyOffset(data[1])..off], data[off..off + len]);
    Frame(off + len, Message(data[0] & OpcodeMask, data[0] & FinalMask != 0, MaskBit(data[1]), off, len), body)
  }

  /** `websocket_decode_message` with the size check done without
      overflow, and with the signedness of `char` as a parameter: the code
      reads the extended length through `char`, so on a platform where
      `char` is signed every length byte of `0x80` or more is
      sign-extended. "Need more data" is returned while the header, the
      extended length, the key or the payload is incomplete. */
  function DecodeWith(data: seq<byte>, signedChar: bool): (r: Decoded)
    ensures r.NeedMore? || r.Frame?
    ensures r.Frame? ==> HeaderLen <= r.consumed <= |data|
    ensures r.Frame? ==> |r.payload| == r.msg.len < SizeRange
  {
    if |data| < HeaderLen || |data| < KeyOffset(data[1]) then NeedMore
    else
      var len := PayloadLen(data, signedChar);
      if |data| < PayloadOffset(data[1]) + len then NeedMore
      else FrameAt(data, len)
  }

  /** The decoder with unsigned length bytes and an exact size check:
      the behaviour section 5.2 of RFC 6455 asks for. It never reports a
      frame that does not lie within the received bytes. */
  function Decode(data: seq<byte>): (r: Decoded)
    ensures r.NeedMore? || r.Frame?
    ensures r.Frame? ==> HeaderLen <= r.msg.offset && r.msg.offset + r.msg.len == r.consumed <= |data|
    ensures r.Frame? ==> |r.payload| == r.msg.len
  {
    DecodeWith(data, false)
  }

  /** `websocket_decode_message` as written, on a platform whose `char`
      has the given signedness: the size check of websock.h:165 compares
      against `2 + len_len + mask_len + len` computed in `size_t`. When
      that sum wraps, a frame that is not all there is let through
      (`Overrun`). A sum that wraps to exactly 0 passes the check too; an
      unmasked frame then only returns 0, which reads as "need more data",
      but a masked one first runs the unmasking loop past the input. */
  function DecodeAsWritten(data: seq<byte>, signedChar: bool): (r: Decoded)
    ensures r.Frame? ==> r.msg.offset + r.msg.len == r.consumed <= |data|
    ensures r.Overrun? ==> r.consumed <= |data| < r.msg.offset + r.msg.len == r.consumed + SizeRange
    ensures r.Overrun? && r.consumed == 0 ==> r.msg.masked
  {
    if |data| < HeaderLen || |data| < KeyOffset(data[1]) then NeedMore
    else
      var len := PayloadLen(data, signedChar);
      var off := PayloadOffset(data[1]);
      var total := Wrap(off + len);
      WrapOnce(off + len);
      if |data| < total || (total == 0 && !MaskBit(data[1])) then NeedMore
      else if off + len <= |data| then FrameAt(data, len)
      else Overrun(total, Message(data[0] & OpcodeMask, data[0] & FinalMask != 0, MaskBit(data[1]), off, len))
  }

  /** As long as the sum does not wrap, the decoder as written is the
      decoder with the exact size check; with unsigned bytes that is every
      frame whose announced length is below `2^64 - 14`. */
  lemma DecodeAsWrittenAgree(data: seq<byte>, signedChar: bool)
    requires HeaderLen <= |data| && KeyOffset(data[1]) <= |data| ==>
      PayloadOffset(data[1]) + PayloadLen(data, signedChar) < SizeRange
    ensures DecodeAsWritten(data, signedChar) == DecodeWith(data, signedChar)
  {
  }

  /** A frame put together from its parts decodes to them, whatever
      follows it: any first byte, any second byte, the extended length
      bytes its 7-bit length announces holding the payload length big-endian
      (including the longer encodings the writer never uses), a 4-byte key
      exactly when MASK is set, and the payload, masked with the key when
      MASK is set. */
  lemma DecodeAssembled(b0: byte, b1: byte, ext: seq<byte>, key: seq<byte>, p: seq<byte>, rest: seq<byte>)
    requires |ext| == ExtLenLen(Len7(b1))
    requires |ext| == 0 ==> |p| == Len7(b1)
    requires |ext| > 0 ==> |p| < Pow256(|ext|) && ext == BigEndian(|p|, |ext|)
    requires |key| == (if MaskBit(b1) then MaskKeyLen else 0)
    ensures var body := if MaskBit(b1) then Xor(p, key) else p;
      var frame := [b0, b1] + ext + key + body;
      Decode(frame + rest) ==
        Frame(|frame|, Message(b0 & OpcodeMask, b0 & FinalMask != 0, MaskBit(b1), 2 + |ext| + |key|, |p|), p)
  {
    var body := if MaskBit(b1) then Xor(p, key) else p;
    var frame := [b0, b1] + ext + key + body;
    DecodeAssembledExact(b0, b1, ext, key, p);
    DecodeExtend(frame, rest, false);
  }

  /** `DecodeAssembled` with nothing after the frame. */
  lemma DecodeAssembledExact(b0: byte, b1: byte, ext: seq<byte>, key: seq<byte>, p: seq<byte>)
    requires |ext| == ExtLenLen(Len7(b1))
    requires |ext| == 0 ==> |p| == Len7(b1)
    requires |ext| > 0 ==> |p| < Pow256(|ext|) && ext == BigEndian(|p|, |ext|)
    requires |key| == (if MaskBit(b1) then MaskKeyLen else 0)
    ensures var body := if MaskBit(b1) then Xor(p, key) else p;
      var frame := [b0, b1] + ext + key + body;
      Decode(frame) ==
        Frame(|frame|, Message(b0 & OpcodeMask, b0 & FinalMask != 0, MaskBit(b1), 2 + |ext| + |key|, |p|), p)
  {
    var body := if MaskBit(b1) then Xor(p, key) else p;
    var frame := [b0, b1] + ext + key + body;
    AssembledSlices(b0, b1, ext, key, body);
    AssembledLength(frame, b1, ext, p);
    DecodeLaidOut(frame, key, p);
  }

  /** A frame whose key and payload fill the input after its header
      decodes to its header bits and the unmasked payload. */
  lemma DecodeLaidOut(data: seq<byte>, key: seq<byte>, p: seq<byte>)
    requires HeaderLen <= |data| && KeyOffset(data[1]) <= |data|
    requires |key| == (if MaskBit(data[1]) then MaskKeyLen else 0)
    requires |data| == PayloadOffset(data[1]) + |p| && PayloadLen(data, false) == |p|
    requires data[KeyOffset(data[1])..PayloadOffset(data[1])] == key
    requires data[PayloadOffset(data[1])..] == if MaskBit(data[1]) then Xor(p, key) else p
    ensures Decode(data) ==
      Frame(|data|, Message(data[0] & OpcodeMask, data[0] & FinalMask != 0, MaskBit(data[1]), PayloadOffset(data[1]), |p|), p)
  {
    var body := if MaskBit(data[1]) then Xor(p, key) else p;
    DecodeWhole(data, |p|);
    FrameAtFields(data, |p|, key, body);
    UnmaskMasked(data[1], key, p);
  }

  /** The frame found whole, given where its key and payload lie. */
  lemma FrameAtFields(data: seq<byte>, len: nat, key: seq<byte>, body: seq<byte>)
    requires HeaderLen <= |data| && PayloadOffset(data[1]) + len == |data|
    requires MaskBit(data[1]) ==> |key| == MaskKeyLen
    requires data[KeyOffset(data[1])..PayloadOffset(data[1])] == key
    requires data[PayloadOffset(data[1])..] == body
    ensures FrameAt(data, len) == Frame(|data|,
      Message(data[0] & OpcodeMask, data[0] & FinalMask != 0, MaskBit(data[1]), PayloadOffset(data[1]), len),
      Unmask(data[1], key, body))
  {
    var off := PayloadOffset(data[1]);
    assert data[off..off + len] == body;
  }

  /** Unmasking what was masked with the same key gives the payload. */
  lemma UnmaskMasked(b1: byte, key: seq<byte>, p: seq<byte>)
    requires |key| == (if MaskBit(b1) then MaskKeyLen else 0)
    ensures Unmask(b1, key, if MaskBit(b1) then Xor(p, key) else p) == p
  {
    if MaskBit(b1) {
      XorInvolution(p, key);
    }
  }

  /** A frame that ends exactly where the input ends is found whole. */
  lemma DecodeWhole(data: seq<byte>, len: nat)
    requires HeaderLen <= |data| && KeyOffset(data[1]) <= |data|
    requires PayloadLen(data, false) == len && PayloadOffset(data[1]) + len == |data|
    ensures Decode(data) == FrameAt(data, len)
  {
  }

  /** Where the parts of an assembled frame lie. */
  lemma AssembledSlices(b0: byte, b1: byte, ext: seq<byte>, key: seq<byte>, body: seq<byte>)
    ensures var data := [b0, b1] + ext + key + body;
      && data[0] == b0 && data[1] == b1
      && data[2..2 + |ext|] == ext
      && data[2 + |ext|..2 + |ext| + |key|] == key
      && data[2 + |ext| + |key|..] == body
  {
  }

  /** The length announced by a header whose 7-bit length and extended
      length bytes encode `|p|`. */
  lemma AssembledLength(data: seq<byte>, b1: byte, ext: seq<byte>, p: seq<byte>)
    requires |ext| == ExtLenLen(Len7(b1))
    requires |ext| == 0 ==> |p| == Len7(b1)
    requires |ext| > 0 ==> |p| < Pow256(|ext|) && ext == BigEndian(|p|, |ext|)
    requires 2 + |ext| <= |data| && data[1] == b1 && data[2..2 + |ext|] == ext
    ensures KeyOffset(data[1]) == 2 + |ext| && PayloadLen(data, false) == |p|
  {
    if |ext| > 0 {
      Pow256Bound(|ext|);
      BigEndianRoundTrip(|p|, |ext|);
    }
  }

  /** Two byte strings that agree on their first `n` bytes agree on every
      slice within them. */
  lemma SliceAgree(a: seq<byte>, b: seq<byte>, n: nat, i: nat, j: nat)
    requires n <= |a| && n <= |b| && a[..n] == b[..n]
    requires i <= j <= n
    ensures a[i..j] == b[i..j]
  {
    forall k | i <= k < j
      ensures a[k] == b[k]
    {
      assert a[k] == a[..n][k] && b[k] == b[..n][k];
    }
  }

  /** The header bytes and the extended length are read from the first
      `n` bytes only. */
  lemma HeaderAgree(data: seq<byte>, other: seq<byte>, n: nat, signedChar: bool)
    requires n <= |data| && n <= |other| && data[..n] == other[..n]
    requires HeaderLen <= n && KeyOffset(data[1]) <= n
    ensures data[0] == other[0] && data[1] == other[1]
    ensures PayloadLen(other, signedChar) == PayloadLen(data, signedChar)
  {
    assert data[0] == data[..n][0] && other[0] == other[..n][0];
    assert data[1] == data[..n][1] && other[1] == other[..n][1];
    SliceAgree(data, other, n, HeaderLen, KeyOffset(data[1]));
  }

  /** A frame lying within the first `n` bytes is read from them only. */
  lemma FrameAtAgree(data: seq<byte>, other: seq<byte>, n: nat, len: nat)
    requires n <= |data| && n <= |other| && data[..n] == other[..n]
    requires HeaderLen <= |data| && PayloadOffset(data[1]) + len <= n
    ensures data[1] == other[1]
    ensures FrameAt(other, len) == FrameAt(data, len)
  {
    assert data[0] == data[..n][0] && other[0] == other[..n][0];
    assert data[1] == data[..n][1] && other[1] == other[..n][1];
    var off := PayloadOffset(data[1]);
    SliceAgree(data, other, n, off, off + len);
    SliceAgree(data, other, n, KeyOffset(data[1]), off);
    assert Unmask(other[1], other[KeyOffset(other[1])..off], other[off..off + len])
      == Unmask(data[1], data[KeyOffset(data[1])..off], data[off..off + len]);
  }

  /** Once the first `n` bytes hold a whole frame, the decoder looks at
      nothing else. */
  lemma DecodeAgree(data: seq<byte>, other: seq<byte>, n: nat, signedChar: bool)
    requires n <= |data| && n <= |other| && data[..n] == other[..n]
    requires DecodeWith(data, signedChar).Frame?
    requires DecodeWith(data, signedChar).consumed <= n
    ensures DecodeWith(other, signedChar) == DecodeWith(data, signedChar)
  {
    HeaderAgree(data, other, n, signedChar);
    FrameAtAgree(data, other, n, PayloadLen(data, signedChar));
  }

  /** Incremental feed: once the bytes of a whole frame are present,
      bytes received after them do not change the result. */
  lemma DecodeExtend(data: seq<byte>, more: seq<byte>, signedChar: bool)
    requires DecodeWith(data, signedChar).Frame?
    ensures DecodeWith(data + more, signedChar) == DecodeWith(data, signedChar)
  {
    assert (data + more)[..|data|] == data[..|data|];
    DecodeAgree(data, data + more, |data|, signedChar);
  }

  /** Every strict prefix of a frame is reported as "need more data". */
  lemma PrefixNeedsMore(data: seq<byte>, k: nat, signedChar: bool)
    requires DecodeWith(data, signedChar).Frame?
    requires k < DecodeWith(data, signedChar).consumed
    ensures DecodeWith(data[..k], signedChar) == NeedMore
  {
    var p := data[..k];
    if k >= HeaderLen {
      assert p[1] == data[1];
      if k >= KeyOffset(data[1]) {
        assert p[..k] == data[..k];
        HeaderAgree(data, p, k, signedChar);
      }
    }
  }

  /** The fields of the opcode-and-flags byte `op | 0x80`. */
  lemma OpFlags(op: byte)
    requires op <= OpcodeMask
    ensures (op | FinalMask) & OpcodeMask == op
    ensures (op | FinalMask) & FinalMask != 0
  {
  }

  /** Where the parts of a written frame sit. */
  lemma WrittenLayout(p: seq<byte>, opflags: byte)
    requires |p| < SizeRange
    ensures var frame := WriteMessage(p, opflags);
      var f := LengthField(|p|);
      && |frame| == 1 + |f| + |p|
      && frame[0] == opflags && frame[1] == f[0]
      && frame[HeaderLen..1 + |f|] == f[1..]
      && frame[1 + |f|..] == p
  {
    var frame := WriteMessage(p, opflags);
    var f := LengthField(|p|);
    assert frame == [opflags] + (f + p);
    assert frame[1..] == f + p;
  }

  /** An unmasked frame that fills `data` exactly decodes to its
      header fields and the bytes after the header. */
  lemma DecodeUnmasked(data: seq<byte>)
    requires HeaderLen <= |data| && !MaskBit(data[1]) && KeyOffset(data[1]) <= |data|
    requires PayloadOffset(data[1]) + PayloadLen(data, false) == |data|
    ensures var off := PayloadOffset(data[1]);
      Decode(data) == Frame(|data|, Message(data[0] & OpcodeMask, data[0] & FinalMask != 0, false,
        off, |data| - off), data[off..])
  {
  }

  /** A written frame decodes to itself, with the flags of `op | FIN`. */
  lemma DecodeWritten(p: seq<byte>, op: byte)
    requires |p| < SizeRange && op <= OpcodeMask
    ensures var frame := WriteMessage(p, op | FinalMask);
      var f := LengthField(|p|);
      Decode(frame) == Frame(|frame|, Message(op, true, false, 1 + |f|, |p|), p)
  {
    var frame := WriteMessage(p, op | FinalMask);
    var f := LengthField(|p|);
    WrittenLayout(p, op | FinalMask);
    LengthFieldHead(|p|);
    LengthFieldValue(|p|);
    OpFlags(op);
    assert KeyOffset(frame[1]) == PayloadOffset(frame[1]) == 1 + |f|;
    assert PayloadLen(frame, false) == |p|;
    DecodeUnmasked(frame);
  }

  /** Round trip: decoding `websocket_write_message(p, op | FIN)` followed
      by anything gives opcode `op`, FIN set, no mask, length `|p|`,
      payload `p`, and consumes exactly the frame. */
  lemma WriteDecode(p: seq<byte>, op: byte, rest: seq<byte>)
    requires |p| < SizeRange && op <= OpcodeMask
    ensures var frame := WriteMessage(p, op | FinalMask);
      var f := LengthField(|p|);
      Decode(frame + rest) ==
        Frame(|frame|, Message(op, true, false, 1 + |f|, |p|), p)
  {
    DecodeWritten(p, op);
    DecodeExtend(WriteMessage(p, op | FinalMask), rest, false);
  }

  /** The header of a client frame: the opcode-and-flags byte and the
      length field with the MASK bit set. */
  function MaskedHeader(len: nat, opflags: byte): (h: seq<byte>)
    requires len < SizeRange
    ensures |h| == |LengthField(len)| + 1
  {
    var f := LengthField(len);
    [opflags, f[0] | MaskedMask] + f[1..]
  }

  /** A client frame (section 5.3 of RFC 6455): the header, the 4-byte
      masking key and the payload masked with it. The engine never writes
      one; it is the reference the decoder's unmasking is checked
      against. */
  function WriteMasked(data: seq<byte>, opflags: byte, key: seq<byte>): seq<byte>
    requires |data| < SizeRange && |key| == MaskKeyLen
  {
    MaskedHeader(|data|, opflags) + key + Xor(data, key)
  }

  /** Setting the MASK bit leaves the 7-bit length alone. */
  lemma MaskBitSet(b: byte)
    ensures MaskBit(b | MaskedMask) && Len7(b | MaskedMask) == Len7(b)
  {
    assert (b | 0x80) & 0x7F == b & 0x7F;
  }

  /** The header of a client frame announces the payload length, the
      mask and nothing else. */
  lemma MaskedHeaderFields(len: nat, opflags: byte, data: seq<byte>)
    requires len < SizeRange
    requires MaskedHeader(len, opflags) <= data
    ensures var h := MaskedHeader(len, opflags);
      && data[0] == opflags && MaskBit(data[1])
      && KeyOffset(data[1]) == |h|
      && PayloadLen(data, false) == len
  {
    var f := LengthField(len);
    var h := MaskedHeader(len, opflags);
    LengthFieldHead(len);
    LengthFieldValue(len);
    MaskBitSet(f[0]);
    assert data[0] == h[0] && data[1] == h[1];
    assert data[HeaderLen..|h|] == h[HeaderLen..] == f[1..];
  }

  /** A client frame on its own decodes to the payload that was
      masked. */
  lemma DecodeClientFrame(p: seq<byte>, op: byte, key: seq<byte>)
    requires |p| < SizeRange && op <= OpcodeMask && |key| == MaskKeyLen
    ensures var frame := WriteMasked(p, op | FinalMask, key);
      var h := MaskedHeader(|p|, op | FinalMask);
      Decode(frame) == Frame(|frame|, Message(op, true, true, |h| + MaskKeyLen, |p|), p)
  {
    var frame := WriteMasked(p, op | FinalMask, key);
    var h := MaskedHeader(|p|, op | FinalMask);
    assert frame == h + (key + Xor(p, key));
    MaskedHeaderFields(|p|, op | FinalMask, frame);
    OpFlags(op);
    assert frame[|h|..|h| + MaskKeyLen] == key;
    assert frame[|h| + MaskKeyLen..] == Xor(p, key);
    DecodeLaidOut(frame, key, p);
  }

  /** Round trip for client frames: the decoder unmasks the payload, so
      decoding a masked frame followed by anything gives back the payload
      that was masked, with the MASK flag set. */
  lemma MaskedDecode(p: seq<byte>, op: byte, key: seq<byte>, rest: seq<byte>)
    requires |p| < SizeRange && op <= OpcodeMask && |key| == MaskKeyLen
    ensures var frame := WriteMasked(p, op | FinalMask, key);
      var h := MaskedHeader(|p|, op | FinalMask);
      Decode(frame + rest) == Frame(|frame|, Message(op, true, true, |h| + MaskKeyLen, |p|), p)
  {
    DecodeClientFrame(p, op, key);
    DecodeExtend(WriteMasked(p, op | FinalMask, key), rest, false);
  }

  /** With signed `char`, a 2-byte length whose low byte `lo` is `0x80`
      or more is sign-extended to `2^64 - 256 + lo`. Up to `lo = 0xFC` the
      frame is then not accepted although it is all there: the decoder
      asks for more data (at `0xFC` the size check's sum wraps to 0, which
      reads as the same answer). Read as unsigned, the same bytes decode
      to the whole frame. */
  lemma SignedLengthStalls(p: seq<byte>, op: byte)
    requires Len0Max < |p| <= Len2Max && 0x80 <= |p| % 256 < 0xFD
    requires op <= OpcodeMask
    ensures var frame := WriteMessage(p, op | FinalMask);
      && DecodeAsWritten(frame, true) == NeedMore
      && Decode(frame).Frame? && Decode(frame).payload == p
  {
    SignedLength(p, op);
  }

  /** For a low byte of `0xFD` to `0xFF` the sum of the size check wraps
      to `lo - 252`, which is less than the frame: the decoder as written
      accepts a frame announcing `2^64 - 256 + lo` bytes and reports 1 to 3
      bytes used. */
  lemma SignedLengthOverrun(p: seq<byte>, op: byte)
    requires Len0Max < |p| <= Len2Max && |p| % 256 >= 0xFD
    requires op <= OpcodeMask
    ensures var frame := WriteMessage(p, op | FinalMask);
      && DecodeAsWritten(frame, true) ==
        Overrun(|p| % 256 - 252, Message(op, true, false, 4, SizeRange - 256 + |p| % 256))
      && Decode(frame).Frame? && Decode(frame).payload == p
  {
    SignedLength(p, op);
  }

  /** The layout shared by the two cases: the header of a frame with a
      16-bit length, and its length read with signed `char`. */
  lemma SignedLength(p: seq<byte>, op: byte)
    requires Len0Max < |p| <= Len2Max && |p| % 256 >= 0x80
    requires op <= OpcodeMask
    ensures var frame := WriteMessage(p, op | FinalMask);
      && HeaderLen <= |frame| && KeyOffset(frame[1]) == PayloadOffset(frame[1]) == 4 <= |frame|
      && frame[0] == op | FinalMask && !MaskBit(frame[1])
      && PayloadLen(frame, true) == SizeRange - 256 + |p| % 256
      && Decode(frame).Frame? && Decode(frame).payload == p
  {
    var frame := WriteMessage(p, op | FinalMask);
    DecodeWritten(p, op);
    WrittenLayout(p, op | FinalMask);
    SignedLength16(|p|);
  }

  /** A 16-bit length whose low byte is `0x80` or more, read with signed
      `char`: the low byte is sign-extended over the high one. */
  lemma SignedLength16(n: nat)
    requires n % 256 >= 0x80
    ensures ExtLength(BigEndian(n, 2), true) == SizeRange - 256 + n % 256
  {
    var hi := ByteOf((n / 256) % 256);
    var lo := ByteOf(n % 256);
    assert BigEndian(n, 2) == BigEndian(n / 256, 1) + [lo];
    assert BigEndian(n / 256, 1) == [hi];
    ExtLengthSnoc([hi], lo, true);
    assert lo >= 0x80;
  }

  /** The layout of a client frame with a 16-bit length, and its length
      read with signed `char`. */
  lemma SignedMaskedLength(p: seq<byte>, op: byte, key: seq<byte>)
    requires Len0Max < |p| <= Len2Max && |p| % 256 >= 0x80
    requires op <= OpcodeMask && |key| == MaskKeyLen
    ensures var frame := WriteMasked(p, op | FinalMask, key);
      && HeaderLen <= |frame| && KeyOffset(frame[1]) == 4 && PayloadOffset(frame[1]) == 8 <= |frame|
      && |frame| == 8 + |p|
      && frame[0] == op | FinalMask && MaskBit(frame[1])
      && PayloadLen(frame, true) == SizeRange - 256 + |p| % 256
      && Decode(frame).Frame? && Decode(frame).payload == p
  {
    var frame := WriteMasked(p, op | FinalMask, key);
    var h := MaskedHeader(|p|, op | FinalMask);
    assert frame == h + (key + Xor(p, key));
    MaskedHeaderFields(|p|, op | FinalMask, frame);
    DecodeClientFrame(p, op, key);
    assert frame[HeaderLen..4] == h[HeaderLen..] == LengthField(|p|)[1..] == BigEndian(|p|, 2);
    SignedLength16(|p|);
  }

  /** With signed `char`, a client frame with a 16-bit length whose low
      byte `lo` is `0x80` to `0xF7` is never accepted: the size check's sum
      `8 + 2^64 - 256 + lo` stays above any input. */
  lemma SignedMaskedStalls(p: seq<byte>, op: byte, key: seq<byte>)
    requires Len0Max < |p| <= Len2Max && 0x80 <= |p| % 256 < 0xF8
    requires op <= OpcodeMask && |key| == MaskKeyLen
    ensures var frame := WriteMasked(p, op | FinalMask, key);
      && DecodeAsWritten(frame, true) == NeedMore
      && Decode(frame).Frame? && Decode(frame).payload == p
  {
    SignedMaskedLength(p, op, key);
  }

  /** With signed `char` and a low byte of `0xF8` or more, the sum wraps
      to `lo - 248`, at most 7: the client frame is let through, announcing
      `2^64 - 256 + lo` bytes, so the unmasking loop runs past the input.
      At `0xF8` the function then returns 0, as if it needed more data. */
  lemma SignedMaskedOverrun(p: seq<byte>, op: byte, key: seq<byte>)
    requires Len0Max < |p| <= Len2Max && |p| % 256 >= 0xF8
    requires op <= OpcodeMask && |key| == MaskKeyLen
    ensures var frame := WriteMasked(p, op | FinalMask, key);
      && DecodeAsWritten(frame, true) ==
        Overrun(|p| % 256 - 248, Message(op, true, true, 8, SizeRange - 256 + |p| % 256))
      && Decode(frame).Frame? && Decode(frame).payload == p
  {
    SignedMaskedLength(p, op, key);
    OpFlags(op);
  }

  /** A concrete instance: a client frame carrying 248 zero bytes, whose
      length bytes `0x00 0xF8` make the size check's sum exactly `2^64`. */
  lemma SignedMaskedCounterexample()
    ensures var frame := WriteMasked(seq(248, _ => 0), OpBinary | FinalMask, [1, 2, 3, 4]);
      && DecodeAsWritten(frame, true) == Overrun(0, Message(OpBinary, true, true, 8, SizeRange - 8))
      && Decode(frame).Frame? && Decode(frame).msg.len == 248
  {
    var p: seq<byte> := seq(248, _ => 0);
    assert |p| == 248 && |p| % 256 == 0xF8 && 248 - 248 == 0;
    SignedMaskedOverrun(p, OpBinary, [1, 2, 3, 4]);
  }

  /** A concrete instance: a frame carrying 200 zero bytes. */
  lemma SignedLengthCounterexample()
    ensures var frame := WriteMessage(seq(200, _ => 0), OpBinary | FinalMask);
      && DecodeAsWritten(frame, true) == NeedMore
      && Decode(frame).Frame? && Decode(frame).msg.len == 200
  {
    SignedLengthStalls(seq(200, _ => 0), OpBinary);
  }

  /** Eight `0xFF` bytes read as `2^64 - 1`, whatever the signedness of
      `char`. */
  lemma AllOnes(signedChar: bool)
    ensures ExtLength(seq(8, _ => 0xFF), signedChar) == SizeRange - 1
  {
    var ones: seq<byte> := seq(8, _ => 0xFF);
    var k := 0;
    assert ones[..0] == [];
    while k < 8
      invariant 0 <= k <= 8
      invariant ExtLength(ones[..k], signedChar) == (if k == 0 then 0 else if signedChar then SizeRange - 1 else Pow256(k) - 1)
    {
      assert ones[..k + 1] == ones[..k] + [0xFF];
      ExtLengthSnoc(ones[..k], 0xFF, signedChar);
      Pow256Bound(k + 1);
      k := k + 1;
    }
    assert ones[..8] == ones;
    Pow256Bound(8);
  }

  /** A client frame of 14 bytes (FIN, binary, MASK, the 64-bit length
      `2^64 - 1` and a key): the size check's sum `14 + 2^64 - 1` wraps to
      13, so the decoder as written accepts the frame, runs its unmasking
      loop over `2^64 - 1` bytes past the key, and reports 13 bytes used.
      The exact check waits for the payload. */
  lemma LengthWrapCounterexample(signedChar: bool)
    ensures var frame := [OpBinary | FinalMask, Len8Code | MaskedMask] + seq(8, _ => 0xFF) + [0, 0, 0, 0];
      && DecodeAsWritten(frame, signedChar) == Overrun(13, Message(OpBinary, true, true, 14, SizeRange - 1))
      && Decode(frame) == NeedMore
  {
    var frame: seq<byte> := [OpBinary | FinalMask, Len8Code | MaskedMask] + seq(8, _ => 0xFF) + [0, 0, 0, 0];
    assert frame[1] == 0xFF;
    assert Len7(frame[1]) == 127 && MaskBit(frame[1]);
    assert KeyOffset(frame[1]) == 10 && PayloadOffset(frame[1]) == 14;
    assert frame[HeaderLen..10] == seq(8, _ => 0xFF);
    AllOnes(signedChar);
    AllOnes(false);
  }
}
