/** `base64_encode` of `base64.h`: the encoding of section 4 of RFC 4648
    (standard alphabet, `=` padding to a whole 4-character quantum). The
    WebSocket handshake uses it to render the accept key.

    The encoder is modelled in two layers: `Symbols` lays out, for every
    output position, either a table index or the padding mark, exactly as
    the loop and the `switch` of the C function do; `Render` then looks
    each index up in the table. */
module Base64 {
  import opened Bytes

  // ---------------------------------------------------------------------
  // The table

  /** A 6-bit value, the index into the table. */
  type Sextet = x: bv8 | x < 64

  /** The 64-entry table `tab`: `A-Z`, `a-z`, `0-9`, `+`, `/`. */
  function Digit(i: Sextet): char
  {
    TableAt(i as int)
  }

  /** Entry `n` of the table. */
  function TableAt(n: nat): char
    requires n < 64
  {
    if n < 26 then ('A' as int + n) as char
    else if n < 52 then ('a' as int + (n - 26)) as char
    else if n < 62 then ('0' as int + (n - 52)) as char
    else if n == 62 then '+'
    else '/'
  }

  /** Membership in the alphabet. */
  predicate IsDigit(c: char)
  {
    'A' <= c <= 'Z' || 'a' <= c <= 'z' || '0' <= c <= '9' || c == '+' || c == '/'
  }

  /** The table position of an alphabet character. */
  function TableIndex(c: char): (n: nat)
    requires IsDigit(c)
    ensures n < 64
  {
    if 'A' <= c <= 'Z' then c as int - 'A' as int
    else if 'a' <= c <= 'z' then c as int - 'a' as int + 26
    else if '0' <= c <= '9' then c as int - '0' as int + 52
    else if c == '+' then 62
    else 63
  }

  /** The position of an alphabet character in the table, or `None` for
      any other character. */
  function DigitValue(c: char): (r: Option<Sextet>)
    ensures r.Some? <==> IsDigit(c)
  {
    if IsDigit(c) then Some(TableIndex(c) as bv8) else None
  }

  /** `TableIndex` undoes `TableAt`. */
  lemma TableInverse(n: nat)
    requires n < 64
    ensures IsDigit(TableAt(n)) && TableIndex(TableAt(n)) == n
  {
  }

  /** The table holds alphabet characters only, and `DigitValue` is its
      inverse, so distinct positions hold distinct characters. */
  lemma DigitInverse(i: Sextet)
    ensures IsDigit(Digit(i))
    ensures DigitValue(Digit(i)) == Some(i)
  {
    var n := i as int;
    TableInverse(n);
    assert n as bv8 == i;
  }

  // ---------------------------------------------------------------------
  // Output positions

  /** What one output position holds: the table entry at `index`, or the
      padding character. */
  datatype Symbol = Entry(index: Sextet) | Pad

  /** The character written for a symbol. */
  function Char(s: Symbol): char
  {
    match s
    case Entry(i) => Digit(i)
    case Pad => '='
  }

  /** The characters written for a run of symbols. */
  function Render(syms: seq<Symbol>): (s: string)
    ensures |s| == |syms|
  {
    seq(|syms|, k requires 0 <= k < |syms| => Char(syms[k]))
  }

  /** Rendering is position by position, so it distributes over
      concatenation. */
  lemma RenderConcat(x: seq<Symbol>, y: seq<Symbol>)
    ensures Render(x + y) == Render(x) + Render(y)
  {
  }

  /** ... and commutes with taking a slice. */
  lemma RenderSlice(x: seq<Symbol>, i: nat, j: nat)
    requires i <= j <= |x|
    ensures Render(x)[i..j] == Render(x[i..j])
  {
  }

  // ---------------------------------------------------------------------
  // The encoder

  /** `triple`: three bytes as one big-endian 24-bit value in a 32-bit
      word, built with the shifts and additions of the encoder. */
  function Triple(a: byte, b: byte, c: byte): bv32
  {
    ((a as bv32) << 16) + ((b as bv32) << 8) + (c as bv32)
  }

  /** `(triple >> k * 6) & 0x3f`: the `k`-th 6-bit field, counted from
      the least significant end. */
  function Field(t: bv32, k: nat): Sextet
    requires k < 4
  {
    if k == 3 then ((t >> 18) & 0x3F) as bv8
    else if k == 2 then ((t >> 12) & 0x3F) as bv8
    else if k == 1 then ((t >> 6) & 0x3F) as bv8
    else (t & 0x3F) as bv8
  }

  /** The four table indices written for the group `a b c`: its 6-bit
      fields, most significant first. */
  function GroupSymbols(a: byte, b: byte, c: byte): (q: seq<Symbol>)
    ensures |q| == 4
  {
    var t := Triple(a, b, c);
    [Entry(Field(t, 3)), Entry(Field(t, 2)), Entry(Field(t, 1)), Entry(Field(t, 0))]
  }

  /** The `switch (rest)` of the encoder: a final single byte gives two
      table indices and two padding marks, a final pair gives three
      table indices and one padding mark, and nothing is written when no
      byte remains. The missing bytes count as zero. */
  function TailSymbols(rest: seq<byte>): (q: seq<Symbol>)
    requires |rest| < 3
  {
    if |rest| == 1 then GroupSymbols(rest[0], 0, 0)[..2] + [Pad, Pad]
    else if |rest| == 2 then GroupSymbols(rest[0], rest[1], 0)[..3] + [Pad]
    else []
  }

  /** The symbols of the whole output: one group per full 3-byte group
      while at least three bytes remain, then the padded remainder. */
  function Symbols(data: seq<byte>): seq<Symbol>
    decreases |data|
  {
    if |data| < 3 then TailSymbols(data)
    else GroupSymbols(data[0], data[1], data[2]) + Symbols(data[3..])
  }

  /** The four characters of one full group. */
  function Quantum(a: byte, b: byte, c: byte): (s: string)
    ensures |s| == 4
  {
    Render(GroupSymbols(a, b, c))
  }

  /** The characters of the `switch` on the remainder. */
  function EncodeTail(rest: seq<byte>): string
    requires |rest| < 3
  {
    Render(TailSymbols(rest))
  }

  /** `base64_encode`. The output is `4 * ceil(len / 3)` characters long,
      the size the caller's output buffer must have; every character is in
      the table except the last `PadLen(len)`, which are `=`, so `=`
      appears only in the final quantum, as its last one or two
      characters. */
  function Encode(data: seq<byte>): (s: string)
    ensures |s| == 4 * ((|data| + 2) / 3)
    ensures Padded(s, PadLen(|data|))
  {
    SymbolsLength(data);
    SymbolsPadded(data);
    RenderPadded(Symbols(data), PadLen(|data|));
    Render(Symbols(data))
  }

  /** Number of `=` characters that end the encoding of `n` bytes. */
  function PadLen(n: nat): nat
  {
    if n % 3 == 0 then 0 else 3 - n % 3
  }

  /** Four symbols per group of three bytes, the last group padded. */
  lemma {:induction false} SymbolsLength(data: seq<byte>)
    ensures |Symbols(data)| == 4 * ((|data| + 2) / 3)
    decreases |data|
  {
    if |data| >= 3 {
      SymbolsLength(data[3..]);
    }
  }

  /** The remainder, as characters: two table characters and `==` for a
      single byte, three table characters and `=` for a pair. */
  lemma EncodeTailChars(rest: seq<byte>)
    requires |rest| < 3
    ensures |rest| == 0 ==> EncodeTail(rest) == []
    ensures |rest| == 1 ==> EncodeTail(rest) == Quantum(rest[0], 0, 0)[..2] + "=="
    ensures |rest| == 2 ==> EncodeTail(rest) == Quantum(rest[0], rest[1], 0)[..3] + "="
  {
    if |rest| == 1 {
      var g := GroupSymbols(rest[0], 0, 0);
      RenderConcat(g[..2], [Pad, Pad]);
      RenderSlice(g, 0, 2);
    } else if |rest| == 2 {
      var g := GroupSymbols(rest[0], rest[1], 0);
      RenderConcat(g[..3], [Pad]);
      RenderSlice(g, 0, 3);
    }
  }

  /** One turn of the main loop: the group at offset `i` becomes the
      next quantum. */
  lemma EncodeStep(data: seq<byte>, i: nat)
    requires i + 3 <= |data|
    ensures Encode(data[i..]) == Quantum(data[i], data[i + 1], data[i + 2]) + Encode(data[i + 3..])
  {
    assert data[i..][3..] == data[i + 3..];
    RenderConcat(GroupSymbols(data[i], data[i + 1], data[i + 2]), Symbols(data[i + 3..]));
  }

  /** The first group of a longer input becomes the first quantum. */
  lemma EncodeFirst(data: seq<byte>)
    requires |data| >= 3
    ensures Encode(data) == Quantum(data[0], data[1], data[2]) + Encode(data[3..])
  {
    RenderConcat(GroupSymbols(data[0], data[1], data[2]), Symbols(data[3..]));
  }

  // ---------------------------------------------------------------------
  // Alphabet

  /** `syms` is table entries followed by exactly `pad` padding marks. */
  predicate PaddedSymbols(syms: seq<Symbol>, pad: nat)
  {
    && pad <= |syms|
    && (forall k :: 0 <= k < |syms| - pad ==> syms[k].Entry?)
    && (forall k :: |syms| - pad <= k < |syms| ==> syms[k] == Pad)
  }

  /** `s` consists of alphabet characters followed by exactly `pad`
      padding characters. */
  predicate Padded(s: string, pad: nat)
  {
    && pad <= |s|
    && (forall k :: 0 <= k < |s| - pad ==> IsDigit(s[k]))
    && (forall k :: |s| - pad <= k < |s| ==> s[k] == '=')
  }

  /** Joining a run of entries and a padded run gives a padded run. */
  lemma PaddedConcat(x: seq<Symbol>, y: seq<Symbol>, pad: nat)
    requires PaddedSymbols(x, 0) && PaddedSymbols(y, pad)
    ensures PaddedSymbols(x + y, pad)
  {
    var u := x + y;
    forall k | 0 <= k < |u| - pad
      ensures u[k].Entry?
    {
      if k >= |x| {
        assert u[k] == y[k - |x|];
      }
    }
  }

  /** The symbols are entries everywhere but the last `PadLen(len)`
      positions, which are padding marks. */
  lemma {:induction false} SymbolsPadded(data: seq<byte>)
    ensures PaddedSymbols(Symbols(data), PadLen(|data|))
    decreases |data|
  {
    if |data| >= 3 {
      SymbolsPadded(data[3..]);
      assert PadLen(|data[3..]|) == PadLen(|data|);
      PaddedConcat(GroupSymbols(data[0], data[1], data[2]), Symbols(data[3..]), PadLen(|data|));
    }
  }

  /** Rendering entries gives alphabet characters, and padding marks give
      `=`. */
  lemma RenderPadded(syms: seq<Symbol>, pad: nat)
    requires PaddedSymbols(syms, pad)
    ensures Padded(Render(syms), pad)
  {
    var s := Render(syms);
    forall k | 0 <= k < |s| - pad
      ensures IsDigit(s[k])
    {
      DigitInverse(syms[k].index);
    }
  }

  /** The accept key is the encoding of a 20-byte digest: 28 characters,
      exactly the last of which is `=`. */
  lemma AcceptKeyShape(digest: seq<byte>)
    requires |digest| == 20
    ensures |Encode(digest)| == 28
    ensures Encode(digest)[27] == '='
    ensures forall k :: 0 <= k < 27 ==> Encode(digest)[k] != '='
  {
    assert PadLen(20) == 1;
    var s := Encode(digest);
    forall k | 0 <= k < 27
      ensures s[k] != '='
    {
      assert IsDigit(s[k]);
    }
  }

  // ---------------------------------------------------------------------
  // Groups and concatenation

  /** The symbols of whole groups followed by anything are the symbols
      of each part. */
  lemma {:induction false} SymbolsConcat(a: seq<byte>, b: seq<byte>)
    requires |a| % 3 == 0
    ensures Symbols(a + b) == Symbols(a) + Symbols(b)
    decreases |a|
  {
    if |a| == 0 {
      assert a + b == b;
    } else {
      var ab := a + b;
      assert ab[0] == a[0] && ab[1] == a[1] && ab[2] == a[2];
      assert ab[3..] == a[3..] + b;
      SymbolsConcat(a[3..], b);
    }
  }

  /** Concatenation: `encode(a ++ b) == encode(a) ++ encode(b)` whenever
      `a` is a whole number of groups, as each group is encoded on its
      own. */
  lemma EncodeConcat(a: seq<byte>, b: seq<byte>)
    requires |a| % 3 == 0
    ensures Encode(a + b) == Encode(a) + Encode(b)
  {
    SymbolsConcat(a, b);
    RenderConcat(Symbols(a), Symbols(b));
  }

  /** The `j`-th group of symbols is that of the `j`-th input group. */
  lemma {:induction false} SymbolsGroup(data: seq<byte>, j: nat)
    requires 3 * j + 3 <= |data|
    ensures |Symbols(data)| >= 4 * j + 4
    ensures Symbols(data)[4 * j .. 4 * j + 4] ==
            GroupSymbols(data[3 * j], data[3 * j + 1], data[3 * j + 2])
    decreases j
  {
    var g := GroupSymbols(data[0], data[1], data[2]);
    var more := Symbols(data[3..]);
    if j > 0 {
      SymbolsGroup(data[3..], j - 1);
      assert (g + more)[4 * j .. 4 * j + 4] == more[4 * (j - 1) .. 4 * (j - 1) + 4];
    } else {
      assert (g + more)[..4] == g;
    }
  }

  /** Full groups: the `j`-th full 3-byte group maps to the four table
      characters of its 6-bit fields, at output position `4 * j`. */
  lemma EncodeFullGroup(data: seq<byte>, j: nat)
    requires 3 * j + 3 <= |data|
    ensures |Encode(data)| >= 4 * j + 4
    ensures Encode(data)[4 * j .. 4 * j + 4] ==
            Quantum(data[3 * j], data[3 * j + 1], data[3 * j + 2])
  {
    SymbolsGroup(data, j);
    RenderSlice(Symbols(data), 4 * j, 4 * j + 4);
  }

  /** Offset at which the remainder starts: `len - len % 3`. */
  function FullLen(n: nat): (r: nat)
    ensures r <= n && n - r < 3
    ensures r % 3 == 0
  {
    n - n % 3
  }

  /** The output is the encoding of the full groups followed by the
      padded remainder, as the loop and the `switch` write them. */
  lemma EncodeSplit(data: seq<byte>)
    ensures Encode(data) == Encode(data[..FullLen(|data|)]) + EncodeTail(data[FullLen(|data|)..])
  {
    var full := FullLen(|data|);
    var groups, rest := data[..full], data[full..];
    assert groups + rest == data;
    EncodeConcat(groups, rest);
  }

  /** Remainder: a final single byte yields two table characters and
      `==`; a final pair yields three table characters and `=`. */
  lemma EncodeRemainder(data: seq<byte>)
    requires |data| % 3 != 0
    ensures var s := Encode(data); var n := |data|;
      && |s| >= 4
      && (n % 3 == 1 ==> s[|s| - 4..] == Quantum(data[n - 1], 0, 0)[..2] + "==")
      && (n % 3 == 2 ==> s[|s| - 4..] == Quantum(data[n - 2], data[n - 1], 0)[..3] + "=")
  {
    var full := FullLen(|data|);
    var g := Encode(data[..full]);
    var rest := data[full..];
    var t := EncodeTail(rest);
    EncodeSplit(data);
    assert |t| == 4;
    assert Encode(data)[|Encode(data)| - 4..] == (g + t)[|g + t| - 4..] == t;
    EncodeTailChars(rest);
  }

  // ---------------------------------------------------------------------
  // The C loop

  /** Concatenation regroups freely. */
  lemma AppendAssoc(x: string, y: string, z: string)
    ensures (x + y) + z == x + (y + z)
  {
  }

  /** The encoder as the C function runs it: the `while` loop over the
      full groups, then the `switch` on the remainder. */
  method EncodeLoop(data: seq<byte>) returns (s: string)
    ensures s == Encode(data)
  {
    var rest := |data| % 3;
    var i := 0;
    s := [];
    ghost var groups := |data| / 3;
    ghost var k := 0;
    assert |data| - rest == 3 * groups;
    while i < |data| - rest
      invariant i == 3 * k && k <= groups
      invariant s + Encode(data[i..]) == Encode(data)
    {
      var q := Quantum(data[i], data[i + 1], data[i + 2]);
      EncodeStep(data, i);
      AppendAssoc(s, q, Encode(data[i + 3..]));
      s := s + q;
      i := i + 3;
      k := k + 1;
    }
    assert Encode(data[i..]) == EncodeTail(data[i..]);
    s := s + EncodeTail(data[i..]);
  }

  // ---------------------------------------------------------------------
  // A decoder, used as the independent inverse of the encoder.

  /** The 24-bit value of four sextets, most significant first. */
  function Join(v3: Sextet, v2: Sextet, v1: Sextet, v0: Sextet): bv32
  {
    ((v3 as bv32) << 18) | ((v2 as bv32) << 12) | ((v1 as bv32) << 6) | (v0 as bv32)
  }

  /** The three bytes of a 24-bit value, most significant first. */
  function Split(t: bv32): seq<byte>
  {
    [((t >> 16) & 0xFF) as byte, ((t >> 8) & 0xFF) as byte, (t & 0xFF) as byte]
  }

  /** Decodes one quantum; one or two `=` mark a group of two bytes or
      of one byte. */
  function DecodeQuantum(q: string): Option<seq<byte>>
    requires |q| == 4
  {
    var v3, v2, v1, v0 := DigitValue(q[0]), DigitValue(q[1]), DigitValue(q[2]), DigitValue(q[3]);
    if v3.None? || v2.None? then None
    else if q[2] == '=' && q[3] == '=' then
      Some(Split(Join(v3.value, v2.value, 0, 0))[..1])
    else if v1.None? then None
    else if q[3] == '=' then
      Some(Split(Join(v3.value, v2.value, v1.value, 0))[..2])
    else if v0.None? then None
    else
      Some(Split(Join(v3.value, v2.value, v1.value, v0.value)))
  }

  /** Decodes a sequence of quanta, four characters at a time. */
  function Decode(s: string): Option<seq<byte>>
    decreases |s|
  {
    if |s| == 0 then Some([])
    else if |s| < 4 then None
    else
      var head := DecodeQuantum(s[..4]);
      var tail := Decode(s[4..]);
      if head.None? || tail.None? then None
      else Some(head.value + tail.value)
  }

  /** Joining the fields of a triple gives back its bytes. */
  lemma SplitJoin3(a: byte, b: byte, c: byte)
    ensures var t := Triple(a, b, c);
      Split(Join(Field(t, 3), Field(t, 2), Field(t, 1), Field(t, 0))) == [a, b, c]
  {
  }

  /** With a zero last byte, the first three fields hold the first two
      bytes. */
  lemma SplitJoin2(a: byte, b: byte)
    ensures var t := Triple(a, b, 0);
      Split(Join(Field(t, 3), Field(t, 2), Field(t, 1), 0))[..2] == [a, b]
  {
  }

  /** With two zero bytes, the first two fields hold the first byte. */
  lemma SplitJoin1(a: byte)
    ensures var t := Triple(a, 0, 0);
      Split(Join(Field(t, 3), Field(t, 2), 0, 0))[..1] == [a]
  {
  }

  /** The decoded values of the characters of a quantum are its fields. */
  lemma QuantumValues(a: byte, b: byte, c: byte)
    ensures var q, t := Quantum(a, b, c), Triple(a, b, c);
      && DigitValue(q[0]) == Some(Field(t, 3))
      && DigitValue(q[1]) == Some(Field(t, 2))
      && DigitValue(q[2]) == Some(Field(t, 1))
      && DigitValue(q[3]) == Some(Field(t, 0))
  {
    var t := Triple(a, b, c);
    DigitInverse(Field(t, 3));
    DigitInverse(Field(t, 2));
    DigitInverse(Field(t, 1));
    DigitInverse(Field(t, 0));
  }

  /** A full quantum decodes back to its group. */
  lemma QuantumRoundTrip3(a: byte, b: byte, c: byte)
    ensures DecodeQuantum(Quantum(a, b, c)) == Some([a, b, c])
  {
    QuantumValues(a, b, c);
    SplitJoin3(a, b, c);
  }

  /** A quantum of two bytes and one `=` decodes back to the two bytes. */
  lemma QuantumRoundTrip2(a: byte, b: byte)
    ensures DecodeQuantum(Quantum(a, b, 0)[..3] + "=") == Some([a, b])
  {
    var q := Quantum(a, b, 0)[..3] + "=";
    QuantumValues(a, b, 0);
    SplitJoin2(a, b);
    assert q[3] == '=' && q[2] != '=' && q[..3] == Quantum(a, b, 0)[..3];
  }

  /** A quantum of one byte and `==` decodes back to the byte. */
  lemma QuantumRoundTrip1(a: byte)
    ensures DecodeQuantum(Quantum(a, 0, 0)[..2] + "==") == Some([a])
  {
    var q := Quantum(a, 0, 0)[..2] + "==";
    QuantumValues(a, 0, 0);
    SplitJoin1(a);
    assert q[2] == '=' && q[3] == '=' && q[..2] == Quantum(a, 0, 0)[..2];
  }

  /** A single quantum decodes as `DecodeQuantum` says. */
  lemma DecodeOne(q: string)
    requires |q| == 4
    ensures Decode(q) == DecodeQuantum(q)
  {
    assert q[..4] == q && q[4..] == [];
    if DecodeQuantum(q).Some? {
      assert DecodeQuantum(q).value + [] == DecodeQuantum(q).value;
    }
  }

  /** Decoding the padded remainder gives back the remaining bytes. */
  lemma DecodeTail(rest: seq<byte>)
    requires |rest| < 3
    ensures Decode(EncodeTail(rest)) == Some(rest)
  {
    EncodeTailChars(rest);
    if |rest| == 1 {
      QuantumRoundTrip1(rest[0]);
      DecodeOne(EncodeTail(rest));
      assert rest == [rest[0]];
    } else if |rest| == 2 {
      QuantumRoundTrip2(rest[0], rest[1]);
      DecodeOne(EncodeTail(rest));
      assert rest == [rest[0], rest[1]];
    }
  }

  /** A quantum followed by more quanta decodes to the concatenation. */
  lemma DecodeCons(q: string, more: string, x: seq<byte>, y: seq<byte>)
    requires |q| == 4
    requires DecodeQuantum(q) == Some(x) && Decode(more) == Some(y)
    ensures Decode(q + more) == Some(x + y)
  {
    assert (q + more)[..4] == q;
    assert (q + more)[4..] == more;
  }

  /** A sequence of at least three elements is its first three followed
      by the rest. */
  lemma Uncons3(data: seq<byte>)
    requires |data| >= 3
    ensures [data[0], data[1], data[2]] + data[3..] == data
  {
  }

  /** Round trip: decoding an encoding gives back the input, so the
      encoder loses no information. */
  lemma {:induction false} EncodeDecode(data: seq<byte>)
    ensures Decode(Encode(data)) == Some(data)
    decreases |data|
  {
    if |data| < 3 {
      DecodeTail(data);
    } else {
      EncodeFirst(data);
      QuantumRoundTrip3(data[0], data[1], data[2]);
      EncodeDecode(data[3..]);
      DecodeCons(Quantum(data[0], data[1], data[2]), Encode(data[3..]), [data[0], data[1], data[2]], data[3..]);
      Uncons3(data);
    }
  }
}
