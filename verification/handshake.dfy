/** The opening handshake of `websock.h`: the parser of the client's
    HTTP Upgrade request (section 4.2.1 of RFC 6455) and the renderer of
    the server's `101 Switching Protocols` reply (section 4.2.2).

    The C parser returns 0 ("need more data") or the number of bytes of the
    request head, and points into the received bytes for the path and the
    key; here those views are offsets and lengths. Every search is the
    first-occurrence search of `memmem` / `memchr`. */
module Handshake {
  import opened Bytes
  import Base64

  // ---------------------------------------------------------------------
  // Byte constants

  const CR: byte := 0x0D
  const LF: byte := 0x0A
  const Space: byte := 0x20

  /** `"\r\n"`, the end of a header line. */
  const CRLF: seq<byte> := [CR, LF]

  /** `"\r\n\r\n"`, the end of the request head. */
  const Terminator: seq<byte> := [CR, LF, CR, LF]

  /** `"GET "`, the only accepted request method. */
  const GetMethod: seq<byte> := [0x47, 0x45, 0x54, Space]

  /** `" "`, the pattern of the `memchr` that ends the path. */
  const SpacePattern: seq<byte> := [Space]

  /** `"Sec-WebSocket-Key: "`, matched case-sensitively and with exactly
      one space. */
  const KeyHeader: seq<byte> :=
    [0x53, 0x65, 0x63, 0x2D, 0x57, 0x65, 0x62, 0x53, 0x6F, 0x63, 0x6B, 0x65, 0x74, 0x2D, 0x4B, 0x65,
     0x79, 0x3A, Space]

  // ---------------------------------------------------------------------
  // Searching

  /** `pat` occurs in `s` at offset `i`. */
  predicate Occurs(s: seq<byte>, pat: seq<byte>, i: nat)
  {
    i + |pat| <= |s| && forall k :: 0 <= k < |pat| ==> s[i + k] == pat[k]
  }

  /** `i` is the first offset at or after `from` where `pat` occurs. */
  predicate First(s: seq<byte>, pat: seq<byte>, from: nat, i: nat)
  {
    && from <= i
    && Occurs(s, pat, i)
    && forall j :: from <= j < i ==> !Occurs(s, pat, j)
  }

  /** `pat` does not occur in `s` at or after `from`. */
  ghost predicate Absent(s: seq<byte>, pat: seq<byte>, from: nat)
  {
    forall j :: from <= j ==> !Occurs(s, pat, j)
  }

  /** `memmem(s + from, |s| - from, pat, |pat|)` (and `memchr` for a
      one-byte pattern): the first occurrence at or after `from`, or
      `None` when there is none (`FindSpec`). */
  function Find(s: seq<byte>, pat: seq<byte>, from: nat): (r: Option<nat>)
    ensures r.Some? ==> from <= r.value && Occurs(s, pat, r.value)
    decreases |s| + 1 - from
  {
    if |s| < from + |pat| then None
    else if Occurs(s, pat, from) then Some(from)
    else Find(s, pat, from + 1)
  }

  /** The search returns the first occurrence, and fails only when there
      is none. */
  lemma {:induction false} FindSpec(s: seq<byte>, pat: seq<byte>, from: nat)
    ensures Find(s, pat, from).Some? ==> First(s, pat, from, Find(s, pat, from).value)
    ensures Find(s, pat, from).None? ==> Absent(s, pat, from)
    decreases |s| + 1 - from
  {
    if |s| >= from + |pat| && !Occurs(s, pat, from) {
      FindSpec(s, pat, from + 1);
    }
  }

  /** There is only one first occurrence. */
  lemma FirstUnique(s: seq<byte>, pat: seq<byte>, from: nat, i: nat, j: nat)
    requires First(s, pat, from, i) && First(s, pat, from, j)
    ensures i == j
  {
  }

  /** The search finds the first occurrence whenever there is one. */
  lemma FindFirst(s: seq<byte>, pat: seq<byte>, from: nat, i: nat)
    requires First(s, pat, from, i)
    ensures Find(s, pat, from) == Some(i)
  {
    FindSpec(s, pat, from);
    FirstUnique(s, pat, from, Find(s, pat, from).value, i);
  }

  /** An occurrence within the first `n` bytes is an occurrence within
      `s[..n]`. */
  lemma OccursPrefix(s: seq<byte>, pat: seq<byte>, n: nat, i: nat)
    requires n <= |s| && i + |pat| <= n
    ensures Occurs(s[..n], pat, i) <==> Occurs(s, pat, i)
  {
  }

  // ---------------------------------------------------------------------
  // The request parser

  /** `websock_handshake` and the parser's result: the size of the request
      head, and the path and the key as offset-length views. */
  datatype Request = Request(consumed: nat, pathOff: nat, pathLen: nat, keyOff: nat, keyLen: nat)

  /** A head: at least the terminator, and ending with it. */
  predicate IsHeadBytes(head: seq<byte>)
  {
    |head| >= 4 && Occurs(head, Terminator, |head| - 4)
  }

  /** `websocket_parse_handshake`: find the end of the head, then read
      the head. */
  function Parse(data: seq<byte>): (r: Option<Request>)
    ensures r.Some? ==> 4 <= r.value.consumed <= |data|
  {
    match Find(data, Terminator, 0)
    case None => None
    case Some(t) => ParseHead(data[..t + |Terminator|])
  }

  /** The rest of the parser, on a head that ends with the terminator:
      demand `GET `, take the path up to the first space, then read the
      key. Every search stops at the end of the head. */
  function ParseHead(head: seq<byte>): (r: Option<Request>)
    requires |head| >= 4
    ensures r.Some? ==> r.value.consumed == |head|
  {
    if head[..|GetMethod|] != GetMethod then None
    else
      match Find(head, SpacePattern, |GetMethod|)
      case None => None
      case Some(sp) => ParseKey(head, sp)
  }

  /** The key part of the head reader, once the path ends at `sp`: the
      first key header after the path, and the key up to the next line
      break. */
  function ParseKey(head: seq<byte>, sp: nat): (r: Option<Request>)
    requires sp >= |GetMethod|
    ensures r.Some? ==> r.value.consumed == |head|
  {
    match Find(head, KeyHeader, sp + 1)
    case None => None
    case Some(h) =>
      var keyOff := h + |KeyHeader|;
      // The C code does not test this search: `ParseKeyDefined` shows it
      // always succeeds.
      match Find(head, CRLF, keyOff)
      case None => None
      case Some(keyEnd) =>
        Some(Request(|head|, |GetMethod|, sp - |GetMethod|, keyOff, keyEnd - keyOff))
  }

  /** The key fields of `q`: the key header is the first after the
      path's space at `sp`, and the key runs to the first line break after
      it. */
  predicate KeyFields(head: seq<byte>, sp: nat, q: Request)
  {
    && q.consumed == |head|
    && q.pathOff == 4
    && q.keyOff >= |KeyHeader|
    && First(head, KeyHeader, sp + 1, q.keyOff - |KeyHeader|)
    && First(head, CRLF, q.keyOff, q.keyOff + q.keyLen)
  }

  /** The fields of a request head, stated without the searches: the
      head starts with `GET `, the path runs to the first space, and the
      key is as `KeyFields` says. */
  predicate IsHead(head: seq<byte>, q: Request)
  {
    && |head| >= 4
    && head[..4] == GetMethod
    && First(head, SpacePattern, 4, 4 + q.pathLen)
    && KeyFields(head, 4 + q.pathLen, q)
  }

  /** A well-formed request: the head ends at the first terminator and
      its fields are as `IsHead` says. */
  predicate IsRequest(data: seq<byte>, q: Request)
  {
    && 4 <= q.consumed <= |data|
    && First(data, Terminator, 0, q.consumed - 4)
    && IsHead(data[..q.consumed], q)
  }

  /** The key header inside a head that ends with the terminator leaves
      room for that terminator after it: its final space cannot be one of
      the terminator's bytes. */
  lemma KeyBeforeTerminator(head: seq<byte>, h: nat)
    requires IsHeadBytes(head) && Occurs(head, KeyHeader, h)
    ensures h + |KeyHeader| <= |head| - 4
  {
    var last := h + |KeyHeader| - 1;
    assert KeyHeader[|KeyHeader| - 1] == Space;
    forall p | |head| - 4 <= p < |head|
      ensures head[p] != Space
    {
      assert head[|head| - 4 + (p - (|head| - 4))] == Terminator[p - (|head| - 4)];
    }
  }

  /** The key always ends at a line break before the terminator: the
      terminator itself starts with one. */
  lemma KeyHasEnd(head: seq<byte>, h: nat)
    requires IsHeadBytes(head) && Occurs(head, KeyHeader, h)
    ensures Find(head, CRLF, h + |KeyHeader|).Some?
    ensures Find(head, CRLF, h + |KeyHeader|).value <= |head| - 4
  {
    KeyBeforeTerminator(head, h);
    var t := |head| - 4;
    assert Terminator[0] == CR && Terminator[1] == LF;
    assert Occurs(head, CRLF, t);
    FindSpec(head, CRLF, h + |KeyHeader|);
  }

  /** The key reader returns a request whenever the key header is there:
      the unchecked search never fails. */
  lemma ParseKeyDefined(head: seq<byte>, sp: nat)
    requires IsHeadBytes(head) && sp >= |GetMethod|
    ensures ParseKey(head, sp).Some? <==> Find(head, KeyHeader, sp + 1).Some?
  {
    var h := Find(head, KeyHeader, sp + 1);
    if h.Some? {
      KeyHasEnd(head, h.value);
    }
  }

  /** What the key reader returns has the key fields. */
  lemma ParseKeySound(head: seq<byte>, sp: nat)
    requires sp >= |GetMethod|
    ensures var r := ParseKey(head, sp);
      r.Some? ==> r.value.pathLen == sp - |GetMethod| && KeyFields(head, sp, r.value)
  {
    var h := Find(head, KeyHeader, sp + 1);
    if h.Some? {
      FindSpec(head, KeyHeader, sp + 1);
      FindSpec(head, CRLF, h.value + |KeyHeader|);
    }
  }

  /** What the head reader returns has the head fields. */
  lemma ParseHeadSound(head: seq<byte>)
    requires IsHeadBytes(head)
    ensures ParseHead(head).Some? ==> IsHead(head, ParseHead(head).value)
  {
    var sp := Find(head, SpacePattern, |GetMethod|);
    FindSpec(head, SpacePattern, |GetMethod|);
    if sp.Some? {
      ParseKeySound(head, sp.value);
    }
  }

  /** Soundness: what the parser returns is a well-formed request. */
  lemma ParseSound(data: seq<byte>)
    ensures Parse(data).Some? ==> IsRequest(data, Parse(data).value)
  {
    var t := Find(data, Terminator, 0);
    FindSpec(data, Terminator, 0);
    if t.Some? {
      OccursPrefix(data, Terminator, t.value + 4, t.value);
      ParseHeadSound(data[..t.value + 4]);
    }
  }

  /** Every well-formed key part is what the key reader returns. */
  lemma ParseKeyComplete(head: seq<byte>, sp: nat, q: Request)
    requires sp >= |GetMethod|
    requires KeyFields(head, sp, q) && q.pathLen == sp - |GetMethod|
    ensures ParseKey(head, sp) == Some(q)
  {
    FindFirst(head, KeyHeader, sp + 1, q.keyOff - |KeyHeader|);
    FindFirst(head, CRLF, q.keyOff, q.keyOff + q.keyLen);
  }

  /** Every well-formed head is what the head reader returns. */
  lemma ParseHeadComplete(head: seq<byte>, q: Request)
    requires IsHead(head, q)
    ensures ParseHead(head) == Some(q)
  {
    FindFirst(head, SpacePattern, 4, 4 + q.pathLen);
    ParseKeyComplete(head, 4 + q.pathLen, q);
  }

  /** Completeness: every well-formed request is the parser's result.
      With `ParseSound`, `Parse(data) == Some(q)` exactly when
      `IsRequest(data, q)`, so the head, the path and the key are
      determined by the bytes. */
  lemma ParseComplete(data: seq<byte>, q: Request)
    requires IsRequest(data, q)
    ensures Parse(data) == Some(q)
  {
    FindFirst(data, Terminator, 0, q.consumed - 4);
    ParseHeadComplete(data[..q.consumed], q);
  }

  /** The path ends before the key header. The key holds no line break
      and is followed by one, and it lies within the head, before the
      terminator. */
  lemma KeyWithinHead(data: seq<byte>)
    requires Parse(data).Some?
    ensures var q := Parse(data).value;
      && q.pathOff == 4 && q.pathOff + q.pathLen < q.keyOff
      && q.keyOff + q.keyLen + 4 <= q.consumed
      && Occurs(data, CRLF, q.keyOff + q.keyLen)
      && forall j :: q.keyOff <= j < q.keyOff + q.keyLen ==> !Occurs(data, CRLF, j)
  {
    ParseSound(data);
    KeyWithinRequest(data, Parse(data).value);
  }

  /** `KeyWithinHead`, for a well-formed request. */
  lemma KeyWithinRequest(data: seq<byte>, q: Request)
    requires IsRequest(data, q)
    ensures q.pathOff == 4 && q.pathOff + q.pathLen < q.keyOff
    ensures q.keyOff + q.keyLen + 4 <= q.consumed
    ensures Occurs(data, CRLF, q.keyOff + q.keyLen)
    ensures forall j :: q.keyOff <= j < q.keyOff + q.keyLen ==> !Occurs(data, CRLF, j)
  {
    OccursPrefix(data, Terminator, q.consumed, q.consumed - 4);
    KeyBeforeEnd(data[..q.consumed], 4 + q.pathLen, q);
    OccursPrefix(data, CRLF, q.consumed, q.keyOff + q.keyLen);
    forall j | q.keyOff <= j < q.keyOff + q.keyLen
      ensures !Occurs(data, CRLF, j)
    {
      OccursPrefix(data, CRLF, q.consumed, j);
    }
  }

  /** Within the head, the key and its line break end before the
      terminator. */
  lemma KeyBeforeEnd(head: seq<byte>, sp: nat, q: Request)
    requires IsHeadBytes(head) && KeyFields(head, sp, q)
    ensures q.keyOff + q.keyLen + 4 <= |head|
  {
    KeyHasEnd(head, q.keyOff - |KeyHeader|);
    FindFirst(head, CRLF, q.keyOff, q.keyOff + q.keyLen);
  }

  /** "Need more data": no terminator yet; or a complete head that does
      not start with `GET `; or no space after the path start; or no key
      header after the path. */
  lemma ParseNeedsMore(data: seq<byte>, t: nat, sp: nat)
    ensures Absent(data, Terminator, 0) ==> Parse(data) == None
    ensures First(data, Terminator, 0, t) && data[..4] != GetMethod ==> Parse(data) == None
    ensures First(data, Terminator, 0, t) && Absent(data[..t + 4], SpacePattern, 4) ==> Parse(data) == None
    ensures (First(data, Terminator, 0, t) && First(data[..t + 4], SpacePattern, 4, sp)
      && Absent(data[..t + 4], KeyHeader, sp + 1)) ==> Parse(data) == None
  {
    if First(data, Terminator, 0, t) {
      FindFirst(data, Terminator, 0, t);
      assert data[..t + 4][..4] == data[..4];
      ParseHeadNeedsMore(data[..t + 4], sp);
    }
  }

  /** The head reader's "need more data" cases. */
  lemma ParseHeadNeedsMore(head: seq<byte>, sp: nat)
    requires |head| >= 4
    ensures head[..4] != GetMethod ==> ParseHead(head) == None
    ensures Absent(head, SpacePattern, 4) ==> ParseHead(head) == None
    ensures First(head, SpacePattern, 4, sp) && Absent(head, KeyHeader, sp + 1) ==> ParseHead(head) == None
  {
    if First(head, SpacePattern, 4, sp) {
      FindFirst(head, SpacePattern, 4, sp);
    }
  }

  /** A well-formed head stays well-formed when more bytes follow it. */
  lemma IsRequestExtend(data: seq<byte>, more: seq<byte>, q: Request)
    requires IsRequest(data, q)
    ensures IsRequest(data + more, q)
  {
    var d := data + more;
    assert d[..q.consumed] == data[..q.consumed];
    forall j | 0 <= j <= q.consumed - 4
      ensures Occurs(d, Terminator, j) <==> Occurs(data, Terminator, j)
    {
    }
  }

  /** Incremental feed: bytes after a complete head (the first frames, say)
      do not change the parse. */
  lemma ParseExtend(data: seq<byte>, more: seq<byte>)
    requires Parse(data).Some?
    ensures Parse(data + more) == Parse(data)
  {
    ParseSound(data);
    IsRequestExtend(data, more, Parse(data).value);
    ParseComplete(data + more, Parse(data).value);
  }

  /** Every strict prefix of a complete head is "need more data": the
      terminator is not yet there. */
  lemma ParsePrefix(data: seq<byte>, k: nat)
    requires Parse(data).Some? && k < Parse(data).value.consumed
    ensures Parse(data[..k]) == None
  {
    ParseSound(data);
    forall j: nat
      ensures !Occurs(data[..k], Terminator, j)
    {
      if j + 4 <= k {
        OccursPrefix(data, Terminator, k, j);
      }
    }
    ParseNeedsMore(data[..k], 0, 0);
  }

  // ---------------------------------------------------------------------
  // The reply

  /** A SHA-1 digest. */
  type Digest = d: seq<byte> | |d| == 20 witness seq(20, _ => 0)

  /** `"258EAFA5-E914-47DA-95CA-C5AB0DC85B11"`, the GUID of section 1.3
      of RFC 6455, appended to the key before hashing. */
  const Guid: seq<byte> :=
    [0x32, 0x35, 0x38, 0x45, 0x41, 0x46, 0x41, 0x35, 0x2D, 0x45, 0x39, 0x31, 0x34, 0x2D, 0x34, 0x37,
     0x44, 0x41, 0x2D, 0x39, 0x35, 0x43, 0x41, 0x2D, 0x43, 0x35, 0x41, 0x42, 0x30, 0x44, 0x43, 0x38,
     0x35, 0x42, 0x31, 0x31]

  /** The status line and headers of the reply, up to the accept key. */
  const ReplyPrefix: seq<byte> := StatusLine + UpgradeLine + ConnectionLine + AcceptHeader

  /** `"HTTP/1.1 101 Switching Protocols\r\n"` */
  const StatusLine: seq<byte> :=
    [0x48, 0x54, 0x54, 0x50, 0x2F, 0x31, 0x2E, 0x31, 0x20, 0x31, 0x30, 0x31, 0x20, 0x53, 0x77, 0x69,
     0x74, 0x63, 0x68, 0x69, 0x6E, 0x67, 0x20, 0x50, 0x72, 0x6F, 0x74, 0x6F, 0x63, 0x6F, 0x6C, 0x73,
     CR, LF]

  /** `"Upgrade: websocket\r\n"` */
  const UpgradeLine: seq<byte> :=
    [0x55, 0x70, 0x67, 0x72, 0x61, 0x64, 0x65, 0x3A, 0x20, 0x77, 0x65, 0x62, 0x73, 0x6F, 0x63, 0x6B,
     0x65, 0x74, CR, LF]

  /** `"Connection: Upgrade\r\n"` */
  const ConnectionLine: seq<byte> :=
    [0x43, 0x6F, 0x6E, 0x6E, 0x65, 0x63, 0x74, 0x69, 0x6F, 0x6E, 0x3A, 0x20, 0x55, 0x70, 0x67, 0x72,
     0x61, 0x64, 0x65, CR, LF]

  /** `"Sec-WebSocket-Accept: "` */
  const AcceptHeader: seq<byte> :=
    [0x53, 0x65, 0x63, 0x2D, 0x57, 0x65, 0x62, 0x53, 0x6F, 0x63, 0x6B, 0x65, 0x74, 0x2D, 0x41, 0x63,
     0x63, 0x65, 0x70, 0x74, 0x3A, 0x20]

  /** `websock_accept_key`: the Base64 encoding of the SHA-1 digest of the
      key followed by the GUID. SHA-1 is a parameter of the model. */
  function AcceptKey(sha1: seq<byte> -> Digest, key: seq<byte>): (r: string)
    ensures |r| == 28 && r[27] == '='
    ensures forall k :: 0 <= k < 27 ==> Base64.IsDigit(r[k])
    ensures Base64.Decode(r) == Some(sha1(key + Guid))
  {
    var digest := sha1(key + Guid);
    Base64.AcceptKeyShape(digest);
    assert Base64.PadLen(20) == 1;
    Base64.EncodeDecode(digest);
    Base64.Encode(digest)
  }

  /** Alphabet characters and `=` are single bytes. */
  lemma AcceptKeyBytes(s: string)
    requires |s| == 28 && s[27] == '='
    requires forall k :: 0 <= k < 27 ==> Base64.IsDigit(s[k])
    ensures IsByteString(s)
  {
  }

  /** `websock_accept_handshake`: the reply prefix, the accept key and
      the blank line that ends the reply head. */
  function AcceptResponse(sha1: seq<byte> -> Digest, key: seq<byte>): (r: seq<byte>)
    ensures |r| == |ReplyPrefix| + 28 + 4
    ensures r[..|ReplyPrefix|] == ReplyPrefix
    ensures Text(r[|ReplyPrefix|..|ReplyPrefix| + 28]) == AcceptKey(sha1, key)
    ensures r[|r| - 4..] == Terminator
  {
    var accept := AcceptKey(sha1, key);
    AcceptKeyBytes(accept);
    var r := ReplyPrefix + Ascii(accept) + Terminator;
    assert r[|ReplyPrefix|..|ReplyPrefix| + 28] == Ascii(accept);
    TextAscii(accept);
    r
  }

  /** The client can check the reply: the 28 bytes after the prefix are
      the Base64 text of the SHA-1 digest of its key followed by the GUID
      (section 4.2.2 of RFC 6455). */
  lemma AcceptResponseChecks(sha1: seq<byte> -> Digest, key: seq<byte>)
    ensures var r := AcceptResponse(sha1, key);
      Base64.Decode(Text(r[|ReplyPrefix|..|ReplyPrefix| + 28])) == Some(sha1(key + Guid))
  {
  }

  /** The request constants spell the text the C code searches for. */
  lemma RequestConstantsSpell()
    ensures Text(GetMethod) == "GET "
    ensures Text(Terminator) == "\r\n\r\n"
  {
  }

  /** ... the key header included. */
  lemma KeyHeaderSpells()
    ensures Text(KeyHeader) == "Sec-WebSocket-Key: "
  {
  }
}
