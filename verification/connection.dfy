/** The C++ `websock::Connection` of `websock.hpp`: an input and an output
    staging buffer, three flags and a set of callbacks, driven by
    `process()` (read, complete the handshake, dispatch every complete
    frame), `flush()` (hand pending output to the transport) and `send()`
    (append one frame to the output).

    The callbacks become data. What `read` and `write` return is a
    parameter of the step that calls them; what `onConnect`, `onMessage`,
    `onClose` and `onError` receive is returned as a trace of events, in
    call order. Every event is recorded as if its callback were set; the
    code skips the call of an unset callback and nothing else, so the
    trace is what a fully equipped connection would see. SHA-1 is a
    parameter, as in the handshake module. */
module WebSocket {
  import opened Bytes
  import opened StagingBuffer
  import Frame
  import Handshake

  /** `websock::Error` */
  datatype Error =
    | UnexpectedDisconnect
    | ReadFailed
    | WriteFailed
    | HandshakeFailed
    | UnmaskedMessage
    | TooLongMessage

  /** One callback invocation. `OnConnect` carries the path and the key
      the `websock_handshake` views point at; `OnMessage` and `OnClose`
      carry the decoded message and its unmasked payload. */
  datatype Event =
    | OnConnect(path: seq<byte>, key: seq<byte>)
    | OnMessage(msg: Frame.Message, payload: seq<byte>)
    | OnClose(msg: Frame.Message, payload: seq<byte>)
    | OnError(code: Error)

  /** The state of a `Connection`; the callbacks are not part of it. */
  datatype Connection = Connection(
    input: Buffer,
    output: Buffer,
    connected: bool,
    established: bool,
    allowUnmasked: bool)
  {
    predicate Valid() {
      input.Valid() && output.Valid()
    }
  }

  /** What the `read` callback did: its return value (a byte count, 0 on
      disconnect, negative on error, as POSIX `recv`) and, for a positive
      count, the bytes it stored at `in.end()`. */
  datatype ReadResult = ReadResult(count: int, bytes: seq<byte>)

  /** The `read` contract: a positive count is the number of bytes stored,
      and no more than the space it was offered. */
  predicate ReadFits(space: nat, rd: ReadResult)
  {
    space > 0 && rd.count > 0 ==> |rd.bytes| == rd.count <= space
  }

  /** The default `maxMsgLen` of the constructor. */
  const DefaultMaxMsgLen: nat := 2048

  /** The size of the handshake reply: the fixed prefix, the 28-character
      accept key and the blank line. */
  const ReplyLen: nat := |Handshake.ReplyPrefix| + 28 + |Handshake.Terminator|

  /** The largest frame header `websocket_write_message` produces: the
      opcode byte, the length byte and an 8-byte extended length. */
  const MaxHeaderLen: nat := 10

  // ---------------------------------------------------------------------
  // Event traces

  /** Events after which the connection is over. */
  predicate Terminal(e: Event)
  {
    e.OnError? || e.OnClose?
  }

  /** Nothing follows an `onError` or an `onClose`. */
  predicate TerminalLast(events: seq<Event>)
  {
    forall i :: 0 <= i < |events| - 1 ==> !Terminal(events[i])
  }

  /** The trace ends with an `onError` or an `onClose`. */
  predicate EndsTerminal(events: seq<Event>)
  {
    |events| > 0 && Terminal(events[|events| - 1])
  }

  /** No `onConnect` in the trace. */
  predicate NoConnect(events: seq<Event>)
  {
    forall i :: 0 <= i < |events| ==> !events[i].OnConnect?
  }

  /** Every delivered message was masked, unless unmasked ones are
      allowed. */
  predicate MaskPolicy(events: seq<Event>, allowUnmasked: bool)
  {
    forall i :: 0 <= i < |events| && (events[i].OnMessage? || events[i].OnClose?) ==>
      allowUnmasked || events[i].msg.masked
  }

  /** The trace properties that survive putting a non-terminal event in
      front. */
  lemma Prepend(e: Event, events: seq<Event>, allowUnmasked: bool)
    requires !Terminal(e) && !e.OnConnect?
    requires e.OnMessage? ==> allowUnmasked || e.msg.masked
    requires TerminalLast(events) && NoConnect(events) && MaskPolicy(events, allowUnmasked)
    ensures TerminalLast([e] + events) && NoConnect([e] + events)
    ensures MaskPolicy([e] + events, allowUnmasked)
    ensures EndsTerminal([e] + events) <==> EndsTerminal(events)
  {
    var t := [e] + events;
    forall i | 1 <= i < |t|
      ensures t[i] == events[i - 1]
    {
    }
  }

  // ---------------------------------------------------------------------
  // Construction and errors

  /** `Connection(maxMsgLen)`: both buffers get `maxMsgLen` bytes; the
      connection is open, not yet established, and refuses unmasked
      frames. */
  function NewConnection(maxMsgLen: nat): (c: Connection)
    ensures c.Valid()
    ensures c.connected && !c.established && !c.allowUnmasked
    ensures c.input.Capacity() == maxMsgLen && c.output.Capacity() == maxMsgLen
    ensures c.input.PendingLen() == 0 && c.output.PendingLen() == 0
  {
    Connection(Create(maxMsgLen), Create(maxMsgLen), true, false, false)
  }

  /** `error(code)`: one `onError`, then the connection is closed; nothing
      else changes. */
  function Fail(c: Connection, code: Error): (r: (Connection, seq<Event>))
    ensures !r.0.connected && r.1 == [OnError(code)]
    ensures r.0.input == c.input && r.0.output == c.output
    ensures r.0.established == c.established && r.0.allowUnmasked == c.allowUnmasked
  {
    (c.(connected := false), [OnError(code)])
  }

  // ---------------------------------------------------------------------
  // send

  /** `send(data, len, opcode)` with the reservation the frame needs: the
      frame `websocket_write_message(data, opcode | FIN)` is appended to the
      output. Only the output changes. */
  function Send(c: Connection, data: seq<byte>, opcode: byte): (r: Connection)
    requires c.Valid() && |data| < SizeRange
    ensures r.Valid()
    ensures r.output.Pending() == c.output.Pending() + Frame.WriteMessage(data, opcode | Frame.FinalMask)
    ensures r.input == c.input
    ensures r.connected == c.connected && r.established == c.established
    ensures r.allowUnmasked == c.allowUnmasked
  {
    var frame := Frame.WriteMessage(data, opcode | Frame.FinalMask);
    Frame.WriteMessageSize(data, opcode | Frame.FinalMask);
    var out := Reserve(c.output, |data| + MaxHeaderLen);
    c.(output := Write(out, Some(frame), |frame|))
  }

  /** What `send` appends is read back by the peer's decoder as one final,
      unmasked frame with the same opcode and payload. */
  lemma SendDecodes(c: Connection, data: seq<byte>, opcode: byte)
    requires c.Valid() && |data| < SizeRange && opcode <= Frame.OpcodeMask
    ensures var d := Frame.Decode(Send(c, data, opcode).output.Pending()[c.output.PendingLen()..]);
      && d.Frame? && d.payload == data
      && d.msg.opcode == opcode && d.msg.final && !d.msg.masked
      && d.consumed == Send(c, data, opcode).output.PendingLen() - c.output.PendingLen()
  {
    var frame := Frame.WriteMessage(data, opcode | Frame.FinalMask);
    assert Send(c, data, opcode).output.Pending()[c.output.PendingLen()..] == frame + [];
    Frame.WriteDecode(data, opcode, []);
  }

  /** `send` as written: `out.reserve(len)` makes room for the payload
      only, and the header is written past it. `None` stands for a frame
      that runs beyond the allocation, where `buffer_set_end`'s assertion
      fails after the out-of-bounds write. */
  function SendAsWritten(c: Connection, data: seq<byte>, opcode: byte): (r: Option<Connection>)
    requires c.Valid() && |data| < SizeRange
    ensures r.Some? ==> r.value.Valid()
    ensures r.Some? ==> r.value.output.Pending() == Send(c, data, opcode).output.Pending()
  {
    var frame := Frame.WriteMessage(data, opcode | Frame.FinalMask);
    var out := Reserve(c.output, |data|);
    if out.SpaceLeft() < |frame| then None
    else Some(c.(output := Write(out, Some(frame), |frame|)))
  }

  /** The as-written `send` overflows exactly when the free space, grown to
      at least the payload length, is smaller than the frame; in
      particular whenever the free space is no larger than the payload. */
  lemma SendOverflow(c: Connection, data: seq<byte>, opcode: byte)
    requires c.Valid() && |data| < SizeRange
    ensures var need := |Frame.WriteMessage(data, opcode | Frame.FinalMask)|;
      var room := if c.output.SpaceLeft() < |data| then |data| else c.output.SpaceLeft();
      SendAsWritten(c, data, opcode).None? <==> room < need
    ensures c.output.SpaceLeft() <= |data| ==> SendAsWritten(c, data, opcode).None?
  {
    Frame.WriteMessageSize(data, opcode | Frame.FinalMask);
  }

  /** An instance: a new connection of any size sending a message that
      exactly fills its output (a 2048-byte message on a connection of the
      default size, say). The corrected `send` appends the whole frame. */
  lemma SendOverflowCounterexample(maxMsgLen: nat, data: seq<byte>, opcode: byte)
    requires |data| == maxMsgLen < SizeRange
    ensures var c := NewConnection(maxMsgLen);
      && SendAsWritten(c, data, opcode).None?
      && Send(c, data, opcode).output.Pending() == Frame.WriteMessage(data, opcode | Frame.FinalMask)
  {
    var c := NewConnection(maxMsgLen);
    SendOverflow(c, data, opcode);
  }

  // ---------------------------------------------------------------------
  // process: reading

  /** The read part of `process()`. Without a `read` callback nothing
      happens. Otherwise the input is compacted; a full input is an error
      (`TooLongMessage` once established, `HandshakeFailed` before); then
      a positive count appends the bytes read, 0 is `UnexpectedDisconnect`
      and a negative count `ReadFailed`. */
  function ReadInput(c: Connection, rd: Option<ReadResult>): (r: (Connection, seq<Event>))
    requires c.Valid()
    requires rd.Some? ==> ReadFits(c.input.Capacity() - c.input.PendingLen(), rd.value)
    ensures r.0.Valid()
    ensures r.0.output == c.output && r.0.established == c.established
    ensures r.0.allowUnmasked == c.allowUnmasked
    ensures r.0.input.Capacity() == c.input.Capacity()
    ensures rd.None? ==> r == (c, [])
    ensures rd.Some? && c.input.PendingLen() == c.input.Capacity() ==>
      r.1 == [OnError(if c.established then TooLongMessage else HandshakeFailed)]
    ensures rd.Some? && c.input.PendingLen() < c.input.Capacity() ==>
      && (rd.value.count == 0 ==> r.1 == [OnError(UnexpectedDisconnect)])
      && (rd.value.count < 0 ==> r.1 == [OnError(ReadFailed)])
      && (rd.value.count > 0 ==> r.1 == [] && r.0.input.Pending() == c.input.Pending() + rd.value.bytes)
    ensures r.0.connected <==> c.connected && r.1 == []
  {
    if rd.None? then (c, [])
    else
      var inp := Shrink(c.input);
      var c1 := c.(input := inp);
      if inp.SpaceLeft() == 0 then Fail(c1, if c.established then TooLongMessage else HandshakeFailed)
      else if rd.value.count > 0 then (c1.(input := Write(inp, Some(rd.value.bytes), rd.value.count)), [])
      else Fail(c1, if rd.value.count != 0 then ReadFailed else UnexpectedDisconnect)
  }

  // ---------------------------------------------------------------------
  // process: the handshake

  /** The `onConnect` event and the reply for the request `q` at the start
      of the input: the path and the key are the bytes its views cover. */
  function Greeting(pending: seq<byte>, q: Handshake.Request, sha1: seq<byte> -> Handshake.Digest): (r: (Event, seq<byte>))
    requires q.pathOff + q.pathLen <= |pending| && q.keyOff + q.keyLen <= |pending|
    ensures r.0.OnConnect? && |r.1| == ReplyLen
    ensures r.1 == Handshake.AcceptResponse(sha1, r.0.key)
    ensures r.0.path == pending[q.pathOff..q.pathOff + q.pathLen]
    ensures r.0.key == pending[q.keyOff..q.keyOff + q.keyLen]
  {
    var path := pending[q.pathOff..q.pathOff + q.pathLen];
    var key := pending[q.keyOff..q.keyOff + q.keyLen];
    (OnConnect(path, key), Handshake.AcceptResponse(sha1, key))
  }

  /** What accepting the request at the start of `pending` does to a
      connection whose output held `output`: the request head is consumed,
      `onConnect` receives the path and the key the request carries, and
      the reply for that key is appended to the output. */
  predicate Accepted(pending: seq<byte>, output: seq<byte>, sha1: seq<byte> -> Handshake.Digest, r: (Connection, seq<Event>))
  {
    match Handshake.Parse(pending)
    case None => false
    case Some(q) =>
      && q.pathOff + q.pathLen <= |pending| && q.keyOff + q.keyLen <= |pending|
      && r.0.Valid()
      && r.0.input.Pending() == pending[q.consumed..]
      && r.1 == [OnConnect(pending[q.pathOff..q.pathOff + q.pathLen], pending[q.keyOff..q.keyOff + q.keyLen])]
      && r.0.output.Pending() == output + Handshake.AcceptResponse(sha1, pending[q.keyOff..q.keyOff + q.keyLen])
  }

  /** Accepting the complete request at the start of the input, with room
      for the reply in the output: the request head is consumed, the reply
      is appended, the connection is established and `onConnect` is
      called. */
  function Accept(c: Connection, sha1: seq<byte> -> Handshake.Digest): (r: (Connection, seq<Event>))
    requires c.Valid() && Handshake.Parse(c.input.Pending()).Some?
    requires c.output.SpaceLeft() >= ReplyLen
    ensures r.0.Valid()
    ensures r.0.connected == c.connected && r.0.allowUnmasked == c.allowUnmasked && r.0.established
    ensures Accepted(c.input.Pending(), c.output.Pending(), sha1, r)
  {
    var p := c.input.Pending();
    var q := Handshake.Parse(p).value;
    Handshake.KeyWithinHead(p);
    var g := Greeting(p, q, sha1);
    var input, output := Skip(c.input, q.consumed), Write(c.output, Some(g.1), ReplyLen);
    assert input.Pending() == p[q.consumed..];
    assert output.Pending() == c.output.Pending() + g.1;
    (c.(input := input, output := output, established := true), [g.0])
  }

  /** The handshake part of `process()` before the connection is
      established: with no complete request nothing happens; otherwise room
      for the reply is reserved and the request is accepted. */
  function Establish(c: Connection, sha1: seq<byte> -> Handshake.Digest): (r: (Connection, seq<Event>))
    requires c.Valid() && !c.established
    ensures r.0.Valid()
    ensures r.0.connected == c.connected && r.0.allowUnmasked == c.allowUnmasked
    ensures r.0.established <==> Handshake.Parse(c.input.Pending()).Some?
    ensures !r.0.established ==> r == (c, [])
    ensures r.0.established ==> Accepted(c.input.Pending(), c.output.Pending(), sha1, r)
  {
    if Handshake.Parse(c.input.Pending()).None? then (c, [])
    else Accept(c.(output := Reserve(c.output, ReplyLen)), sha1)
  }

  /** The handshake step as written: the reply goes to `out.end()` with no
      reservation. `None` stands for a reply that runs beyond the
      allocation; otherwise the step is the corrected one. */
  function EstablishAsWritten(c: Connection, sha1: seq<byte> -> Handshake.Digest): (r: Option<(Connection, seq<Event>)>)
    requires c.Valid() && !c.established
    ensures r.Some? ==> r.value == Establish(c, sha1)
  {
    if Handshake.Parse(c.input.Pending()).None? then Some((c, []))
    else if c.output.SpaceLeft() < ReplyLen then None
    else Some(Accept(c, sha1))
  }

  /** The reply overflows the output as written exactly when the
      corrected step appends more bytes than the output has room for: the
      request is complete and the free space is below the reply's
      `ReplyLen` bytes. So a connection built with a `maxMsgLen` below
      `ReplyLen` overflows on its first handshake. */
  lemma EstablishOverflow(c: Connection, sha1: seq<byte> -> Handshake.Digest)
    requires c.Valid() && !c.established
    ensures var e := Establish(c, sha1).0;
      EstablishAsWritten(c, sha1).None? <==>
        e.established && c.output.SpaceLeft() < e.output.PendingLen() - c.output.PendingLen()
    ensures EstablishAsWritten(c, sha1).None? ==> c.output.SpaceLeft() < ReplyLen
  {
    var e := Establish(c, sha1).0;
    if e.established {
      assert |e.output.Pending()| == |c.output.Pending()| + ReplyLen;
    }
  }

  /** An instance: a connection built with a `maxMsgLen` below `ReplyLen`
      (100, say) that has received any complete request. */
  lemma EstablishOverflowCounterexample(maxMsgLen: nat, data: seq<byte>, sha1: seq<byte> -> Handshake.Digest)
    requires |data| <= maxMsgLen < ReplyLen
    requires Handshake.Parse(data).Some?
    ensures var c := NewConnection(maxMsgLen).(input := Write(Create(maxMsgLen), Some(data), |data|));
      && EstablishAsWritten(c, sha1).None?
      && Establish(c, sha1).0.established
  {
    var c := NewConnection(maxMsgLen).(input := Write(Create(maxMsgLen), Some(data), |data|));
    assert c.input.Pending() == data;
    EstablishOverflow(c, sha1);
  }

  // ---------------------------------------------------------------------
  // process: the frame loop

  /** The frame loop of `process()`, with the loop ending at a close
      frame: every complete frame at the start of the input is consumed;
      an unmasked frame is an error unless allowed; a ping is answered with
      a pong carrying the same payload; a close frame closes the connection
      and calls `onClose`; any other frame goes to `onMessage`. */
  function FrameLoop(c: Connection): (r: (Connection, seq<Event>))
    requires c.Valid() && c.connected
    ensures r.0.Valid()
    ensures r.0.established == c.established && r.0.allowUnmasked == c.allowUnmasked
    ensures TerminalLast(r.1) && NoConnect(r.1) && MaskPolicy(r.1, c.allowUnmasked)
    ensures !r.0.connected <==> EndsTerminal(r.1)
    ensures r.0.connected ==> Frame.Decode(r.0.input.Pending()) == Frame.NeedMore
    ensures c.output.Pending() <= r.0.output.Pending()
    ensures !Frame.Decode(c.input.Pending()).Frame? ==> r == (c, [])
    decreases c.input.PendingLen(), 0
  {
    var d := Frame.Decode(c.input.Pending());
    if !d.Frame? then (c, [])
    else Dispatch(c.(input := Skip(c.input, d.consumed)), d.msg, d.payload)
  }

  /** One round of the frame loop, once the frame `msg` with `payload` has
      been consumed from the input of `c`. */
  function Dispatch(c: Connection, msg: Frame.Message, payload: seq<byte>): (r: (Connection, seq<Event>))
    requires c.Valid() && c.connected && |payload| < SizeRange
    ensures r.0.Valid()
    ensures r.0.established == c.established && r.0.allowUnmasked == c.allowUnmasked
    ensures TerminalLast(r.1) && NoConnect(r.1) && MaskPolicy(r.1, c.allowUnmasked)
    ensures !r.0.connected <==> EndsTerminal(r.1)
    ensures r.0.connected ==> Frame.Decode(r.0.input.Pending()) == Frame.NeedMore
    ensures c.output.Pending() <= r.0.output.Pending()
    ensures !c.allowUnmasked && !msg.masked ==> r == Fail(c, UnmaskedMessage)
    ensures (c.allowUnmasked || msg.masked) && msg.opcode == Frame.OpClose ==>
      r == (c.(connected := false), [OnClose(msg, payload)])
    ensures (c.allowUnmasked || msg.masked) && msg.opcode == Frame.OpPing ==>
      c.output.Pending() + Frame.WriteMessage(payload, Frame.OpPong | Frame.FinalMask) <= r.0.output.Pending()
    ensures (c.allowUnmasked || msg.masked) && msg.opcode != Frame.OpPing && msg.opcode != Frame.OpClose ==>
      |r.1| > 0 && r.1[0] == OnMessage(msg, payload)
    decreases c.input.PendingLen(), 1
  {
    if !c.allowUnmasked && !msg.masked then Fail(c, UnmaskedMessage)
    else if msg.opcode == Frame.OpPing then FrameLoop(Send(c, payload, Frame.OpPong))
    else if msg.opcode == Frame.OpClose then (c.(connected := false), [OnClose(msg, payload)])
    else
      var rest := FrameLoop(c);
      Prepend(OnMessage(msg, payload), rest.1, c.allowUnmasked);
      (rest.0, [OnMessage(msg, payload)] + rest.1)
  }

  /** The mask check comes before the dispatch: an unmasked frame on a
      connection that does not allow them is an `UnmaskedMessage` error,
      whatever its opcode, and nothing is delivered or answered. */
  lemma UnmaskedRejected(c: Connection)
    requires c.Valid() && c.connected && !c.allowUnmasked
    requires Frame.Decode(c.input.Pending()).Frame? && !Frame.Decode(c.input.Pending()).msg.masked
    ensures FrameLoop(c).1 == [OnError(UnmaskedMessage)]
    ensures !FrameLoop(c).0.connected && FrameLoop(c).0.output == c.output
  {
  }

  /** A ping is answered with a final pong frame carrying the same
      payload, appended to the output before anything the rest of the loop
      sends; no event is emitted for it. */
  lemma PingAnswered(c: Connection)
    requires c.Valid() && c.connected
    requires var d := Frame.Decode(c.input.Pending());
      d.Frame? && d.msg.opcode == Frame.OpPing && (c.allowUnmasked || d.msg.masked)
    ensures var d := Frame.Decode(c.input.Pending());
      var pong := Frame.WriteMessage(d.payload, Frame.OpPong | Frame.FinalMask);
      && c.output.Pending() + pong <= FrameLoop(c).0.output.Pending()
      && FrameLoop(c).1 == FrameLoop(Send(c.(input := Skip(c.input, d.consumed)), d.payload, Frame.OpPong)).1
  {
  }

  /** A close frame ends the loop: it is consumed, the connection is
      closed, `onClose` is the one event, and the frames behind it stay in
      the input unprocessed (section 1.4 of RFC 6455: after receiving a
      close frame a peer discards any further data). */
  lemma CloseStops(c: Connection)
    requires c.Valid() && c.connected
    requires var d := Frame.Decode(c.input.Pending());
      d.Frame? && d.msg.opcode == Frame.OpClose && (c.allowUnmasked || d.msg.masked)
    ensures var d := Frame.Decode(c.input.Pending());
      FrameLoop(c) == (c.(input := Skip(c.input, d.consumed), connected := false), [OnClose(d.msg, d.payload)])
  {
  }

  /** Any other frame the mask policy admits goes to `onMessage`, and the
      loop goes on with the frame consumed: its event comes before every
      event of the rest of the input. */
  lemma MessageDelivered(c: Connection)
    requires c.Valid() && c.connected
    requires var d := Frame.Decode(c.input.Pending());
      && d.Frame? && (c.allowUnmasked || d.msg.masked)
      && d.msg.opcode != Frame.OpPing && d.msg.opcode != Frame.OpClose
    ensures var d := Frame.Decode(c.input.Pending());
      var rest := FrameLoop(c.(input := Skip(c.input, d.consumed)));
      FrameLoop(c) == (rest.0, [OnMessage(d.msg, d.payload)] + rest.1)
  {
  }

  /** A client's data frame is delivered: on an open connection, a frame
      masked as RFC 6455 requires of clients, with any opcode but ping and
      close, is handed to `onMessage` with the payload the client masked. */
  lemma ClientMessageDelivered(c: Connection, p: seq<byte>, op: byte, key: seq<byte>, rest: seq<byte>)
    requires c.Valid() && c.connected
    requires |p| < SizeRange && op <= Frame.OpcodeMask && |key| == Frame.MaskKeyLen
    requires op != Frame.OpPing && op != Frame.OpClose
    requires c.input.Pending() == Frame.WriteMasked(p, op | Frame.FinalMask, key) + rest
    ensures var events := FrameLoop(c).1;
      && |events| > 0 && events[0].OnMessage?
      && events[0].payload == p && events[0].msg.opcode == op && events[0].msg.masked
  {
    Frame.MaskedDecode(p, op, key, rest);
  }

  /** The frame loop as written: after a close frame the loop goes on, so
      frames behind it are still dispatched. */
  function FrameLoopAsWritten(c: Connection): (r: (Connection, seq<Event>))
    requires c.Valid()
    ensures r.0.Valid()
    ensures MaskPolicy(r.1, c.allowUnmasked)
    decreases c.input.PendingLen()
  {
    var d := Frame.Decode(c.input.Pending());
    if !d.Frame? then (c, [])
    else
      var msg, payload := d.msg, d.payload;
      var c1 := c.(input := Skip(c.input, d.consumed));
      if !c.allowUnmasked && !msg.masked then Fail(c1, UnmaskedMessage)
      else if msg.opcode == Frame.OpPing then FrameLoopAsWritten(Send(c1, payload, Frame.OpPong))
      else
        var e := if msg.opcode == Frame.OpClose then OnClose(msg, payload) else OnMessage(msg, payload);
        var c2 := if msg.opcode == Frame.OpClose then c1.(connected := false) else c1;
        var rest := FrameLoopAsWritten(c2);
        MaskPrepend(e, rest.1, c.allowUnmasked);
        (rest.0, [e] + rest.1)
  }

  /** The mask policy survives putting a delivered event in front. */
  lemma MaskPrepend(e: Event, events: seq<Event>, allowUnmasked: bool)
    requires (e.OnMessage? || e.OnClose?) ==> allowUnmasked || e.msg.masked
    requires MaskPolicy(events, allowUnmasked)
    ensures MaskPolicy([e] + events, allowUnmasked)
  {
    var t := [e] + events;
    forall i | 1 <= i < |t|
      ensures t[i] == events[i - 1]
    {
    }
  }

  /** One round of the as-written loop on a frame that is delivered: its
      event comes first, then the loop goes on with the frame consumed
      (and the connection closed if it was a close frame). */
  lemma AsWrittenDelivers(c: Connection)
    requires c.Valid() && Frame.Decode(c.input.Pending()).Frame?
    requires var d := Frame.Decode(c.input.Pending());
      (c.allowUnmasked || d.msg.masked) && d.msg.opcode != Frame.OpPing
    ensures var d := Frame.Decode(c.input.Pending());
      var close := d.msg.opcode == Frame.OpClose;
      var c1 := c.(input := Skip(c.input, d.consumed), connected := c.connected && !close);
      var e := if close then OnClose(d.msg, d.payload) else OnMessage(d.msg, d.payload);
      FrameLoopAsWritten(c).1 == [e] + FrameLoopAsWritten(c1).1
  {
  }

  /** A close frame followed by a text frame (both unmasked, on a
      connection that allows that): as written, `onMessage` is called after
      `onClose` on a closed connection; with the loop ending at the close
      frame, `onClose` is the last event. */
  lemma CloseCounterexample(c: Connection, p: seq<byte>)
    requires c.Valid() && c.connected && c.allowUnmasked && |p| < SizeRange
    requires c.input.Pending() ==
      Frame.WriteMessage([], Frame.OpClose | Frame.FinalMask) + Frame.WriteMessage(p, Frame.OpText | Frame.FinalMask)
    ensures var w := FrameLoopAsWritten(c).1;
      |w| == 2 && w[0].OnClose? && w[1].OnMessage? && w[1].payload == p
    ensures var f := FrameLoop(c).1;
      |f| == 1 && f[0].OnClose?
  {
    var close := Frame.WriteMessage([], Frame.OpClose | Frame.FinalMask);
    var text := Frame.WriteMessage(p, Frame.OpText | Frame.FinalMask);
    Frame.WriteDecode([], Frame.OpClose, text);
    AsWrittenDelivers(c);
    var c1 := c.(input := Skip(c.input, |close|), connected := false);
    assert c1.input.Pending() == text + [];
    Frame.WriteDecode(p, Frame.OpText, []);
    AsWrittenDelivers(c1);
    var c2 := c1.(input := Skip(c1.input, |text|));
    assert c2.input.Pending() == [];
    assert FrameLoopAsWritten(c2).1 == [];
  }

  // ---------------------------------------------------------------------
  // process and flush

  /** `onConnect` comes first if at all. */
  predicate ConnectFirst(events: seq<Event>)
  {
    forall i :: 0 < i < |events| ==> !events[i].OnConnect?
  }

  /** `process()`: nothing on a closed connection; otherwise read, then
      go on unless the read failed. */
  function Process(c: Connection, rd: Option<ReadResult>, sha1: seq<byte> -> Handshake.Digest): (r: (Connection, seq<Event>))
    requires c.Valid()
    requires rd.Some? ==> ReadFits(c.input.Capacity() - c.input.PendingLen(), rd.value)
    ensures r.0.Valid()
    ensures !c.connected ==> r == (c, [])
    ensures c.established ==> r.0.established
    ensures r.0.allowUnmasked == c.allowUnmasked
    ensures TerminalLast(r.1) && MaskPolicy(r.1, c.allowUnmasked)
    ensures c.connected ==> (!r.0.connected <==> EndsTerminal(r.1))
    ensures ConnectFirst(r.1)
    ensures (|r.1| > 0 && r.1[0].OnConnect?) <==> !c.established && r.0.established
    ensures r.0.connected && r.0.established ==> Frame.Decode(r.0.input.Pending()) == Frame.NeedMore
  {
    if !c.connected then (c, [])
    else
      var read := ReadInput(c, rd);
      if !read.0.connected then read
      else Advance(read.0, sha1)
  }

  /** The rest of `process()` once the read succeeded: before
      establishment try the handshake, returning if the request is
      incomplete; then run the frame loop. */
  function Advance(c: Connection, sha1: seq<byte> -> Handshake.Digest): (r: (Connection, seq<Event>))
    requires c.Valid() && c.connected
    ensures r.0.Valid()
    ensures c.established ==> r.0.established
    ensures r.0.allowUnmasked == c.allowUnmasked
    ensures TerminalLast(r.1) && MaskPolicy(r.1, c.allowUnmasked)
    ensures !r.0.connected <==> EndsTerminal(r.1)
    ensures ConnectFirst(r.1)
    ensures (|r.1| > 0 && r.1[0].OnConnect?) <==> !c.established && r.0.established
    ensures r.0.connected && r.0.established ==> Frame.Decode(r.0.input.Pending()) == Frame.NeedMore
  {
    if c.established then FrameLoop(c)
    else
      var hs := Establish(c, sha1);
      if !hs.0.established then hs
      else
        var loop := FrameLoop(hs.0);
        HandshakePrepend(hs.1, loop.1, c.allowUnmasked);
        (loop.0, hs.1 + loop.1)
  }

  /** How `process()` proceeds after a successful read: an established
      connection runs the frame loop on the new input; otherwise an
      incomplete request ends the call, and a complete one is accepted and
      followed by the frame loop on what remains of the input. */
  lemma ProcessSteps(c: Connection, rd: Option<ReadResult>, sha1: seq<byte> -> Handshake.Digest)
    requires c.Valid() && c.connected
    requires rd.Some? ==> ReadFits(c.input.Capacity() - c.input.PendingLen(), rd.value)
    ensures var read := ReadInput(c, rd).0;
      read.connected ==>
        && (c.established ==> Process(c, rd, sha1) == FrameLoop(read))
        && (!c.established && Handshake.Parse(read.input.Pending()).None? ==> Process(c, rd, sha1) == (read, []))
        && (!c.established && Handshake.Parse(read.input.Pending()).Some? ==>
          var hs := Establish(read, sha1);
          Process(c, rd, sha1) == (FrameLoop(hs.0).0, hs.1 + FrameLoop(hs.0).1))
  {
  }

  /** The trace properties survive putting the `onConnect` in front. */
  lemma HandshakePrepend(first: seq<Event>, events: seq<Event>, allowUnmasked: bool)
    requires |first| == 1 && first[0].OnConnect?
    requires TerminalLast(events) && MaskPolicy(events, allowUnmasked) && NoConnect(events)
    ensures TerminalLast(first + events) && MaskPolicy(first + events, allowUnmasked)
    ensures ConnectFirst(first + events)
    ensures EndsTerminal(first + events) <==> EndsTerminal(events)
  {
    var t := first + events;
    forall i | 1 <= i < |t|
      ensures t[i] == events[i - 1]
    {
    }
  }

  /** `flush()`: on an open connection with pending output, hand it to
      `write`; -1 is `WriteFailed`, any other count is consumed and the
      output compacted. `sent` is what `write` returns when it is called;
      the C code asserts that it is no more than was offered. */
  function Flush(c: Connection, sent: int): (r: (Connection, seq<Event>))
    requires c.Valid()
    requires c.connected && c.output.PendingLen() > 0 ==> sent == -1 || 0 <= sent <= c.output.PendingLen()
    ensures r.0.Valid()
    ensures r.0.input == c.input && r.0.established == c.established
    ensures r.0.allowUnmasked == c.allowUnmasked
    ensures !c.connected || c.output.PendingLen() == 0 ==> r == (c, [])
    ensures c.connected && c.output.PendingLen() > 0 && sent == -1 ==>
      r.1 == [OnError(WriteFailed)] && !r.0.connected && r.0.output == c.output
    ensures c.connected && c.output.PendingLen() > 0 && sent >= 0 ==>
      && r.1 == [] && r.0.connected
      && c.output.Pending() == c.output.Pending()[..sent] + r.0.output.Pending()
      && r.0.output.cur == 0
      && r.0.output.SpaceLeft() == c.output.Capacity() - (c.output.PendingLen() - sent)
  {
    if !c.connected || c.output.PendingLen() == 0 then (c, [])
    else if sent == -1 then Fail(c, WriteFailed)
    else (c.(output := Shrink(Skip(c.output, sent))), [])
  }
}
