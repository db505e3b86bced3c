/**
 The responder's side of a session: waiting for it to be established, and splitting the established
 connection into two halves.
 */
module Session {
  import opened Wrappers
  import opened Bytes
  import opened Framing
  import opened FramedStreams
  import opened SecureHalf

  datatype SessionState = NotStarted | Handshaking | Established | Terminating

  /** What the SPDM library reports for one message: the raw packet, and the session table after it. */
  datatype Processed =
    | Success(packet: seq<byte>, sessions: map<nat, SessionState>)
    | HandleError
    | DecodeError

  datatype Negotiated = Agreed(sessionId: nat) | NoSessionId | HandleFailed | DecodeFailed | Waiting

  datatype SplitError = SessionNotReady

  predicate IsEstablished(sessions: map<nat, SessionState>, id: nat) {
    id in sessions && sessions[id] == Established
  }

  /** The number at the head of a packet, if there is one. */
  function LeadingId(packet: seq<byte>): Option<nat> {
    if |packet| < 4 then None else Some(FromLE(packet[..4]))
  }

  /** How `negotiate` ends on a sequence of messages; it is still waiting when they run out. */
  function Negotiation(messages: seq<Processed>): Negotiated {
    if messages == [] then Waiting
    else
      match messages[0]
      case HandleError => HandleFailed
      case DecodeError => DecodeFailed
      case Success(packet, sessions) =>
        match LeadingId(packet)
        case None => NoSessionId
        case Some(id) => if IsEstablished(sessions, id) then Agreed(id) else Negotiation(messages[1..])
  }

  /** The message starts with this number, little-endian, and the session of that number is established. */
  ghost predicate Names(e: Processed, id: nat) {
    && e.Success? && id < 0x1_0000_0000 && ToLE(id, 4) <= e.packet
    && id in e.sessions && e.sessions[id] == Established
  }

  /** A message after which the responder goes on waiting: long enough, and no established session in front. */
  ghost predicate Waits(e: Processed) {
    e.Success? && |e.packet| >= 4 && forall id: nat :: !Names(e, id)
  }

  /** How a message that does not leave the responder waiting ends the negotiation. */
  ghost predicate Ends(e: Processed, r: Negotiated) {
    match r
    case Agreed(id) => Names(e, id)
    case NoSessionId => e.Success? && |e.packet| < 4
    case HandleFailed => e.HandleError?
    case DecodeFailed => e.DecodeError?
    case Waiting => false
  }

  /** The leading number is that of the first four bytes, in little-endian order. */
  lemma LeadingIdExact(packet: seq<byte>, id: nat)
    ensures LeadingId(packet) == Some(id) <==> id < 0x1_0000_0000 && ToLE(id, 4) <= packet
    ensures LeadingId(packet).None? <==> |packet| < 4
  {
    hide ToLE, FromLE, Pow256;
    Pow256Values();
    if |packet| >= 4 {
      var head := packet[..4];
      ToLEFromLE(head);
      if id < 0x1_0000_0000 {
        FromLEToLE(id, 4);
        assert ToLE(id, 4) <= packet <==> ToLE(id, 4) == head;
      }
    }
  }

  /** What one message decides, and what it decides is unique. */
  lemma OneMessage(e: Processed, messages: seq<Processed>, r: Negotiated)
    requires messages != [] && messages[0] == e
    ensures Waits(e) ==> Negotiation(messages) == Negotiation(messages[1..]) && !Ends(e, r)
    ensures !Waits(e) ==> (Negotiation(messages) == r <==> Ends(e, r))
  {
    hide ToLE, FromLE;
    if e.Success? {
      forall id: nat ensures LeadingId(e.packet) == Some(id) <==> id < 0x1_0000_0000 && ToLE(id, 4) <= e.packet {
        LeadingIdExact(e.packet, id);
      }
      if LeadingId(e.packet).Some? {
        var id := LeadingId(e.packet).value;
        assert IsEstablished(e.sessions, id) <==> Names(e, id);
      }
    }
  }

  lemma NoMessages()
    ensures Negotiation([]) == Waiting
  {
  }

  /**
   `negotiate` is decided by the first message that does not leave it waiting: it agrees on the number
   of an established session in front of that message, fails if the message is too short or was not
   processed, and waits on when there is no such message.
   */
  lemma {:induction false} NegotiationExact(messages: seq<Processed>, r: Negotiated)
    ensures Negotiation(messages) == r <==>
      || (r == Waiting && forall j :: 0 <= j < |messages| ==> Waits(messages[j]))
      || exists k :: 0 <= k < |messages| && Ends(messages[k], r) && forall j :: 0 <= j < k ==> Waits(messages[j])
    decreases |messages|
  {
    hide Ends, Waits, Negotiation;
    if messages == [] {
      NoMessages();
    } else {
      var rest := messages[1..];
      NegotiationExact(rest, r);
      OneMessage(messages[0], messages, r);
      assert forall j :: 0 <= j < |rest| ==> rest[j] == messages[j + 1];
      assert forall j :: 0 < j < |messages| ==> messages[j] == rest[j - 1];
      if k :| 0 <= k < |rest| && Ends(rest[k], r) && forall j :: 0 <= j < k ==> Waits(rest[j]) {
        assert Ends(messages[k + 1], r);
      }
      if k :| 0 <= k < |messages| && Ends(messages[k], r) && forall j :: 0 <= j < k ==> Waits(messages[j]) {
        if k > 0 {
          assert Ends(rest[k - 1], r);
        }
      }
    }
  }

  /** The session id after any number of negotiations; a failed one leaves it alone. */
  function SessionAfter(start: Option<nat>, runs: seq<seq<Processed>>): Option<nat> {
    if runs == [] then start
    else
      var n := |runs| - 1;
      match Negotiation(runs[n])
      case Agreed(id) => Some(id)
      case _ => SessionAfter(start, runs[..n])
  }

  /** The `k`-th negotiation agreed on `id` and no later one agreed on anything. */
  ghost predicate DecidedAt(runs: seq<seq<Processed>>, k: int, id: nat) {
    0 <= k < |runs| && Negotiation(runs[k]) == Agreed(id) && forall j :: k < j < |runs| ==> !Negotiation(runs[j]).Agreed?
  }

  /** A fresh responder has a session id exactly when some negotiation was the last to agree, and on that id. */
  lemma {:induction false} SessionOnlyByNegotiation(runs: seq<seq<Processed>>, id: nat)
    ensures SessionAfter(None, runs) == Some(id) <==> exists k :: DecidedAt(runs, k, id)
    decreases |runs|
  {
    if runs != [] {
      var n := |runs| - 1;
      var init := runs[..n];
      SessionOnlyByNegotiation(init, id);
      if SessionAfter(None, runs) == Some(id) {
        if Negotiation(runs[n]).Agreed? {
          assert DecidedAt(runs, n, id);
        } else {
          var k :| DecidedAt(init, k, id);
          assert forall j :: k <= j < n ==> runs[j] == init[j];
          assert DecidedAt(runs, k, id);
        }
      }
      if k :| DecidedAt(runs, k, id) {
        if k < n {
          assert forall j :: k <= j < n ==> runs[j] == init[j];
          assert DecidedAt(init, k, id);
        }
      }
    }
  }

  class Responder {
    const stream: ByteStream
    const device: FramedStream
    const common: SpdmContext
    var sessionId: Option<nat>

    constructor (stream: ByteStream, common: SpdmContext, cap: nat)
      ensures sessionId == None && this.stream == stream && this.common == common
      ensures device.Valid() && device.stream == stream && device.cap == cap && device.Buffered() == []
    {
      this.stream, this.common, sessionId := stream, common, None;
      device := new FramedStream(stream, cap);
    }

    method Negotiate(messages: seq<Processed>) returns (r: Negotiated)
      modifies this`sessionId
      ensures r == Negotiation(messages)
      ensures sessionId == match r case Agreed(id) => Some(id) case _ => old(sessionId)
    {
      var n := 0;
      while n < |messages|
        invariant 0 <= n <= |messages|
        invariant Negotiation(messages) == Negotiation(messages[n..])
        invariant sessionId == old(sessionId)
      {
        match messages[n] {
          case Success(packet, sessions) =>
            var id := LeadingId(packet);
            if id.None? {
              return NoSessionId;
            }
            if id.value in sessions && sessions[id.value] == Established {
              sessionId := Some(id.value);
              return Agreed(id.value);
            }
          case HandleError => return HandleFailed;
          case DecodeError => return DecodeFailed;
        }
        assert messages[n..][1..] == messages[n + 1..];
        n := n + 1;
      }
      return Waiting;
    }

    /**
     Hands the reading side to one half, with the very stream object whose buffer may hold bytes, and
     gives the other half a fresh one over the same socket.
     */
    method IntoSplit(senderSize: nat) returns (r: Result<(ReadHalf, WriteHalf), SplitError>)
      requires device.Valid()
      ensures r.Ok? <==> sessionId.Some?
      ensures r.Ok? ==>
        var (reader, writer) := r.value;
        && reader.device == device && reader.common == common && writer.common == common
        && writer.device.Valid() && writer.device.stream == stream && writer.device.cap == device.cap
        && writer.senderSize == senderSize
        && fresh(writer.device) && fresh(writer.device.readBuffer) && writer.device.Buffered() == []
      ensures device.Valid() && device.Buffered() == old(device.Buffered())
    {
      if sessionId.None? {
        return Err(SessionNotReady);
      }
      var reader := new ReadHalf(common, device);
      var writing := new FramedStream(stream, device.cap);
      var writer := new WriteHalf(common, writing, senderSize);
      return Ok((reader, writer));
    }
  }

  // ----- The halves in use -----

  /** What the owner of one half or the other asks for next. */
  datatype Op = SendOp(message: seq<byte>) | ReceiveOp

  function Receives(ops: seq<Op>): nat {
    if ops == [] then 0 else Receives(ops[..|ops| - 1]) + if ops[|ops| - 1].ReceiveOp? then 1 else 0
  }

  /** The next message number of a writer that has been asked for all of this. */
  function NumberAfter(limit: nat, size: nat, i: nat, ops: seq<Op>): nat {
    if ops == [] then i
    else
      var op := ops[|ops| - 1];
      NumberAfter(limit, size, i, ops[..|ops| - 1]) + if op.SendOp? && Counted(limit, size, op.message) then 1 else 0
  }

  /** What one operation may put on the wire: a send a frame if it succeeds, a part of it if it fails, a receive nothing. */
  predicate Piece(c: Cipher, limit: nat, size: nat, i: nat, op: Op, ok: bool, piece: seq<byte>) {
    match op
    case ReceiveOp => ok && piece == []
    case SendOp(message) =>
      match Outgoing(c, limit, size, i, message)
      case Some(packet) => if ok then piece == Frame(packet) else piece <= Frame(packet)
      case None => !ok && piece == []
  }

  ghost predicate Pieces(c: Cipher, limit: nat, size: nat, i: nat, ops: seq<Op>, oks: seq<bool>, pieces: seq<seq<byte>>) {
    && |ops| == |oks| == |pieces|
    && forall k :: 0 <= k < |ops| ==> Piece(c, limit, size, NumberAfter(limit, size, i, ops[..k]), ops[k], oks[k], pieces[k])
  }

  lemma PiecesSnoc(c: Cipher, limit: nat, size: nat, i: nat, ops: seq<Op>, oks: seq<bool>, pieces: seq<seq<byte>>,
      op: Op, ok: bool, piece: seq<byte>)
    requires Pieces(c, limit, size, i, ops, oks, pieces)
    requires Piece(c, limit, size, NumberAfter(limit, size, i, ops), op, ok, piece)
    ensures Pieces(c, limit, size, i, ops + [op], oks + [ok], pieces + [piece])
    ensures Flatten(pieces + [piece]) == Flatten(pieces) + piece
  {
    hide Piece, NumberAfter;
    FlattenSnoc(pieces, piece);
    assert forall k :: 0 <= k < |ops| ==> (ops + [op])[..k] == ops[..k];
    assert (ops + [op])[..|ops|] == ops;
  }

  lemma ReceivePiece(c: Cipher, limit: nat, size: nat, i: nat)
    ensures Piece(c, limit, size, i, ReceiveOp, true, [])
  {
  }

  lemma NoPieces(c: Cipher, limit: nat, size: nat, i: nat)
    ensures Pieces(c, limit, size, i, [], [], [])
  {
  }

  lemma NothingDone(limit: nat, size: nat, i: nat)
    ensures Receives([]) == 0 && NumberAfter(limit, size, i, []) == i
  {
  }

  lemma OneMore(limit: nat, size: nat, i: nat, ops: seq<Op>, op: Op)
    ensures Receives(ops + [op]) == Receives(ops) + if op.ReceiveOp? then 1 else 0
    ensures NumberAfter(limit, size, i, ops + [op]) ==
      NumberAfter(limit, size, i, ops) + if op.SendOp? && Counted(limit, size, op.message) then 1 else 0
  {
    assert (ops + [op])[..|ops|] == ops;
  }

  /** A send, and what it put on the wire. */
  method SendPiece(writer: WriteHalf, message: seq<byte>) returns (ok: bool, ghost piece: seq<byte>)
    requires writer.device.Valid()
    modifies writer.common`sent, writer.device.stream`written, writer.device.stream`failures
    ensures writer.device.stream.written == old(writer.device.stream.written) + piece
    ensures Piece(writer.common.outbound, writer.common.transferLimit, writer.senderSize, old(writer.common.sent),
              SendOp(message), ok, piece)
    ensures writer.device.stream.failures == old(writer.device.stream.failures)
      + if Outgoing(writer.common.outbound, writer.common.transferLimit, writer.senderSize, old(writer.common.sent),
           message).Some? && !ok then 1 else 0
    ensures writer.common.sent ==
      old(writer.common.sent) + if Counted(writer.common.transferLimit, writer.senderSize, message) then 1 else 0
  {
    hide Frame, Outgoing;
    ghost var before := writer.device.stream.written;
    ok := writer.Send(message);
    piece := writer.device.stream.written[|before|..];
  }

  /** A receive, and the message it left in the caller's buffer. */
  method ReceiveMessage(reader: ReadHalf, buf: array<byte>) returns (message: Option<seq<byte>>)
    requires reader.device.Valid() && buf != reader.device.readBuffer
    modifies reader.common`received, reader.device`readRemain, reader.device`delivered, reader.device.readBuffer
    modifies reader.device.stream`script, reader.device.stream`consumed, buf
    ensures reader.device.Valid()
    ensures HalfReceive(reader.common.inbound, old(reader.common.received), reader.device.cap, buf.Length,
        old(reader.device.Buffered()), old(reader.device.stream.script))
      == HalfReceived(message, reader.common.received, reader.device.Buffered(), reader.device.stream.script)
    ensures old(reader.device.Conserves()) ==> reader.device.Conserves()
  {
    hide HalfReceive;
    var r := reader.Receive(buf);
    message := if r.Some? then Some(buf[..r.value]) else None;
  }

  /**
   The two halves in any interleaving: the messages returned are those of as many receive calls in a
   row, as if nothing had been sent, and the bytes written are the frames of the messages sent, in
   order, as if nothing had been received.
   */
  method UseHalves(reader: ReadHalf, writer: WriteHalf, ops: seq<Op>, buf: array<byte>)
    returns (messages: seq<Option<seq<byte>>>, oks: seq<bool>, ghost pieces: seq<seq<byte>>)
    requires reader.common == writer.common && reader.device.stream == writer.device.stream && reader.device != writer.device
    requires reader.device.Valid() && writer.device.Valid() && buf != reader.device.readBuffer
    modifies reader.common`received, reader.common`sent, reader.device`readRemain, reader.device`delivered
    modifies reader.device.readBuffer, reader.device.stream`script, reader.device.stream`consumed
    modifies reader.device.stream`written, reader.device.stream`failures, buf
    ensures reader.device.Valid() && writer.device.Valid()
    ensures var run := HalfReceiveMany(reader.common.inbound, old(reader.common.received), reader.device.cap, buf.Length,
        old(reader.device.Buffered()), old(reader.device.stream.script), Receives(ops));
      && messages == run.messages
      && reader.common.received == run.next
      && reader.device.Buffered() == run.buffered && reader.device.stream.script == run.script
    ensures writer.device.stream.written == old(writer.device.stream.written) + Flatten(pieces)
    ensures Pieces(writer.common.outbound, writer.common.transferLimit, writer.senderSize, old(writer.common.sent),
              ops, oks, pieces)
    ensures old(reader.device.Conserves()) ==> reader.device.Conserves()
  {
    hide Frame, Piece, Pieces, HalfReceive, NumberAfter, Receives;
    ghost var c, limit, size := writer.common.outbound, writer.common.transferLimit, writer.senderSize;
    ghost var i := writer.common.sent;
    ghost var first, buffered, script := reader.common.received, reader.device.Buffered(), reader.device.stream.script;
    ghost var before := writer.device.stream.written;
    messages, oks, pieces := [], [], [];
    NoPieces(c, limit, size, i);
    assert ops[..0] == [];
    NothingDone(limit, size, i);
    var n := 0;
    while n < |ops|
      invariant 0 <= n <= |ops|
      invariant reader.device.Valid() && writer.device.Valid()
      invariant var run := HalfReceiveMany(reader.common.inbound, first, reader.device.cap, buf.Length,
          buffered, script, Receives(ops[..n]));
        && messages == run.messages
        && reader.common.received == run.next
        && reader.device.Buffered() == run.buffered && reader.device.stream.script == run.script
      invariant writer.device.stream.written == before + Flatten(pieces)
      invariant Pieces(c, limit, size, i, ops[..n], oks, pieces)
      invariant writer.common.sent == NumberAfter(limit, size, i, ops[..n])
      invariant old(reader.device.Conserves()) ==> reader.device.Conserves()
    {
      ghost var done := ops[..n];
      assert ops[..n + 1] == done + [ops[n]];
      OneMore(limit, size, i, done, ops[n]);
      var ok := true;
      ghost var piece := [];
      match ops[n] {
        case SendOp(message) =>
          ok, piece := SendPiece(writer, message);
          Associative(before, Flatten(pieces), piece);
        case ReceiveOp =>
          var message := ReceiveMessage(reader, buf);
          messages := messages + [message];
          ReceivePiece(c, limit, size, NumberAfter(limit, size, i, done));
          assert Flatten(pieces) + piece == Flatten(pieces);
      }
      PiecesSnoc(c, limit, size, i, done, oks, pieces, ops[n], ok, piece);
      oks, pieces, n := oks + [ok], pieces + [piece], n + 1;
    }
    assert ops[..n] == ops;
  }

  /** Negotiations in a row. */
  method NegotiateAll(responder: Responder, runs: seq<seq<Processed>>)
    modifies responder`sessionId
    ensures responder.sessionId == SessionAfter(old(responder.sessionId), runs)
  {
    hide Negotiation;
    var n := 0;
    while n < |runs|
      invariant 0 <= n <= |runs|
      invariant responder.sessionId == SessionAfter(old(responder.sessionId), runs[..n])
    {
      assert runs[..n + 1][..n] == runs[..n];
      var _ := responder.Negotiate(runs[n]);
      n := n + 1;
    }
    assert runs[..n] == runs;
  }

  /** A fresh responder can be split exactly when some negotiation was the last to agree on an id. */
  method SplitFresh(stream: ByteStream, common: SpdmContext, cap: nat, senderSize: nat, runs: seq<seq<Processed>>)
    returns (responder: Responder, r: Result<(ReadHalf, WriteHalf), SplitError>)
    ensures fresh(responder) && responder.stream == stream && responder.common == common
    ensures r.Ok? <==> exists k, id: nat :: DecidedAt(runs, k, id)
    ensures forall id: nat :: responder.sessionId == Some(id) <==> exists k :: DecidedAt(runs, k, id)
    ensures r.Ok? ==> r.value.0.device == responder.device && r.value.1.device.stream == stream
  {
    hide SessionAfter, DecidedAt;
    responder := new Responder(stream, common, cap);
    NegotiateAll(responder, runs);
    DecidedOrNot(runs, responder.sessionId);
    r := responder.IntoSplit(senderSize);
  }

  lemma DecidedOrNot(runs: seq<seq<Processed>>, sessionId: Option<nat>)
    requires sessionId == SessionAfter(None, runs)
    ensures sessionId.Some? <==> exists k, id: nat :: DecidedAt(runs, k, id)
    ensures forall id: nat :: sessionId == Some(id) <==> exists k :: DecidedAt(runs, k, id)
  {
    hide SessionAfter, DecidedAt;
    forall id: nat ensures sessionId == Some(id) <==> exists k :: DecidedAt(runs, k, id) {
      SessionOnlyByNegotiation(runs, id);
    }
    if sessionId.Some? {
      var k :| DecidedAt(runs, k, sessionId.value);
    }
    if k, id: nat :| DecidedAt(runs, k, id) {
      assert sessionId == Some(id);
    }
  }

  /** The packets taken off the stream while the session is set up. */
  method TakePackets(device: FramedStream, count: nat)
    requires device.Valid()
    modifies device`readRemain, device`delivered, device.readBuffer, device.stream`script, device.stream`consumed
    ensures device.Valid()
    ensures var run := ReceiveMany(device.cap, old(device.Buffered()), old(device.stream.script), count);
      device.Buffered() == run.buffered && device.stream.script == run.script
    ensures old(device.Conserves()) ==> device.Conserves()
  {
    hide Framing.Receive, FrameHeader, PayloadSize;
    var n := 0;
    ghost var buffered, script := device.Buffered(), device.stream.script;
    while n < count
      invariant 0 <= n <= count && device.Valid()
      invariant var run := ReceiveMany(device.cap, buffered, script, n);
        device.Buffered() == run.buffered && device.stream.script == run.script
      invariant old(device.Conserves()) ==> device.Conserves()
    {
      ghost var run := ReceiveMany(device.cap, buffered, script, n);
      var out := new byte[device.cap](_ => 0);
      RunHandover(device.cap, buffered, script, n, 1);
      ghost var r := Framing.Receive(device.cap, run.buffered, run.script);
      ReceiveConserves(device.cap, run.buffered, run.script);
      assert ReceiveMany(device.cap, r.buffered, r.script, 0) == Run([], r.buffered, r.script);
      var _ := device.Receive(out);
      n := n + 1;
    }
  }

  /**
   A responder that takes some packets, is split, and whose halves are then used in any interleaving:
   the read half goes on from the packet after the last one taken, whatever part of it had already
   been read, and the wire carries what was on it and the pieces of the sends.
   */
  method UseAfterSplit(responder: Responder, senderSize: nat, taken: nat, ops: seq<Op>, buf: array<byte>)
    returns (used: Option<seq<Option<seq<byte>>>>, oks: seq<bool>, ghost pieces: seq<seq<byte>>)
    requires responder.device.Valid() && responder.device.stream == responder.stream && buf != responder.device.readBuffer
    modifies responder.common, responder.device, responder.device.readBuffer, responder.stream, buf
    ensures used.Some? <==> old(responder.sessionId).Some?
    ensures used.Some? ==>
      var before := ReceiveMany(responder.device.cap, old(responder.device.Buffered()), old(responder.stream.script), taken);
      && |before.buffered| <= responder.device.cap + HEADER_SIZE
      && used.value == HalfReceiveMany(responder.common.inbound, old(responder.common.received), responder.device.cap,
           buf.Length, before.buffered, before.script, Receives(ops)).messages
      && responder.stream.written == old(responder.stream.written) + Flatten(pieces)
      && Pieces(responder.common.outbound, responder.common.transferLimit, senderSize, old(responder.common.sent),
           ops, oks, pieces)
    ensures used.None? ==> responder.stream.written == old(responder.stream.written)
  {
    hide ReceiveMany, HalfReceiveMany, Pieces, Receives;
    RunConserves(responder.device.cap, responder.device.Buffered(), responder.stream.script, taken);
    used, oks, pieces := None, [], [];
    TakePackets(responder.device, taken);
    var halves := responder.IntoSplit(senderSize);
    if halves.Err? {
      return;
    }
    var (reader, writer) := halves.value;
    var messages;
    messages, oks, pieces := UseHalves(reader, writer, ops, buf);
    used := Some(messages);
  }

  /**
   What the read half then returns: when the peer's packets arrive in any fragments, first those
   taken before the split and then those of its messages, the n-th call after the split returns the
   n-th message, even if the split falls into the middle of a packet.
   */
  lemma HandoverFifo(c: Cipher, i: nat, cap: nat, room: nat, buf: seq<byte>, script: seq<ReadEvent>,
      taken: seq<seq<byte>>, messages: seq<seq<byte>>, tail: seq<byte>, calls: nat)
    requires |buf| <= cap + HEADER_SIZE && c.Invertible() && Clean(script) && calls <= |messages|
    requires Sendable(cap, taken) && Readable(c, i, cap, room, messages)
    requires buf + Data(script) == Frames(taken) + (Frames(ProtectAll(c, i, messages)) + tail)
    ensures var before := ReceiveMany(cap, buf, script, |taken|);
      && before.delivered == taken && |before.buffered| <= cap + HEADER_SIZE
      && var after := HalfReceiveMany(c, i, cap, room, before.buffered, before.script, calls);
      && (forall k :: 0 <= k < calls ==> after.messages[k] == Some(messages[k]))
      && ReceiveMany(cap, buf, script, |taken| + calls).buffered == after.buffered
  {
    hide Frame, ProtectAll, Protect, Clean, ReceiveMany, HalfReceiveMany, Readable, Framing.Receive;
    RunConserves(cap, buf, script, |taken|);
    RunClean(cap, buf, script, |taken|);
    ReceiveFifo(cap, buf, script, taken, Frames(ProtectAll(c, i, messages)) + tail, |taken|);
    var before := ReceiveMany(cap, buf, script, |taken|);
    assert taken[..|taken|] == taken && taken[|taken|..] == [];
    assert [] + (Frames(ProtectAll(c, i, messages)) + tail) == Frames(ProtectAll(c, i, messages)) + tail;
    HalfFifo(c, i, cap, room, before.buffered, before.script, messages, tail, calls);
    RunHandover(cap, buf, script, |taken|, calls);
    HalfRunTakesFrames(c, i, cap, room, before.buffered, before.script, calls);
  }
}
