/**
 The tunnel: two forwarding loops joined by a pair of halves. One end reads its plain socket and
 sends what it read as messages; the other receives messages and writes them to its plain socket.
 */
module Tunnel {
  import opened Wrappers
  import opened Bytes
  import opened Framing
  import opened FramedStreams
  import opened SecureHalf

  const CHUNK_SIZE: nat := 1024

  /** The chunks a sending loop can have turned into frames, the first being message `i`. */
  ghost predicate Chunks(c: Cipher, i: nat, chunks: seq<seq<byte>>) {
    forall k :: 0 <= k < |chunks| ==>
      0 < |chunks[k]| <= CHUNK_SIZE && |Protect(c, i + k, chunks[k])| < U32_LIMIT
  }

  /** Every chunk fits a receiver with a buffer for payloads of `cap` bytes. */
  ghost predicate Fits(c: Cipher, i: nat, cap: nat, chunks: seq<seq<byte>>) {
    forall k :: 0 <= k < |chunks| ==> 1 + |chunks[k]| <= cap && |Protect(c, i + k, chunks[k])| <= cap
  }

  lemma ChunksTail(c: Cipher, i: nat, cap: nat, chunks: seq<seq<byte>>)
    requires chunks != []
    ensures Chunks(c, i, chunks) ==> Chunks(c, i + 1, chunks[1..])
    ensures Fits(c, i, cap, chunks) ==> Fits(c, i + 1, cap, chunks[1..])
  {
    assert forall k :: 0 <= k < |chunks| - 1 ==> chunks[1..][k] == chunks[k + 1];
  }

  /** The wire image of chunks sent as messages `i`, `i + 1`, ... */
  function Wire(c: Cipher, i: nat, chunks: seq<seq<byte>>): seq<byte> {
    Frames(ProtectAll(c, i, chunks))
  }

  lemma EmptyWire(c: Cipher, i: nat)
    ensures Wire(c, i, []) == []
  {
  }

  lemma WireHead(c: Cipher, i: nat, chunks: seq<seq<byte>>)
    requires chunks != []
    ensures Wire(c, i, chunks) == Frame(Protect(c, i, chunks[0])) + Wire(c, i + 1, chunks[1..])
  {
    FramesCons(Protect(c, i, chunks[0]), ProtectAll(c, i + 1, chunks[1..]));
  }

  lemma WireConcat(c: Cipher, i: nat, a: seq<seq<byte>>, b: seq<seq<byte>>)
    ensures Wire(c, i, a + b) == Wire(c, i, a) + Wire(c, i + |a|, b)
  {
    ProtectAllConcat(c, i, a, b);
    FramesConcat(ProtectAll(c, i, a), ProtectAll(c, i + |a|, b));
  }

  lemma WireSnoc(c: Cipher, i: nat, a: seq<seq<byte>>, m: seq<byte>)
    ensures Wire(c, i, a + [m]) == Wire(c, i, a) + Frame(Protect(c, i + |a|, m))
  {
    hide Frame;
    WireConcat(c, i, a, [m]);
    WireHead(c, i + |a|, [m]);
    assert Frame(Protect(c, i + |a|, m)) + [] == Frame(Protect(c, i + |a|, m));
  }

  /** The packet at the head of what arrived so far is the one made from the first chunk. */
  lemma HeadPacket(c: Cipher, i: nat, chunks: seq<seq<byte>>, p: seq<byte>, rest: seq<byte>)
    requires Chunks(c, i, chunks) && |p| < U32_LIMIT
    requires Frame(p) + rest <= Wire(c, i, chunks)
    ensures chunks != [] && p == Protect(c, i, chunks[0]) && rest <= Wire(c, i + 1, chunks[1..])
    ensures Chunks(c, i + 1, chunks[1..])
  {
    hide FrameHeader, PayloadSize;
    var more := Wire(c, i, chunks)[|Frame(p) + rest|..];
    assert Wire(c, i, chunks) == Frame(p) + rest + more;
    Associative(Frame(p), rest, more);
    NextFrameOfFrame(p, rest + more);
    assert chunks != [];
    WireHead(c, i, chunks);
    NextFrameOfFrame(Protect(c, i, chunks[0]), Wire(c, i + 1, chunks[1..]));
    ChunksTail(c, i, 0, chunks);
  }

  // ----- The receiving loop on values -----

  /** How a loop ends: at the end of its input, or with an error from the secure or the plain side. */
  datatype End = Orderly | SecureFailed | PlainFailed

  datatype Pumped = Pumped(output: seq<byte>, end: End)

  /** What the receiving loop writes, and how it ends, when its own writes succeed. */
  function Pump(c: Cipher, i: nat, cap: nat, buf: seq<byte>, script: seq<ReadEvent>): Pumped
    requires |buf| <= cap + HEADER_SIZE
    decreases |buf| + |Data(script)|
  {
    ReceiveShrinks(cap, buf, script);
    var r := HalfReceive(c, i, cap, 1024, buf, script);
    match r.message
    case None => Pumped([], SecureFailed)
    case Some(m) =>
      if m == [] then Pumped([], Orderly)
      else
        var later := Pump(c, r.next, cap, r.buffered, r.script);
        later.(output := m + later.output)
  }

  lemma ReceiveShrinks(cap: nat, buf: seq<byte>, script: seq<ReadEvent>)
    requires |buf| <= cap + HEADER_SIZE
    ensures var r := Framing.Receive(cap, buf, script);
      |r.buffered| <= cap + HEADER_SIZE
      && (r.outcome.Delivered? ==> |r.buffered| + |Data(r.script)| < |buf| + |Data(script)|)
  {
    hide FrameHeader, PayloadSize;
    ReceiveConserves(cap, buf, script);
    var r := Framing.Receive(cap, buf, script);
    assert |buf + Data(script)| == |FrameOf(r.outcome)| + |r.buffered| + |Data(r.script)|;
  }

  /** The next message of a receiver that has so far seen a prefix of the sender's wire image, if it gets one. */
  lemma HeadMessage(c: Cipher, i: nat, cap: nat, buf: seq<byte>, script: seq<ReadEvent>, chunks: seq<seq<byte>>)
    requires |buf| <= cap + HEADER_SIZE && c.Invertible() && Chunks(c, i, chunks)
    requires buf + Data(script) <= Wire(c, i, chunks)
    ensures var r := HalfReceive(c, i, cap, CHUNK_SIZE, buf, script);
      r.message.Some? ==>
        && chunks != [] && r.message.value == chunks[0] && r.next == i + 1
        && Chunks(c, i + 1, chunks[1..]) && r.buffered + Data(r.script) <= Wire(c, i + 1, chunks[1..])
  {
    hide FrameHeader, PayloadSize, Framing.Receive;
    var r := Framing.Receive(cap, buf, script);
    ReceiveConserves(cap, buf, script);
    if r.outcome.Delivered? {
      var p := r.outcome.payload;
      Associative(Frame(p), r.buffered, Data(r.script));
      HeadPacket(c, i, chunks, p, r.buffered + Data(r.script));
      PlainOfProtect(c, i, cap, CHUNK_SIZE, chunks[0]);
    }
  }

  /** Whatever the buffer sizes, a reader of a protected packet gets the message or nothing. */
  lemma PlainOfProtect(c: Cipher, i: nat, size: nat, room: nat, m: seq<byte>)
    requires c.Invertible()
    ensures var packet := Protect(c, i, m);
      Unprotected(c, i, size, room, packet).Some? ==>
        Unprotected(c, i, size, room, packet) == Some((m, true)) && Unsealed(c, i, size, packet).Some?
  {
    var plain := TransportEncap.Packet(TransportEncap.App, m);
    var packet := Protect(c, i, m);
    assert packet[1..] == c.seal(i, plain) && plain[1..] == m;
  }

  /**
   Stream preservation, safety: as long as what has reached the receiver is a prefix of what the
   sender put on the wire, however fragmented and interrupted, what the receiving loop has written
   is a prefix of what the sending loop read. The loop never takes its orderly exit: a sender never
   produces the empty message that exit waits for.
   */
  lemma {:induction false} PumpSafe(c: Cipher, i: nat, cap: nat, buf: seq<byte>, script: seq<ReadEvent>,
      chunks: seq<seq<byte>>)
    requires |buf| <= cap + HEADER_SIZE && c.Invertible() && Chunks(c, i, chunks)
    requires buf + Data(script) <= Wire(c, i, chunks)
    ensures Pump(c, i, cap, buf, script).output <= Flatten(chunks)
    ensures Pump(c, i, cap, buf, script).end == SecureFailed
    decreases |buf| + |Data(script)|
  {
    hide FrameHeader, PayloadSize, Framing.Receive;
    var r := HalfReceive(c, i, cap, CHUNK_SIZE, buf, script);
    ReceiveShrinks(cap, buf, script);
    HeadMessage(c, i, cap, buf, script, chunks);
    if r.message.Some? {
      PumpSafe(c, i + 1, cap, r.buffered, r.script, chunks[1..]);
    }
  }

  /** Stream preservation, completeness: when every frame arrives, in any fragments, every byte is written. */
  lemma {:induction false} PumpComplete(c: Cipher, i: nat, cap: nat, buf: seq<byte>, script: seq<ReadEvent>,
      chunks: seq<seq<byte>>)
    requires |buf| <= cap + HEADER_SIZE && c.Invertible() && Chunks(c, i, chunks) && Fits(c, i, cap, chunks)
    requires Clean(script) && buf + Data(script) == Wire(c, i, chunks)
    ensures Pump(c, i, cap, buf, script).output == Flatten(chunks)
    decreases |chunks|
  {
    hide FrameHeader, PayloadSize, Framing.Receive;
    ReceiveShrinks(cap, buf, script);
    if chunks == [] {
      PumpSafe(c, i, cap, buf, script, chunks);
    } else {
      WireHead(c, i, chunks);
      ReceiveHead(cap, buf, script, Protect(c, i, chunks[0]), Wire(c, i + 1, chunks[1..]));
      UnprotectProtect(c, i, cap, CHUNK_SIZE, chunks[0]);
      HeadMessage(c, i, cap, buf, script, chunks);
      var r := HalfReceive(c, i, cap, CHUNK_SIZE, buf, script);
      ChunksTail(c, i, cap, chunks);
      PumpComplete(c, i + 1, cap, r.buffered, r.script, chunks[1..]);
    }
  }

  // ----- The two loops -----

  /** Chunks that a sender with these limits turns into frames, as messages `i`, `i + 1`, ... */
  ghost predicate Framed(c: Cipher, limit: nat, size: nat, i: nat, chunks: seq<seq<byte>>) {
    forall k :: 0 <= k < |chunks| ==> 0 < |chunks[k]| <= CHUNK_SIZE && Outgoing(c, limit, size, i + k, chunks[k]).Some?
  }

  lemma FramedFits(c: Cipher, limit: nat, size: nat, i: nat, chunks: seq<seq<byte>>)
    requires Framed(c, limit, size, i, chunks) && size < U32_LIMIT
    ensures Chunks(c, i, chunks) && Fits(c, i, size, chunks)
    ensures forall k :: 0 <= k < |chunks| && limit != 0 ==> |chunks[k]| <= limit
  {
    assert forall k :: 0 <= k < |chunks| ==> Outgoing(c, limit, size, i + k, chunks[k]) == Some(Protect(c, i + k, chunks[k]));
  }

  /** The last chunk's send failed after `n` bytes of its frame. */
  ghost predicate CutShort(c: Cipher, i: nat, chunks: seq<seq<byte>>, wire: seq<byte>, n: nat) {
    && chunks != []
    && var last := |chunks| - 1;
       var frame := Frame(Protect(c, i + last, chunks[last]));
       n <= |frame| && wire == Wire(c, i, chunks[..last]) + frame[..n]
  }

  /**
   What a sending loop has done when it ends in this way: every chunk is framed whole, or a send
   failed, either part-way through the last chunk's frame or before it wrote anything of `lost`.
   */
  ghost predicate Forwarded(c: Cipher, limit: nat, size: nat, i: nat, end: End,
      chunks: seq<seq<byte>>, wire: seq<byte>, lost: seq<byte>)
  {
    && Framed(c, limit, size, i, chunks)
    && if end.SecureFailed? && lost == [] then exists n: nat :: CutShort(c, i, chunks, wire, n)
       else
         && wire == Wire(c, i, chunks)
         && (if end.SecureFailed? then |lost| <= CHUNK_SIZE && Outgoing(c, limit, size, i + |chunks|, lost).None? else lost == [])
  }

  /** A further chunk, of whose frame `n` bytes got onto the wire. */
  lemma AttemptedChunk(c: Cipher, i: nat, cap: nat, limit: nat, chunks: seq<seq<byte>>, m: seq<byte>, n: nat)
    requires Framed(c, limit, cap, i, chunks)
    requires 0 < |m| <= CHUNK_SIZE && cap < U32_LIMIT && Outgoing(c, limit, cap, i + |chunks|, m).Some?
    requires n <= |Frame(Protect(c, i + |chunks|, m))|
    ensures Framed(c, limit, cap, i, chunks + [m])
    ensures CutShort(c, i, chunks + [m], Wire(c, i, chunks) + Frame(Protect(c, i + |chunks|, m))[..n], n)
    ensures Flatten(chunks + [m]) == Flatten(chunks) + m
    ensures Wire(c, i, chunks + [m]) == Wire(c, i, chunks) + Frame(Protect(c, i + |chunks|, m))
    ensures Wire(c, i, chunks) + Frame(Protect(c, i + |chunks|, m))[..n] <= Wire(c, i, chunks + [m])
  {
    hide Frame, Wire, Protect, Outgoing, Framed;
    FlattenSnoc(chunks, m);
    WireSnoc(c, i, chunks, m);
    FramedSnoc(c, limit, cap, i, chunks, m);
    assert (chunks + [m])[..|chunks|] == chunks;
    var wire, frame := Wire(c, i, chunks), Frame(Protect(c, i + |chunks|, m));
    assert wire + frame[..n] == (wire + frame)[..|wire| + n];
  }

  lemma FramedSnoc(c: Cipher, limit: nat, size: nat, i: nat, chunks: seq<seq<byte>>, m: seq<byte>)
    requires Framed(c, limit, size, i, chunks)
    requires 0 < |m| <= CHUNK_SIZE && Outgoing(c, limit, size, i + |chunks|, m).Some?
    ensures Framed(c, limit, size, i, chunks + [m])
  {
    hide Outgoing;
  }

  lemma NothingSent(c: Cipher, limit: nat, size: nat, i: nat)
    ensures Wire(c, i, []) == [] && Framed(c, limit, size, i, [])
  {
  }

  lemma OutgoingIsProtected(c: Cipher, limit: nat, size: nat, i: nat, m: seq<byte>)
    ensures Outgoing(c, limit, size, i, m).Some? ==> Outgoing(c, limit, size, i, m) == Some(Protect(c, i, m)) && Counted(limit, size, m)
  {
  }

  /** What reads of at most 1024 bytes get from a plain socket until one gets nothing, and whether that one was at its end. */
  datatype Pull = Pull(chunks: seq<seq<byte>>, atEnd: bool)

  function Pulled(script: seq<ReadEvent>): Pull
    decreases |Data(script)|
  {
    var (event, later) := ReadSome(script, 1024);
    match event
    case ReadError => Pull([], false)
    case Chunk(data) =>
      if data == [] then Pull([], true)
      else
        assert |Data(script)| == |data| + |Data(later)|;
        Pull([data] + Pulled(later).chunks, Pulled(later).atEnd)
  }

  /**
   The chunks are non-empty, at most 1024 bytes long and the first bytes of the socket in order; they
   are all of its bytes, up to its end, if no read fails or comes back empty before that.
   */
  lemma {:induction false} PulledExact(script: seq<ReadEvent>)
    ensures forall k :: 0 <= k < |Pulled(script).chunks| ==> 0 < |Pulled(script).chunks[k]| <= 1024
    ensures Flatten(Pulled(script).chunks) <= Data(script)
    ensures Clean(script) ==> Flatten(Pulled(script).chunks) == Data(script) && Pulled(script).atEnd
    decreases |Data(script)|
  {
    var (event, later) := ReadSome(script, CHUNK_SIZE);
    if event.Chunk? && event.data != [] {
      assert |Data(script)| == |event.data| + |Data(later)|;
      PulledExact(later);
      assert Pulled(script).chunks[1..] == Pulled(later).chunks;
      if Clean(script) {
        ReadSomeClean(script, CHUNK_SIZE);
      }
    } else if Clean(script) && script != [] {
      ReadSomeClean(script, CHUNK_SIZE);
      assert false;
    }
  }

  /** One read of at most a chunk, through the loop's buffer. */
  method ReadChunk(ingress: ByteStream, buf: array<byte>) returns (r: Option<seq<byte>>)
    requires buf.Length == CHUNK_SIZE
    modifies ingress`script, ingress`consumed, buf
    ensures var (event, later) := ReadSome(old(ingress.script), CHUNK_SIZE);
      && ingress.script == later
      && r == (if event.Chunk? then Some(event.data) else None)
      && ingress.consumed == old(ingress.consumed) + (if event.Chunk? then event.data else [])
  {
    ghost var (event, later) := ReadSome(ingress.script, CHUNK_SIZE);
    var received := ingress.Read(buf, 0);
    if received.None? {
      return None;
    }
    assert buf[..received.value] == event.data;
    return Some(buf[..received.value]);
  }

  /**
   How far a sending loop got with what its socket holds: to where the reads stop, or to a chunk
   whose send failed.
   */
  ghost predicate Sent(pulled: Pull, end: End, chunks: seq<seq<byte>>, lost: seq<byte>) {
    match end
    case Orderly => chunks == pulled.chunks && pulled.atEnd
    case PlainFailed => chunks == pulled.chunks && !pulled.atEnd
    case SecureFailed =>
      var attempted := chunks + if lost == [] then [] else [lost];
      attempted != [] && attempted <= pulled.chunks
  }

  lemma PulledUnrolled(script: seq<ReadEvent>)
    ensures var (event, later) := ReadSome(script, CHUNK_SIZE);
      match event
      case ReadError => Pulled(script) == Pull([], false)
      case Chunk(m) =>
        && |m| <= CHUNK_SIZE
        && (m == [] ==> Pulled(script) == Pull([], true))
        && (m != [] ==>
              |Data(later)| < |Data(script)| && Pulled(script) == Pull([m] + Pulled(later).chunks, Pulled(later).atEnd))
  {
    var (event, later) := ReadSome(script, CHUNK_SIZE);
    assert |Data(script)| == |if event.Chunk? then event.data else []| + |Data(later)|;
  }

  lemma Regrouped<T>(a: seq<T>, x: T, b: seq<T>)
    ensures a + ([x] + b) == a + [x] + b && a + [] == a
  {
  }

  /** A send of one chunk: its frame is on the wire, or a part of it if the socket failed, or nothing. */
  method SendChunk(half: WriteHalf, m: seq<byte>) returns (ok: bool, ghost n: nat)
    requires half.device.Valid()
    modifies half.common`sent, half.device.stream`written, half.device.stream`failures
    ensures var c, i := half.common.outbound, old(half.common.sent);
      var outgoing, frame := Outgoing(c, half.common.transferLimit, half.senderSize, i, m), Frame(Protect(c, i, m));
      && (outgoing.None? ==> !ok && n == 0)
      && n <= |frame| && (ok ==> n == |frame| && half.common.sent == i + 1)
      && half.device.stream.written == old(half.device.stream.written) + frame[..n]
      && half.device.stream.failures == old(half.device.stream.failures) + if outgoing.Some? && !ok then 1 else 0
  {
    hide FrameHeader, Frame, Outgoing, Protect;
    ghost var i, frame := half.common.sent, Frame(Protect(half.common.outbound, half.common.sent, m));
    ok := half.Send(m);
    OutgoingIsProtected(half.common.outbound, half.common.transferLimit, half.senderSize, i, m);
    if Outgoing(half.common.outbound, half.common.transferLimit, half.senderSize, i, m).None? {
      n := 0;
    } else if ok {
      n := |frame|;
      assert frame[..n] == frame;
    } else {
      n :| 0 <= n <= |frame| && half.device.stream.written == old(half.device.stream.written) + frame[..n];
    }
  }

  /**
   Forwards from the plain socket into the tunnel until the socket ends or something fails. The
   chunks that got as far as a frame are `chunks`, and `wire` is what the loop put on the wire, all
   of their frames unless the last send failed. Bytes read for a send that failed before it wrote
   anything are `lost`. A send fails only where the message cannot go out or the secure socket fails.
   */
  method ForwardIntoTunnel(ingress: ByteStream, half: WriteHalf)
    returns (end: End, ghost chunks: seq<seq<byte>>, ghost wire: seq<byte>, ghost lost: seq<byte>)
    requires half.device.Valid() && ingress != half.device.stream && half.senderSize < U32_LIMIT
    modifies ingress`script, ingress`consumed, half.common`sent
    modifies half.device.stream`written, half.device.stream`failures, half.device.stream`shutDown
    ensures Sent(Pulled(old(ingress.script)), end, chunks, lost)
    ensures half.device.stream.failures == old(half.device.stream.failures) + if end.SecureFailed? && lost == [] then 1 else 0
    ensures ingress.consumed == old(ingress.consumed) + Flatten(chunks) + lost
    ensures Chunks(half.common.outbound, old(half.common.sent), chunks)
    ensures Fits(half.common.outbound, old(half.common.sent), half.senderSize, chunks)
    ensures half.device.stream.written == old(half.device.stream.written) + wire
    ensures wire <= Wire(half.common.outbound, old(half.common.sent), chunks)
    ensures end != SecureFailed ==> lost == [] && wire == Wire(half.common.outbound, old(half.common.sent), chunks)
    ensures Forwarded(half.common.outbound, half.common.transferLimit, half.senderSize, old(half.common.sent),
              end, chunks, wire, lost)
    ensures half.device.stream.shutDown == (old(half.device.stream.shutDown) || end.Orderly?)
  {
    hide FrameHeader, PayloadSize, Wire, Outgoing, Pulled, ReadSome, Frame, Protect, Chunks, Fits, Framed;
    ghost var pulled := Pulled(ingress.script);
    var buf := new byte[CHUNK_SIZE](_ => 0);
    ghost var c, i, limit, size := half.common.outbound, half.common.sent, half.common.transferLimit, half.senderSize;
    chunks, wire, lost := [], [], [];
    assert wire == Wire(c, i, chunks) && Framed(c, limit, size, i, chunks) by { NothingSent(c, limit, size, i); }
    while true
      invariant lost == [] && ingress.consumed == old(ingress.consumed) + Flatten(chunks)
      invariant Framed(c, limit, size, i, chunks)
      invariant half.common.sent == i + |chunks|
      invariant half.device.stream.failures == old(half.device.stream.failures)
      invariant pulled == Pull(chunks + Pulled(ingress.script).chunks, Pulled(ingress.script).atEnd)
      invariant wire == Wire(c, i, chunks) && half.device.stream.written == old(half.device.stream.written) + wire
      invariant half.device.stream.shutDown == old(half.device.stream.shutDown)
      decreases |Data(ingress.script)|
    {
      FramedFits(c, limit, size, i, chunks);
      PulledUnrolled(ingress.script);
      var received := ReadChunk(ingress, buf);
      if received.None? {
        end := PlainFailed;
        return;
      }
      var m := received.value;
      if m == [] {
        half.Shutdown();
        end := Orderly;
        return;
      }
      ghost var frame := Frame(Protect(c, i + |chunks|, m));
      Regrouped(chunks, m, Pulled(ingress.script).chunks);
      Associative(old(ingress.consumed), Flatten(chunks), m);
      var ok, n := SendChunk(half, m);
      Associative(old(half.device.stream.written), wire, frame[..n]);
      if Outgoing(c, limit, size, i + |chunks|, m).None? {
        lost := m;
      } else {
        AttemptedChunk(c, i, size, limit, chunks, m, n);
        chunks, wire := chunks + [m], wire + frame[..n];
      }
      if !ok {
        end := SecureFailed;
        FramedFits(c, limit, size, i, chunks);
        return;
      }
      assert frame[..n] == frame;
    }
  }

  lemma PumpUnrolled(c: Cipher, i: nat, cap: nat, room: nat, buf: seq<byte>, script: seq<ReadEvent>)
    requires |buf| <= cap + HEADER_SIZE && room == CHUNK_SIZE
    ensures var r := HalfReceive(c, i, cap, room, buf, script);
      match r.message
      case None => Pump(c, i, cap, buf, script) == Pumped([], SecureFailed)
      case Some(m) =>
        && |r.buffered| <= cap + HEADER_SIZE && |r.buffered| + |Data(r.script)| < |buf| + |Data(script)|
        && (m == [] ==> Pump(c, i, cap, buf, script) == Pumped([], Orderly))
        && (m != [] ==>
              var later := Pump(c, r.next, cap, r.buffered, r.script);
              Pump(c, i, cap, buf, script) == later.(output := m + later.output))
  {
    hide Framing.Receive;
    ReceiveShrinks(cap, buf, script);
  }

  /** Forwards from the tunnel to the plain socket until a receive or a write fails, or an empty message comes. */
  method ForwardOutOfTunnel(half: ReadHalf, egress: ByteStream) returns (end: End)
    requires half.device.Valid() && egress != half.device.stream
    modifies half.common`received, half.device`readRemain, half.device`delivered, half.device.readBuffer
    modifies half.device.stream`script, half.device.stream`consumed, egress`written, egress`failures, egress`shutDown
    ensures half.device.Valid()
    ensures egress.failures == old(egress.failures) + if end.PlainFailed? then 1 else 0
    ensures var pumped := Pump(half.common.inbound, old(half.common.received), half.device.cap,
        old(half.device.Buffered()), old(half.device.stream.script));
      && (end != PlainFailed ==> end == pumped.end && egress.written == old(egress.written) + pumped.output)
      && (end == PlainFailed ==> pumped.output != [])
      && (end == PlainFailed ==> exists written :: written <= pumped.output && egress.written == old(egress.written) + written)
    ensures egress.shutDown == (old(egress.shutDown) || end.Orderly?)
  {
    hide FrameHeader, PayloadSize, Framing.Receive, HalfReceive, Pump;
    var buf := new byte[CHUNK_SIZE](_ => 0);
    ghost var output := [];
    ghost var c, cap := half.common.inbound, half.device.cap;
    ghost var pumped := Pump(c, half.common.received, cap, half.device.Buffered(), half.device.stream.script);
    while true
      invariant half.device.Valid()
      invariant egress.written == old(egress.written) + output && egress.failures == old(egress.failures)
      invariant var rest := Pump(c, half.common.received, cap, half.device.Buffered(), half.device.stream.script);
        pumped == rest.(output := output + rest.output)
      invariant egress.shutDown == old(egress.shutDown)
      decreases |half.device.Buffered()| + |Data(half.device.stream.script)|
    {
      ghost var rest := Pump(c, half.common.received, cap, half.device.Buffered(), half.device.stream.script);
      PumpUnrolled(c, half.common.received, cap, buf.Length, half.device.Buffered(), half.device.stream.script);
      var received := half.Receive(buf);
      if received.None? {
        assert output + [] == output;
        return SecureFailed;
      }
      if received.value == 0 {
        egress.Shutdown();
        assert output + [] == output;
        return Orderly;
      }
      var m := buf[..received.value];
      ghost var tail := rest.output[|m|..];
      assert rest.output == m + tail;
      Associative(output, m, tail);
      ghost var written := egress.written;
      var ok := egress.WriteAll(m);
      if !ok {
        ghost var n :| 0 <= n <= |m| && egress.written == written + m[..n];
        Associative(old(egress.written), output, m[..n]);
        assert output + m[..n] <= pumped.output;
        return PlainFailed;
      }
      Associative(old(egress.written), output, m);
      output := output + m;
    }
  }
}
