/**
 `WriteHalf::send` and `ReadHalf::receive`: sealing, encapsulation and framing put together.
 The session's record protection is a pair of functions of the message number, of which nothing is
 known but what a caller assumes of it.
 */
module SecureHalf {
  import opened Wrappers
  import opened Bytes
  import opened Framing
  import opened FramedStreams
  import opened TransportEncap

  datatype Cipher = Cipher(seal: (nat, seq<byte>) -> seq<byte>, open: (nat, seq<byte>) -> Option<seq<byte>>) {
    ghost predicate Invertible() {
      forall i: nat, m: seq<byte> :: open(i, seal(i, m)) == Some(m)
    }
  }

  /** The packet for the `i`-th message: an application packet, sealed, in a secured packet. */
  function Protect(c: Cipher, i: nat, message: seq<byte>): seq<byte> {
    TransportEncap.Packet(Secured, c.seal(i, TransportEncap.Packet(App, message)))
  }

  function ProtectAll(c: Cipher, i: nat, messages: seq<seq<byte>>): (packets: seq<seq<byte>>)
    ensures |packets| == |messages|
    ensures forall k :: 0 <= k < |messages| ==> packets[k] == Protect(c, i + k, messages[k])
    decreases |messages|
  {
    if messages == [] then [] else [Protect(c, i, messages[0])] + ProtectAll(c, i + 1, messages[1..])
  }

  lemma ProtectAllConcat(c: Cipher, i: nat, a: seq<seq<byte>>, b: seq<seq<byte>>)
    ensures ProtectAll(c, i, a + b) == ProtectAll(c, i, a) + ProtectAll(c, i + |a|, b)
  {
    var left, right := ProtectAll(c, i, a + b), ProtectAll(c, i, a) + ProtectAll(c, i + |a|, b);
    assert forall k :: 0 <= k < |left| ==> left[k] == right[k];
  }

  /** What `send` puts in a frame, or `None` where it fails before anything is written. */
  function Outgoing(c: Cipher, limit: nat, size: nat, i: nat, message: seq<byte>): Option<seq<byte>> {
    if limit != 0 && |message| > limit then None
    else if 1 + |message| > size then None
    else
      var packet := Protect(c, i, message);
      if |packet| > size then None else Some(packet)
  }

  /**
   A message goes out exactly when it is within the negotiated limit and its packets fit the buffers,
   as an application packet sealed in a secured packet.
   */
  lemma OutgoingExact(c: Cipher, limit: nat, size: nat, i: nat, message: seq<byte>, packet: seq<byte>)
    ensures Outgoing(c, limit, size, i, message) == Some(packet) <==>
      && packet == [0x01] + c.seal(i, [0x02] + message)
      && (limit == 0 || |message| <= limit) && 1 + |message| <= size && |packet| <= size
  {
  }

  /** Whether a message gets as far as being sealed, and so takes a message number, whatever becomes of its packet. */
  predicate Counted(limit: nat, size: nat, message: seq<byte>) {
    (limit != 0 ==> |message| <= limit) && 1 + |message| <= size
  }

  /** The plaintext of a secured packet. */
  function Unsealed(c: Cipher, i: nat, size: nat, packet: seq<byte>): Option<seq<byte>> {
    var (sealed, secured) :- Decapsulated(packet, size);
    if !secured then None
    else
      var plain :- c.open(i, sealed);
      if |plain| > size then None else Some(plain)
  }

  /**
   What `decode_secured_message` reads from a packet into a buffer of `room` bytes: the message, and
   whether it is the application's.
   */
  function Unprotected(c: Cipher, i: nat, size: nat, room: nat, packet: seq<byte>): Option<(seq<byte>, bool)> {
    var plain :- Unsealed(c, i, size, packet);
    DecapsulatedApp(plain, room)
  }

  /**
   Exactly the packets of the documented nesting are legal: a secured packet whose content opens to
   an application packet or an SPDM packet, of sizes the buffers hold.
   */
  lemma UnprotectedExact(c: Cipher, i: nat, size: nat, room: nat, packet: seq<byte>, message: seq<byte>, isApp: bool)
    ensures Unprotected(c, i, size, room, packet) == Some((message, isApp)) <==>
      exists sealed ::
        && packet == [0x01] + sealed && |sealed| <= size
        && c.open(i, sealed) == Some([if isApp then 0x02 else 0x00] + message)
        && 1 + |message| <= size && |message| <= room
  {
    if Unprotected(c, i, size, room, packet) == Some((message, isApp)) {
      DecapExact(packet, size, packet[1..], true);
      DecapAppExact(c.open(i, packet[1..]).value, room, message, isApp);
    }
    var plain := [if isApp then 0x02 else 0x00] + message;
    if packet != [] && packet[0] == 0x01 {
      assert packet == [0x01] + packet[1..];
      DecapExact(packet, size, packet[1..], true);
      DecapAppExact(plain, room, message, isApp);
    }
  }

  /** The reader with the same message number gets the message back. */
  lemma UnprotectProtect(c: Cipher, i: nat, size: nat, room: nat, message: seq<byte>)
    requires c.Invertible()
    requires 1 + |message| <= size && |Protect(c, i, message)| <= size && |message| <= room
    ensures Unprotected(c, i, size, room, Protect(c, i, message)) == Some((message, true))
  {
    var plain := TransportEncap.Packet(App, message);
    DecapExact(Protect(c, i, message), size, c.seal(i, plain), true);
    DecapAppExact(plain, room, message, true);
  }

  /** The session state both halves share; each direction counts its own messages. */
  class SpdmContext {
    const outbound: Cipher
    const inbound: Cipher
    const transferLimit: nat
    var sent: nat
    var received: nat

    constructor (outbound: Cipher, inbound: Cipher, transferLimit: nat)
      ensures this.outbound == outbound && this.inbound == inbound && this.transferLimit == transferLimit
      ensures sent == 0 && received == 0
    {
      this.outbound, this.inbound, this.transferLimit := outbound, inbound, transferLimit;
      sent, received := 0, 0;
    }

    method EncodeSecuredMessage(message: seq<byte>, transportBuffer: array<byte>) returns (used: Option<nat>)
      modifies this`sent, transportBuffer
      ensures used == match Outgoing(outbound, 0, transportBuffer.Length, old(sent), message)
        case Some(packet) => Some(|packet|)
        case None => None
      ensures used.Some? ==>
        && used.value <= transportBuffer.Length
        && transportBuffer[..used.value] == Protect(outbound, old(sent), message)
      ensures sent == old(sent) + if Counted(0, transportBuffer.Length, message) then 1 else 0
    {
      var appBuffer := new byte[transportBuffer.Length](_ => 0);
      var n := EncapApp(message, appBuffer, true);
      if n.None? {
        return None;
      }
      assert appBuffer[..n.value] == TransportEncap.Packet(App, message);
      var sealed := outbound.seal(sent, appBuffer[..n.value]);
      sent := sent + 1;
      used := Encap(sealed, transportBuffer, true);
    }

    method DecodeSecuredMessage(packet: seq<byte>, size: nat, buf: array<byte>) returns (r: Option<(nat, bool)>)
      modifies this`received, buf
      ensures match Unprotected(inbound, old(received), size, buf.Length, packet)
        case Some((m, isApp)) => r == Some((|m|, isApp)) && |m| <= buf.Length && buf[..] == m + old(buf[|m|..])
        case None => r == None && buf[..] == old(buf[..])
      ensures received == old(received) + if Unsealed(inbound, old(received), size, packet).Some? then 1 else 0
    {
      var sealedBuffer := new byte[size](_ => 0);
      var outer := Decap(packet, sealedBuffer);
      if outer.None? || !outer.value.1 {
        return None;
      }
      var plain := inbound.open(received, sealedBuffer[..outer.value.0]);
      assert sealedBuffer[..outer.value.0] == Decapsulated(packet, size).value.0;
      if plain.None? || |plain.value| > size {
        return None;
      }
      received := received + 1;
      r := DecapApp(plain.value, buf);
    }
  }

  class WriteHalf {
    const common: SpdmContext
    const device: FramedStream
    const senderSize: nat

    constructor (common: SpdmContext, device: FramedStream, senderSize: nat)
      ensures this.common == common && this.device == device && this.senderSize == senderSize
    {
      this.common, this.device, this.senderSize := common, device, senderSize;
    }

    /**
     Succeeds exactly when the message can go out and the socket does not fail, with exactly one more
     frame on the wire; fails with none of it, or with a prefix if the socket failed.
     */
    method Send(message: seq<byte>) returns (ok: bool)
      requires device.Valid()
      modifies common`sent, device.stream`written, device.stream`failures
      ensures ok <==>
        && (common.transferLimit == 0 || |message| <= common.transferLimit) && 1 + |message| <= senderSize
        && 1 + |common.outbound.seal(old(common.sent), [0x02] + message)| <= senderSize
        && device.stream.failures == old(device.stream.failures)
      ensures var packet := [0x01] + common.outbound.seal(old(common.sent), [0x02] + message);
        ok ==> device.stream.written == old(device.stream.written) + Frame(packet)
      ensures device.stream.failures == old(device.stream.failures)
        + if Outgoing(common.outbound, common.transferLimit, senderSize, old(common.sent), message).Some? && !ok then 1 else 0
      ensures match Outgoing(common.outbound, common.transferLimit, senderSize, old(common.sent), message)
        case Some(packet) =>
          var before, frame := old(device.stream.written), Frame(packet);
          && (ok ==> device.stream.written == before + frame)
          && (!ok ==> exists n :: 0 <= n <= |frame| && device.stream.written == before + frame[..n])
        case None => !ok && device.stream.written == old(device.stream.written)
      ensures common.sent == old(common.sent) + if Counted(common.transferLimit, senderSize, message) then 1 else 0
    {
      hide FrameHeader;
      var transportBuffer := new byte[senderSize](_ => 0);
      if common.transferLimit != 0 && |message| > common.transferLimit {
        return false;
      }
      var used := common.EncodeSecuredMessage(message, transportBuffer);
      if used.None? {
        return false;
      }
      ok := device.Send(transportBuffer[..used.value]);
    }

    method Shutdown()
      modifies device.stream`shutDown
      ensures device.stream.shutDown
    {
      device.stream.Shutdown();
    }
  }

  /** A `ReadHalf::receive` call on values: the message it returns, and the state it leaves. */
  datatype HalfReceived = HalfReceived(message: Option<seq<byte>>, next: nat, buffered: seq<byte>, script: seq<ReadEvent>)

  function HalfReceive(c: Cipher, i: nat, cap: nat, room: nat, buf: seq<byte>, script: seq<ReadEvent>): HalfReceived
    requires |buf| <= cap + HEADER_SIZE
  {
    var r := Framing.Receive(cap, buf, script);
    match r.outcome
    case Delivered(packet) =>
      var next := i + if Unsealed(c, i, cap, packet).Some? then 1 else 0;
      var message := match Unprotected(c, i, cap, room, packet)
        case Some((m, isApp)) => if isApp then Some(m) else None
        case None => None;
      HalfReceived(message, next, r.buffered, r.script)
    case _ => HalfReceived(None, i, r.buffered, r.script)
  }

  /**
   A message is returned exactly when a frame arrives whole and holds a secured packet that opens to
   an application packet with it, of sizes the buffers hold.
   */
  lemma HalfReceiveExact(c: Cipher, i: nat, cap: nat, room: nat, buf: seq<byte>, script: seq<ReadEvent>, message: seq<byte>)
    requires |buf| <= cap + HEADER_SIZE
    ensures HalfReceive(c, i, cap, room, buf, script).message == Some(message) <==>
      exists sealed ::
        && Framing.Receive(cap, buf, script).outcome == Delivered([0x01] + sealed) && |sealed| <= cap
        && c.open(i, sealed) == Some([0x02] + message)
        && 1 + |message| <= cap && |message| <= room
  {
    hide Framing.Receive, Unprotected, Unsealed;
    var r := Framing.Receive(cap, buf, script);
    if r.outcome.Delivered? {
      UnprotectedExact(c, i, cap, room, r.outcome.payload, message, true);
      if HalfReceive(c, i, cap, room, buf, script).message == Some(message) {
        assert Unprotected(c, i, cap, room, r.outcome.payload) == Some((message, true));
      }
    }
  }

  /** What a number of successive calls return, and the state they leave. */
  datatype HalfRun = HalfRun(messages: seq<Option<seq<byte>>>, next: nat, buffered: seq<byte>, script: seq<ReadEvent>)

  function HalfReceiveMany(c: Cipher, i: nat, cap: nat, room: nat, buf: seq<byte>, script: seq<ReadEvent>, calls: nat):
      (run: HalfRun)
    requires |buf| <= cap + HEADER_SIZE
    ensures |run.messages| == calls && |run.buffered| <= cap + HEADER_SIZE
    decreases calls
  {
    if calls == 0 then HalfRun([], i, buf, script)
    else
      var before := HalfReceiveMany(c, i, cap, room, buf, script, calls - 1);
      ReceiveConserves(cap, before.buffered, before.script);
      var r := HalfReceive(c, before.next, cap, room, before.buffered, before.script);
      HalfRun(before.messages + [r.message], r.next, r.buffered, r.script)
  }

  /** The half takes exactly the frames off the stream that as many bare `receive` calls would take. */
  lemma {:induction false} HalfRunTakesFrames(c: Cipher, i: nat, cap: nat, room: nat, buf: seq<byte>,
      script: seq<ReadEvent>, calls: nat)
    requires |buf| <= cap + HEADER_SIZE
    ensures var run := HalfReceiveMany(c, i, cap, room, buf, script, calls);
      var bare := ReceiveMany(cap, buf, script, calls);
      run.buffered == bare.buffered && run.script == bare.script
    decreases calls
  {
    hide FrameHeader, PayloadSize, Framing.Receive, Unsealed, Unprotected;
    if calls > 0 {
      HalfRunTakesFrames(c, i, cap, room, buf, script, calls - 1);
      RunHandover(cap, buf, script, calls - 1, 1);
      var before := ReceiveMany(cap, buf, script, calls - 1);
      ReceiveConserves(cap, before.buffered, before.script);
      var r := Framing.Receive(cap, before.buffered, before.script);
      assert ReceiveMany(cap, r.buffered, r.script, 0) == Run([], r.buffered, r.script);
    }
  }

  /** Messages whose packets fit the reader's buffers and the frame header. */
  ghost predicate Readable(c: Cipher, i: nat, cap: nat, room: nat, messages: seq<seq<byte>>) {
    forall k :: 0 <= k < |messages| ==>
      && 1 + |messages[k]| <= cap && |messages[k]| <= room
      && |Protect(c, i + k, messages[k])| <= cap && |Protect(c, i + k, messages[k])| < U32_LIMIT
  }

  lemma MessageOfPacket(c: Cipher, i: nat, size: nat, room: nat, message: seq<byte>)
    requires c.Invertible()
    requires 1 + |message| <= size && |Protect(c, i, message)| <= size && |message| <= room
    ensures Unprotected(c, i, size, room, Protect(c, i, message)) == Some((message, true))
    ensures Unsealed(c, i, size, Protect(c, i, message)).Some?
  {
    UnprotectProtect(c, i, size, room, message);
  }

  /** The next call returns the message in the frame at the head of the stream. */
  lemma HalfHead(c: Cipher, i: nat, cap: nat, room: nat, buf: seq<byte>, script: seq<ReadEvent>, message: seq<byte>,
      tail: seq<byte>)
    requires |buf| <= cap + HEADER_SIZE && c.Invertible() && Clean(script)
    requires Readable(c, i, cap, room, [message])
    requires buf + Data(script) == Frame(Protect(c, i, message)) + tail
    ensures var r := HalfReceive(c, i, cap, room, buf, script);
      r.message == Some(message) && r.next == i + 1 && Clean(r.script) && r.buffered + Data(r.script) == tail
  {
    hide FrameHeader, PayloadSize, Framing.Receive, Protect, Unsealed, Unprotected, Clean;
    assert [message][0] == message;
    ReceiveHead(cap, buf, script, Protect(c, i, message), tail);
    MessageOfPacket(c, i, cap, room, message);
  }

  lemma FramesFrom(c: Cipher, i: nat, messages: seq<seq<byte>>, n: nat)
    requires n < |messages|
    ensures Frames(ProtectAll(c, i + n, messages[n..])) ==
      Frame(Protect(c, i + n, messages[n])) + Frames(ProtectAll(c, i + n + 1, messages[n + 1..]))
  {
    hide Frame, Protect;
    assert messages[n..][1..] == messages[n + 1..];
    FramesCons(Protect(c, i + n, messages[n]), ProtectAll(c, i + n + 1, messages[n + 1..]));
  }

  /** The n-th call returns the n-th message the peer sealed, however its frames are fragmented. */
  lemma {:induction false} HalfFifo(c: Cipher, i: nat, cap: nat, room: nat, buf: seq<byte>, script: seq<ReadEvent>,
      messages: seq<seq<byte>>, tail: seq<byte>, calls: nat)
    requires |buf| <= cap + HEADER_SIZE && c.Invertible() && Clean(script) && calls <= |messages|
    requires Readable(c, i, cap, room, messages)
    requires buf + Data(script) == Frames(ProtectAll(c, i, messages)) + tail
    ensures var run := HalfReceiveMany(c, i, cap, room, buf, script, calls);
      && (forall k :: 0 <= k < calls ==> run.messages[k] == Some(messages[k]))
      && run.next == i + calls && Clean(run.script)
      && run.buffered + Data(run.script) == Frames(ProtectAll(c, i + calls, messages[calls..])) + tail
    decreases calls
  {
    hide Frame, Frames, ProtectAll, Protect, HalfReceive, Clean;
    if calls == 0 {
      assert messages[0..] == messages;
    } else {
      var n := calls - 1;
      HalfFifo(c, i, cap, room, buf, script, messages, tail, n);
      var before := HalfReceiveMany(c, i, cap, room, buf, script, n);
      var rest := Frames(ProtectAll(c, i + calls, messages[calls..]));
      FramesFrom(c, i, messages, n);
      Associative(Frame(Protect(c, i + n, messages[n])), rest, tail);
      HalfHead(c, i + n, cap, room, before.buffered, before.script, messages[n], rest + tail);
    }
  }

  class ReadHalf {
    const common: SpdmContext
    const device: FramedStream

    constructor (common: SpdmContext, device: FramedStream)
      ensures this.common == common && this.device == device
    {
      this.common, this.device := common, device;
    }

    method Receive(buf: array<byte>) returns (r: Option<nat>)
      requires device.Valid() && buf != device.readBuffer
      modifies common`received, device`readRemain, device`delivered, device.readBuffer
      modifies device.stream`script, device.stream`consumed, buf
      ensures device.Valid()
      ensures var result := HalfReceive(common.inbound, old(common.received), device.cap, buf.Length,
          old(device.Buffered()), old(device.stream.script));
        && device.Buffered() == result.buffered
        && device.stream.script == result.script
        && common.received == result.next
        && r == (match result.message case Some(m) => Some(|m|) case None => None)
        && (result.message.Some? ==> |result.message.value| <= buf.Length && buf[..|result.message.value|] == result.message.value)
      ensures old(device.Conserves()) ==> device.Conserves()
    {
      hide FrameHeader, PayloadSize, Framing.Receive;
      var transportBuffer := new byte[device.cap](_ => 0);
      var used := device.Receive(transportBuffer);
      if used.None? {
        return None;
      }
      ghost var packet := Framing.Receive(device.cap, old(device.Buffered()), old(device.stream.script)).outcome.payload;
      assert transportBuffer[..used.value] == packet;
      var decoded := common.DecodeSecuredMessage(transportBuffer[..used.value], device.cap, buf);
      if decoded.None? || !decoded.value.1 {
        return None;
      }
      return Some(decoded.value.0);
    }
  }
}
