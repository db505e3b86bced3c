/**
 `SimpleTransportEncap`: a one-byte type in front of a message, written into and read out of buffers
 that the caller supplies.
 */
module TransportEncap {
  import opened Wrappers
  import opened Bytes
  import opened Buffers

  datatype MessageType = Spdm | Secured | App | Unknown(value: byte)

  function TypeByte(kind: MessageType): byte {
    match kind
    case Spdm => 0x00
    case Secured => 0x01
    case App => 0x02
    case Unknown(v) => v
  }

  function TypeOf(b: byte): MessageType {
    if b == 0x00 then Spdm else if b == 0x01 then Secured else if b == 0x02 then App else Unknown(b)
  }

  function Packet(kind: MessageType, payload: seq<byte>): seq<byte> {
    [TypeByte(kind)] + payload
  }

  /** What `decap` reads from a packet into a buffer of `room` bytes: the payload, and whether it is secured. */
  function Decapsulated(packet: seq<byte>, room: nat): Option<(seq<byte>, bool)> {
    if packet == [] then None
    else
      var kind := TypeOf(packet[0]);
      if kind != Spdm && kind != Secured then None
      else if room < |packet| - 1 then None
      else Some((packet[1..], kind == Secured))
  }

  /** What `decap_app` reads: the payload, and whether it is an application message. */
  function DecapsulatedApp(packet: seq<byte>, room: nat): Option<(seq<byte>, bool)> {
    if packet == [] then None
    else
      var kind := TypeOf(packet[0]);
      if kind != Spdm && kind != App then None
      else if room < |packet| - 1 then None
      else Some((packet[1..], kind == App))
  }

  /** `decap` accepts exactly what `encap` writes, when it fits, and gives back the payload and the flag. */
  lemma DecapExact(packet: seq<byte>, room: nat, payload: seq<byte>, secured: bool)
    ensures Decapsulated(packet, room) == Some((payload, secured))
      <==> packet == [if secured then 0x01 else 0x00] + payload && |payload| <= room
  {
    if packet != [] {
      assert packet == [packet[0]] + packet[1..];
    }
  }

  lemma DecapAppExact(packet: seq<byte>, room: nat, payload: seq<byte>, isApp: bool)
    ensures DecapsulatedApp(packet, room) == Some((payload, isApp))
      <==> packet == [if isApp then 0x02 else 0x00] + payload && |payload| <= room
  {
    if packet != [] {
      assert packet == [packet[0]] + packet[1..];
    }
  }

  /** The two layers do not mix: only `Spdm` packets, with the flag off, pass both readers. */
  lemma LayersDisjoint(packet: seq<byte>, room: nat)
    ensures Decapsulated(packet, room).Some? && DecapsulatedApp(packet, room).Some?
      <==> exists payload :: packet == [0x00] + payload && |payload| <= room
  {
    if Decapsulated(packet, room).Some? && DecapsulatedApp(packet, room).Some? {
      assert packet == [0x00] + packet[1..];
    }
  }

  /**
   The common body of `encap` and `encap_app`: the type byte is written before the room for the
   payload is checked.
   */
  method Write(kind: MessageType, payload: seq<byte>, buffer: array<byte>) returns (used: Option<nat>)
    modifies buffer
    ensures used == if 1 + |payload| <= buffer.Length then Some(1 + |payload|) else None
    ensures used.Some? ==> buffer[..] == Packet(kind, payload) + old(buffer[1 + |payload|..])
    ensures used.None? ==> buffer[..] == if buffer.Length == 0 then [] else [TypeByte(kind)] + old(buffer[1..])
  {
    if buffer.Length == 0 {
      return None;
    }
    buffer[0] := TypeByte(kind);
    assert buffer[..] == [TypeByte(kind)] + old(buffer[1..]);
    if buffer.Length < 1 + |payload| {
      return None;
    }
    CopyInto(buffer, 1, payload);
    return Some(1 + |payload|);
  }

  method Encap(payload: seq<byte>, transportBuffer: array<byte>, secured: bool) returns (used: Option<nat>)
    modifies transportBuffer
    ensures used == if 1 + |payload| <= transportBuffer.Length then Some(1 + |payload|) else None
    ensures used.Some? ==>
      transportBuffer[..] == [if secured then 0x01 else 0x00] + payload + old(transportBuffer[1 + |payload|..])
    ensures used.None? && transportBuffer.Length > 0 ==>
      transportBuffer[..] == [if secured then 0x01 else 0x00] + old(transportBuffer[1..])
  {
    used := Write(if secured then Secured else Spdm, payload, transportBuffer);
  }

  method EncapApp(payload: seq<byte>, appBuffer: array<byte>, isApp: bool) returns (used: Option<nat>)
    modifies appBuffer
    ensures used == if 1 + |payload| <= appBuffer.Length then Some(1 + |payload|) else None
    ensures used.Some? ==>
      appBuffer[..] == [if isApp then 0x02 else 0x00] + payload + old(appBuffer[1 + |payload|..])
    ensures used.None? && appBuffer.Length > 0 ==>
      appBuffer[..] == [if isApp then 0x02 else 0x00] + old(appBuffer[1..])
  {
    used := Write(if isApp then App else Spdm, payload, appBuffer);
  }

  /**
   Copies the payload to the front of `spdmBuffer`; the bytes beyond it, and everything on failure,
   stay as they were.
   */
  method Decap(packet: seq<byte>, spdmBuffer: array<byte>) returns (r: Option<(nat, bool)>)
    modifies spdmBuffer
    ensures match Decapsulated(packet, spdmBuffer.Length)
      case Some((payload, secured)) =>
        r == Some((|payload|, secured)) && |payload| <= spdmBuffer.Length
        && spdmBuffer[..] == payload + old(spdmBuffer[|payload|..])
      case None => r == None && spdmBuffer[..] == old(spdmBuffer[..])
  {
    if packet == [] {
      return None;
    }
    var secured;
    match TypeOf(packet[0]) {
      case Spdm => secured := false;
      case Secured => secured := true;
      case _ => return None;
    }
    var payload := packet[1..];
    if spdmBuffer.Length < |payload| {
      return None;
    }
    CopyInto(spdmBuffer, 0, payload);
    return Some((|payload|, secured));
  }

  method DecapApp(packet: seq<byte>, spdmBuffer: array<byte>) returns (r: Option<(nat, bool)>)
    modifies spdmBuffer
    ensures match DecapsulatedApp(packet, spdmBuffer.Length)
      case Some((payload, isApp)) =>
        r == Some((|payload|, isApp)) && |payload| <= spdmBuffer.Length
        && spdmBuffer[..] == payload + old(spdmBuffer[|payload|..])
      case None => r == None && spdmBuffer[..] == old(spdmBuffer[..])
  {
    if packet == [] {
      return None;
    }
    var isApp := false;
    match TypeOf(packet[0]) {
      case Spdm =>
      case App => isApp := true;
      case _ => return None;
    }
    var payload := packet[1..];
    if spdmBuffer.Length < |payload| {
      return None;
    }
    CopyInto(spdmBuffer, 0, payload);
    return Some((|payload|, isApp));
  }
}
