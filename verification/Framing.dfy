/**
 The wire format of `FramedStream` and, on values, what one `receive` call and a run of `receive`
 calls do to it. The class in FramedStream.dfy works in place on a fixed buffer and is proved
 against `Receive`; everything about fragmentation, errors and order is proved here.
 */
module Framing {
  import opened Bytes

  const HEADER_SIZE: nat := 4
  const U32_LIMIT: nat := 0x1_0000_0000

  /** `u32::to_be` on a little-endian host: the four bytes of `x` in the opposite order. */
  function ToBigEndian(x: nat): (y: nat)
    requires x < U32_LIMIT
    ensures y < U32_LIMIT
  {
    Pow256Values();
    FromBE(ToLE(x, HEADER_SIZE))
  }

  /** The header `send` writes; the length is truncated to 32 bits. */
  function FrameHeader(length: nat): (h: seq<byte>)
    ensures |h| == HEADER_SIZE
  {
    ToLE(ToBigEndian(length % U32_LIMIT), HEADER_SIZE)
  }

  /** The payload size `receive` reads from the first four buffered bytes. */
  function PayloadSize(h: seq<byte>): (n: nat)
    requires HEADER_SIZE <= |h|
    ensures n < U32_LIMIT
  {
    Pow256Values();
    ToBigEndian(FromLE(h[..HEADER_SIZE]))
  }

  lemma ToBigEndianInvolutive(x: nat)
    requires x < U32_LIMIT
    ensures ToBigEndian(ToBigEndian(x)) == x
    ensures ToLE(ToBigEndian(x), HEADER_SIZE) == ToBE(x, HEADER_SIZE)
  {
    Pow256Values();
    var y := ToBigEndian(x);
    ToBEFromBE(ToLE(x, HEADER_SIZE));
    ToBEIsReversedToLE(y, HEADER_SIZE);
    ToBEIsReversedToLE(x, HEADER_SIZE);
    ReverseReverse(ToLE(y, HEADER_SIZE));
    FromBEToBE(x, HEADER_SIZE);
  }

  /** The two byte swaps cancel: a reader finds the length the writer put there, modulo 32 bits. */
  lemma HeaderRoundTrip(length: nat, rest: seq<byte>)
    ensures PayloadSize(FrameHeader(length) + rest) == length % 0x1_0000_0000
    ensures FrameHeader(length) == ToBE(length % 0x1_0000_0000, 4)
  {
    var n := length % U32_LIMIT;
    Pow256Values();
    assert (FrameHeader(length) + rest)[..HEADER_SIZE] == FrameHeader(length);
    FromLEToLE(ToBigEndian(n), HEADER_SIZE);
    ToBigEndianInvolutive(n);
  }

  /** Every four bytes are the header of exactly one length. */
  lemma HeaderOfPayloadSize(h: seq<byte>)
    requires |h| == HEADER_SIZE
    ensures FrameHeader(PayloadSize(h)) == h
  {
    hide FromLE, ToLE, ToBigEndian, Pow256;
    Pow256Values();
    assert h[..HEADER_SIZE] == h;
    ToBigEndianInvolutive(FromLE(h));
    ToLEFromLE(h);
  }

  function Frame(payload: seq<byte>): seq<byte> {
    FrameHeader(|payload|) + payload
  }

  function Frames(payloads: seq<seq<byte>>): seq<byte> {
    if payloads == [] then [] else Frame(payloads[0]) + Frames(payloads[1..])
  }

  lemma {:induction false} FramesConcat(a: seq<seq<byte>>, b: seq<seq<byte>>)
    ensures Frames(a + b) == Frames(a) + Frames(b)
  {
    hide FrameHeader;
    if a == [] {
      assert a + b == b;
    } else {
      FramesConcat(a[1..], b);
      assert (a + b)[1..] == a[1..] + b;
      Associative(Frame(a[0]), Frames(a[1..]), Frames(b));
    }
  }

  lemma FramesCons(p: seq<byte>, ps: seq<seq<byte>>)
    ensures Frames([p] + ps) == Frame(p) + Frames(ps)
  {
    assert ([p] + ps)[1..] == ps;
  }

  lemma FramesSnoc(a: seq<seq<byte>>, p: seq<byte>)
    ensures Frames(a + [p]) == Frames(a) + Frame(p)
  {
    FramesConcat(a, [p]);
    assert Frames([p]) == Frame(p) + Frames([]);
  }

  // ----- Taking frames off a byte string -----

  datatype Next = Incomplete | Packet(payload: seq<byte>, rest: seq<byte>)

  /** The frame at the head of `buf`, if all of it is there. */
  function NextFrame(buf: seq<byte>): Next {
    if |buf| < HEADER_SIZE then Incomplete
    else
      var expected := PayloadSize(buf) + HEADER_SIZE;
      if |buf| < expected then Incomplete
      else Packet(buf[HEADER_SIZE..expected], buf[expected..])
  }

  lemma NextFrameOfFrame(p: seq<byte>, rest: seq<byte>)
    requires |p| < U32_LIMIT
    ensures NextFrame(Frame(p) + rest) == Packet(p, rest)
  {
    HeaderRoundTrip(|p|, p + rest);
    Associative(FrameHeader(|p|), p, rest);
    NextFrameOfParts(FrameHeader(|p|), p, rest);
  }

  lemma NextFrameOfParts(h: seq<byte>, p: seq<byte>, rest: seq<byte>)
    requires |h| == HEADER_SIZE && PayloadSize(h + (p + rest)) == |p|
    ensures NextFrame(h + (p + rest)) == Packet(p, rest)
  {
    var buf := h + (p + rest);
    assert buf[HEADER_SIZE..] == p + rest;
    assert buf[HEADER_SIZE..|p| + HEADER_SIZE] == p && buf[|p| + HEADER_SIZE..] == rest;
  }

  lemma FrameOfNextFrame(buf: seq<byte>)
    requires NextFrame(buf).Packet?
    ensures var Packet(p, rest) := NextFrame(buf); buf == Frame(p) + rest && |p| < U32_LIMIT
  {
    var h, body := buf[..HEADER_SIZE], buf[HEADER_SIZE..];
    var n := PayloadSize(buf);
    assert h[..HEADER_SIZE] == h;
    HeaderOfPayloadSize(h);
    assert body[..n] == buf[HEADER_SIZE..n + HEADER_SIZE] && body[n..] == buf[n + HEADER_SIZE..];
    assert buf == h + body && body == body[..n] + body[n..];
    Associative(h, body[..n], body[n..]);
  }

  /** Framing is unambiguous: a packet is found exactly when its frame is a prefix. */
  lemma NextFrameExact(buf: seq<byte>, p: seq<byte>, rest: seq<byte>)
    ensures NextFrame(buf) == Packet(p, rest) <==> buf == Frame(p) + rest && |p| < U32_LIMIT
  {
    if NextFrame(buf).Packet? {
      FrameOfNextFrame(buf);
    }
    if |p| < U32_LIMIT {
      NextFrameOfFrame(p, rest);
    }
  }

  /** The reference: cut a whole byte string into the payloads a receiver of capacity `cap` can return. */
  function Split(cap: nat, input: seq<byte>): seq<seq<byte>>
    decreases |input|
  {
    match NextFrame(input)
    case Incomplete => []
    case Packet(p, rest) => if |p| <= cap then [p] + Split(cap, rest) else []
  }

  ghost predicate Sendable(cap: nat, payloads: seq<seq<byte>>) {
    forall i :: 0 <= i < |payloads| ==> |payloads[i]| <= cap && |payloads[i]| < U32_LIMIT
  }

  lemma Prepend<T>(x: T, xs: seq<T>, ys: seq<T>)
    requires xs != [] && xs[0] == x
    ensures [x] + (xs[1..] + ys) == xs + ys
  {
  }

  lemma {:induction false} SplitOfFrames(cap: nat, payloads: seq<seq<byte>>, tail: seq<byte>)
    requires Sendable(cap, payloads)
    ensures Split(cap, Frames(payloads) + tail) == payloads + Split(cap, tail)
  {
    hide FrameHeader, PayloadSize;
    if payloads == [] {
      assert Frames(payloads) + tail == tail;
    } else {
      var p, rest := payloads[0], Frames(payloads[1..]) + tail;
      Associative(Frame(p), Frames(payloads[1..]), tail);
      NextFrameOfFrame(p, rest);
      SplitOfFrames(cap, payloads[1..], tail);
      Prepend(p, payloads, Split(cap, tail));
    }
  }

  // ----- The socket, and one receive call -----

  /** What one `read` on the socket may do: hand over bytes (none at end of stream), or fail. */
  datatype ReadEvent = Chunk(data: seq<byte>) | ReadError

  /** All the bytes a script of events will ever hand over. */
  function Data(script: seq<ReadEvent>): seq<byte> {
    if script == [] then []
    else (if script[0].Chunk? then script[0].data else []) + Data(script[1..])
  }

  /**
   One `read` into `space` bytes; what does not fit stays for the next read, and a spent script is at
   end of stream.
   */
  function ReadSome(script: seq<ReadEvent>, space: nat): (r: (ReadEvent, seq<ReadEvent>))
    ensures r.0.Chunk? ==> |r.0.data| <= space
    ensures Data(script) == (if r.0.Chunk? then r.0.data else []) + Data(r.1)
    ensures |r.1| <= |script|
  {
    if script == [] then (Chunk([]), [])
    else if script[0].Chunk? && |script[0].data| > space then
      var later := [Chunk(script[0].data[space..])] + script[1..];
      assert later[1..] == script[1..];
      (Chunk(script[0].data[..space]), later)
    else (script[0], script[1..])
  }

  /** How a `receive` call ends; the program reports the last three alike, as `Err(0)`. */
  datatype Outcome = Delivered(payload: seq<byte>) | BufferFull | StreamClosed | ReadFailed

  datatype Received = Received(outcome: Outcome, buffered: seq<byte>, script: seq<ReadEvent>)

  /** One `receive` call from `buf` buffered bytes, with room for `cap + HEADER_SIZE`. */
  function Receive(cap: nat, buf: seq<byte>, script: seq<ReadEvent>): Received
    requires |buf| <= cap + HEADER_SIZE
    decreases cap + HEADER_SIZE - |buf|
  {
    match NextFrame(buf)
    case Packet(p, rest) => Received(Delivered(p), rest, script)
    case Incomplete =>
      if |buf| == cap + HEADER_SIZE then Received(BufferFull, buf, script)
      else
        var (event, later) := ReadSome(script, cap + HEADER_SIZE - |buf|);
        if event.ReadError? then Received(ReadFailed, buf, later)
        else if event.data == [] then Received(StreamClosed, buf, later)
        else Receive(cap, buf + event.data, later)
  }

  /** One round of the loop: what `receive` does with what it has buffered. */
  lemma ReceiveUnrolled(cap: nat, buf: seq<byte>, script: seq<ReadEvent>)
    requires |buf| <= cap + HEADER_SIZE
    ensures NextFrame(buf).Packet? ==>
      Receive(cap, buf, script) == Received(Delivered(NextFrame(buf).payload), NextFrame(buf).rest, script)
    ensures NextFrame(buf).Incomplete? && |buf| == cap + HEADER_SIZE ==>
      Receive(cap, buf, script) == Received(BufferFull, buf, script)
    ensures NextFrame(buf).Incomplete? && |buf| < cap + HEADER_SIZE ==>
      var (event, later) := ReadSome(script, cap + HEADER_SIZE - |buf|);
      Receive(cap, buf, script) ==
      if event.ReadError? then Received(ReadFailed, buf, later)
      else if event.data == [] then Received(StreamClosed, buf, later)
      else Receive(cap, buf + event.data, later)
  {
  }

  lemma PayloadSizeOfPrefix(buf: seq<byte>, more: seq<byte>)
    requires HEADER_SIZE <= |buf|
    ensures PayloadSize(buf + more) == PayloadSize(buf)
    ensures PayloadSize(buf[..HEADER_SIZE]) == PayloadSize(buf)
  {
    assert (buf + more)[..HEADER_SIZE] == buf[..HEADER_SIZE] == buf[..HEADER_SIZE][..HEADER_SIZE];
  }

  /** The bytes a call hands to its caller, as they stood on the wire. */
  function FrameOf(outcome: Outcome): seq<byte> {
    if outcome.Delivered? then Frame(outcome.payload) else []
  }

  /**
   Conservation over one call, however it ends: what was buffered and what was still to come is
   the frame returned, what is buffered now and what is still to come. A returned payload fits
   the caller's buffer.
   */
  lemma {:induction false} ReceiveConserves(cap: nat, buf: seq<byte>, script: seq<ReadEvent>)
    requires |buf| <= cap + HEADER_SIZE
    ensures var r := Receive(cap, buf, script);
      && buf + Data(script) == FrameOf(r.outcome) + r.buffered + Data(r.script)
      && |r.buffered| <= cap + HEADER_SIZE
      && (r.outcome.Delivered? ==> |r.outcome.payload| <= cap && |r.outcome.payload| < U32_LIMIT)
      && (!r.outcome.Delivered? ==> NextFrame(r.buffered).Incomplete? && buf <= r.buffered)
    decreases cap + HEADER_SIZE - |buf|
  {
    hide FrameHeader, PayloadSize;
    match NextFrame(buf)
    case Packet(p, rest) =>
      NextFrameExact(buf, p, rest);
    case Incomplete =>
      if |buf| != cap + HEADER_SIZE {
        var (event, later) := ReadSome(script, cap + HEADER_SIZE - |buf|);
        if event.Chunk? {
          Associative(buf, event.data, Data(later));
          if event.data != [] {
            ReceiveConserves(cap, buf + event.data, later);
          }
        }
      }
  }

  /** A call that already holds a complete frame reads nothing. */
  lemma ReceiveReadsNothingWhenComplete(cap: nat, buf: seq<byte>, script: seq<ReadEvent>)
    requires |buf| <= cap + HEADER_SIZE
    ensures NextFrame(buf).Packet? <==>
      exists p, rest :: Receive(cap, buf, script) == Received(Delivered(p), rest, script) && buf == Frame(p) + rest
  {
    if NextFrame(buf).Packet? {
      NextFrameExact(buf, NextFrame(buf).payload, NextFrame(buf).rest);
    }
    if exists p, rest :: Receive(cap, buf, script) == Received(Delivered(p), rest, script) && buf == Frame(p) + rest {
      var p, rest :| Receive(cap, buf, script) == Received(Delivered(p), rest, script) && buf == Frame(p) + rest;
      ReceiveConserves(cap, buf, script);
      NextFrameExact(buf, p, rest);
    }
  }

  // ----- Runs of receive calls -----

  datatype Run = Run(delivered: seq<seq<byte>>, buffered: seq<byte>, script: seq<ReadEvent>)

  /** `calls` successive `receive` calls, whatever each of them returns. */
  function ReceiveMany(cap: nat, buf: seq<byte>, script: seq<ReadEvent>, calls: nat): Run
    requires |buf| <= cap + HEADER_SIZE
    decreases calls
  {
    if calls == 0 then Run([], buf, script)
    else
      ReceiveConserves(cap, buf, script);
      var r := Receive(cap, buf, script);
      var later := ReceiveMany(cap, r.buffered, r.script, calls - 1);
      if r.outcome.Delivered? then later.(delivered := [r.outcome.payload] + later.delivered) else later
  }

  /** Byte conservation over every run, through ends of stream, read errors and full buffers. */
  lemma {:induction false} RunConserves(cap: nat, buf: seq<byte>, script: seq<ReadEvent>, calls: nat)
    requires |buf| <= cap + HEADER_SIZE
    ensures var run := ReceiveMany(cap, buf, script, calls);
      && buf + Data(script) == Frames(run.delivered) + run.buffered + Data(run.script)
      && Sendable(cap, run.delivered)
      && |run.buffered| <= cap + HEADER_SIZE
    decreases calls
  {
    hide Frame, Receive;
    if calls == 0 {
      assert Frames([]) + buf == buf;
    } else {
      ReceiveConserves(cap, buf, script);
      var r := Receive(cap, buf, script);
      RunConserves(cap, r.buffered, r.script, calls - 1);
      var run := ReceiveMany(cap, buf, script, calls);
      var later := ReceiveMany(cap, r.buffered, r.script, calls - 1);
      if r.outcome.Delivered? {
        FramesCons(r.outcome.payload, later.delivered);
        Regroup(Frame(r.outcome.payload), r.buffered, Data(r.script), Frames(later.delivered), later.buffered, Data(later.script));
      } else {
        assert [] + r.buffered == r.buffered;
      }
    }
  }

  /**
   A reader that is handed over mid-run, with its buffer, goes on exactly where it stopped: `first`
   calls before and `next` calls after give what `first + next` calls give.
   */
  lemma {:induction false} RunHandover(cap: nat, buf: seq<byte>, script: seq<ReadEvent>, first: nat, next: nat)
    requires |buf| <= cap + HEADER_SIZE
    ensures var before := ReceiveMany(cap, buf, script, first);
      && |before.buffered| <= cap + HEADER_SIZE
      && var after := ReceiveMany(cap, before.buffered, before.script, next);
         ReceiveMany(cap, buf, script, first + next) == after.(delivered := before.delivered + after.delivered)
    decreases first
  {
    hide FrameHeader, PayloadSize, Receive;
    RunConserves(cap, buf, script, first);
    if first == 0 {
      var after := ReceiveMany(cap, buf, script, next);
      assert [] + after.delivered == after.delivered;
    } else {
      ReceiveConserves(cap, buf, script);
      var r := Receive(cap, buf, script);
      RunHandover(cap, r.buffered, r.script, first - 1, next);
      RunConserves(cap, r.buffered, r.script, first - 1);
    }
  }

  /**
   Refinement, safety half: whatever the fragmentation and whatever calls failed on the way, the
   payloads returned so far are the first ones of `Split` on the whole stream, and `Split` on what
   is left gives the others.
   */
  lemma RunRefinesSplit(cap: nat, buf: seq<byte>, script: seq<ReadEvent>, calls: nat)
    requires |buf| <= cap + HEADER_SIZE
    ensures var run := ReceiveMany(cap, buf, script, calls);
      Split(cap, buf + Data(script)) == run.delivered + Split(cap, run.buffered + Data(run.script))
  {
    hide FrameHeader, PayloadSize;
    RunConserves(cap, buf, script, calls);
    var run := ReceiveMany(cap, buf, script, calls);
    Associative(Frames(run.delivered), run.buffered, Data(run.script));
    SplitOfFrames(cap, run.delivered, run.buffered + Data(run.script));
  }

  /** A call that returns no payload has used up a script event, or no later call can return one. */
  lemma {:induction false} ReceiveProgress(cap: nat, buf: seq<byte>, script: seq<ReadEvent>)
    requires |buf| <= cap + HEADER_SIZE
    ensures var r := Receive(cap, buf, script);
      && |r.script| <= |script|
      && (r.outcome.Delivered? || |r.script| < |script| || Split(cap, buf + Data(script)) == [])
    decreases cap + HEADER_SIZE - |buf|
  {
    hide FrameHeader, PayloadSize;
    if NextFrame(buf).Incomplete? {
      if |buf| == cap + HEADER_SIZE {
        StuckSplit(cap, buf, Data(script));
      } else if script == [] {
        assert buf + Data(script) == buf;
      } else {
        var (event, later) := ReadSome(script, cap + HEADER_SIZE - |buf|);
        if event.Chunk? && event.data != [] {
          ReceiveProgress(cap, buf + event.data, later);
          assert buf + Data(script) == buf + event.data + Data(later);
        }
      }
    }
  }

  /** A full buffer without a complete frame announces a payload above the capacity. */
  lemma StuckSplit(cap: nat, buf: seq<byte>, more: seq<byte>)
    requires |buf| == cap + HEADER_SIZE && NextFrame(buf).Incomplete?
    ensures PayloadSize(buf) > cap
    ensures Split(cap, buf + more) == []
  {
    assert (buf + more)[..HEADER_SIZE] == buf[..HEADER_SIZE];
  }

  /** Refinement, liveness half: enough calls return every payload of `Split`, however the bytes were cut. */
  lemma {:induction false} RunDrains(cap: nat, buf: seq<byte>, script: seq<ReadEvent>, calls: nat)
    requires |buf| <= cap + HEADER_SIZE
    requires calls >= |buf| + |Data(script)| + |script|
    ensures ReceiveMany(cap, buf, script, calls).delivered == Split(cap, buf + Data(script))
    decreases calls
  {
    hide FrameHeader, PayloadSize;
    RunRefinesSplit(cap, buf, script, calls);
    if calls == 0 {
      assert buf + Data(script) == [];
    } else {
      var r := Receive(cap, buf, script);
      ReceiveConserves(cap, buf, script);
      ReceiveProgress(cap, buf, script);
      if r.outcome.Delivered? || |r.script| < |script| {
        assert |buf| + |Data(script)| == |buf + Data(script)| == |FrameOf(r.outcome)| + |r.buffered| + |Data(r.script)|;
        RunDrains(cap, r.buffered, r.script, calls - 1);
        Associative(FrameOf(r.outcome), r.buffered, Data(r.script));
        if r.outcome.Delivered? {
          NextFrameOfFrame(r.outcome.payload, r.buffered + Data(r.script));
        } else {
          assert [] + r.buffered == r.buffered;
        }
      }
    }
  }

  /**
   The result does not depend on the fragmentation: two sockets that hand over the same bytes,
   cut and interrupted in any two ways, yield the same payloads.
   */
  lemma FragmentationIndependence(cap: nat, s1: seq<ReadEvent>, s2: seq<ReadEvent>, calls: nat)
    requires Data(s1) == Data(s2)
    requires calls >= |Data(s1)| + |s1| && calls >= |Data(s2)| + |s2|
    ensures ReceiveMany(cap, [], s1, calls).delivered == ReceiveMany(cap, [], s2, calls).delivered
  {
    RunDrains(cap, [], s1, calls);
    RunDrains(cap, [], s2, calls);
  }

  // ----- First in, first out -----

  /** No event fails or signals the end of the stream early. */
  ghost predicate Clean(script: seq<ReadEvent>) {
    forall i :: 0 <= i < |script| ==> script[i].Chunk? && script[i].data != []
  }

  lemma ReadSomeClean(script: seq<ReadEvent>, space: nat)
    requires Clean(script) && script != [] && space > 0
    ensures var (event, later) := ReadSome(script, space); event.Chunk? && event.data != [] && Clean(later)
  {
  }

  lemma {:induction false} ReceiveClean(cap: nat, buf: seq<byte>, script: seq<ReadEvent>)
    requires |buf| <= cap + HEADER_SIZE && Clean(script)
    ensures Clean(Receive(cap, buf, script).script)
    decreases cap + HEADER_SIZE - |buf|
  {
    hide FrameHeader, PayloadSize;
    if NextFrame(buf).Incomplete? && |buf| < cap + HEADER_SIZE && script != [] {
      ReadSomeClean(script, cap + HEADER_SIZE - |buf|);
      var (event, later) := ReadSome(script, cap + HEADER_SIZE - |buf|);
      ReceiveClean(cap, buf + event.data, later);
    }
  }

  /** A stream that does not fail goes on not failing. */
  lemma {:induction false} RunClean(cap: nat, buf: seq<byte>, script: seq<ReadEvent>, calls: nat)
    requires |buf| <= cap + HEADER_SIZE && Clean(script)
    ensures Clean(ReceiveMany(cap, buf, script, calls).script)
    decreases calls
  {
    hide Receive, Clean;
    if calls > 0 {
      ReceiveConserves(cap, buf, script);
      ReceiveClean(cap, buf, script);
      var r := Receive(cap, buf, script);
      RunClean(cap, r.buffered, r.script, calls - 1);
    }
  }

  /** A proper prefix of a frame is not taken for a packet. */
  lemma NoEarlyPacket(buf: seq<byte>, more: seq<byte>, p: seq<byte>, tail: seq<byte>)
    requires buf + more == Frame(p) + tail && |buf| < |Frame(p)| && |p| < U32_LIMIT
    ensures NextFrame(buf).Incomplete?
  {
    hide FrameHeader, PayloadSize;
    if NextFrame(buf).Packet? {
      var q, rest := NextFrame(buf).payload, NextFrame(buf).rest;
      FrameOfNextFrame(buf);
      Associative(Frame(q), rest, more);
      NextFrameOfFrame(q, rest + more);
      NextFrameOfFrame(p, tail);
      assert false;
    }
  }

  /**
   When a sendable frame heads the stream and no read fails, the next call returns its payload and
   takes no later byte away.
   */
  lemma {:induction false} ReceiveHead(cap: nat, buf: seq<byte>, script: seq<ReadEvent>, p: seq<byte>,
      tail: seq<byte>)
    requires |buf| <= cap + HEADER_SIZE
    requires Clean(script) && |p| <= cap && |p| < U32_LIMIT
    requires buf + Data(script) == Frame(p) + tail
    ensures var r := Receive(cap, buf, script);
      r.outcome == Delivered(p) && Clean(r.script) && r.buffered + Data(r.script) == tail
    decreases cap + HEADER_SIZE - |buf|
  {
    hide FrameHeader, PayloadSize;
    if |Frame(p)| <= |buf| {
      CutAt(Frame(p), tail, buf, Data(script));
      NextFrameOfFrame(p, buf[|Frame(p)|..]);
    } else {
      NoEarlyPacket(buf, Data(script), p, tail);
      var (event, later) := ReadSome(script, cap + HEADER_SIZE - |buf|);
      ReadSomeClean(script, cap + HEADER_SIZE - |buf|);
      Associative(buf, event.data, Data(later));
      ReceiveHead(cap, buf + event.data, later, p, tail);
    }
  }

  /**
   Which payloads survive: one that `send` framed is returned exactly when it fits the receiver and
   its length fits the header.
   */
  lemma DeliveredExactly(cap: nat, buf: seq<byte>, script: seq<ReadEvent>, p: seq<byte>, tail: seq<byte>)
    requires |buf| <= cap + HEADER_SIZE && Clean(script)
    requires buf + Data(script) == Frame(p) + tail
    ensures Receive(cap, buf, script).outcome == Delivered(p) <==> |p| <= cap && |p| < U32_LIMIT
  {
    hide FrameHeader, PayloadSize, Receive;
    ReceiveConserves(cap, buf, script);
    if |p| <= cap && |p| < U32_LIMIT {
      ReceiveHead(cap, buf, script, p, tail);
    }
  }

  lemma TailOfTail<T>(xs: seq<T>, k: nat)
    requires 0 < k <= |xs|
    ensures xs[1..][k - 1..] == xs[k..] && [xs[0]] + xs[1..][..k - 1] == xs[..k]
  {
  }

  /**
   First in, first out: when the bytes of `payloads` arrive in any non-empty fragments, the n-th
   successive `receive` call returns the n-th payload.
   */
  lemma {:induction false} ReceiveFifo(cap: nat, buf: seq<byte>, script: seq<ReadEvent>,
      payloads: seq<seq<byte>>, tail: seq<byte>, calls: nat)
    requires |buf| <= cap + HEADER_SIZE
    requires Clean(script) && Sendable(cap, payloads) && calls <= |payloads|
    requires buf + Data(script) == Frames(payloads) + tail
    ensures var run := ReceiveMany(cap, buf, script, calls);
      run.delivered == payloads[..calls] && run.buffered + Data(run.script) == Frames(payloads[calls..]) + tail
    decreases calls
  {
    hide FrameHeader, PayloadSize;
    if calls == 0 {
      assert payloads[0..] == payloads;
    } else {
      var rest := Frames(payloads[1..]) + tail;
      Associative(Frame(payloads[0]), Frames(payloads[1..]), tail);
      ReceiveHead(cap, buf, script, payloads[0], rest);
      var r := Receive(cap, buf, script);
      ReceiveConserves(cap, buf, script);
      ReceiveFifo(cap, r.buffered, r.script, payloads[1..], tail, calls - 1);
      TailOfTail(payloads, calls);
    }
  }

  // ----- Oversized frames -----

  /** A full buffer whose header announces more than the capacity: the reader is stuck. */
  predicate Stuck(cap: nat, buf: seq<byte>) {
    |buf| == cap + HEADER_SIZE && PayloadSize(buf) > cap
  }

  /**
   `receive` gives up on a full buffer exactly when it ends stuck, and a stuck reader reads nothing
   and changes nothing.
   */
  lemma {:induction false} BufferFullIffStuck(cap: nat, buf: seq<byte>, script: seq<ReadEvent>)
    requires |buf| <= cap + HEADER_SIZE
    ensures var r := Receive(cap, buf, script); r.outcome.BufferFull? ==> Stuck(cap, r.buffered)
    ensures Stuck(cap, buf) <==> Receive(cap, buf, script) == Received(BufferFull, buf, script)
    decreases cap + HEADER_SIZE - |buf|
  {
    if NextFrame(buf).Incomplete? && |buf| != cap + HEADER_SIZE {
      var (event, later) := ReadSome(script, cap + HEADER_SIZE - |buf|);
      if event.Chunk? && event.data != [] {
        BufferFullIffStuck(cap, buf + event.data, later);
        ReceiveConserves(cap, buf + event.data, later);
      }
    }
  }

  /** Once stuck, every later call fails, reads nothing and leaves the state as it is. */
  lemma {:induction false} StuckForever(cap: nat, buf: seq<byte>, script: seq<ReadEvent>, calls: nat)
    requires Stuck(cap, buf)
    ensures ReceiveMany(cap, buf, script, calls) == Run([], buf, script)
    decreases calls
  {
    if calls == 0 {
    } else {
      BufferFullIffStuck(cap, buf, script);
      StuckForever(cap, buf, script, calls - 1);
    }
  }

  /**
   On a stream that does not fail and holds at least a buffer's worth, giving up is decided by the
   announced size alone.
   */
  lemma {:induction false} OversizeExactly(cap: nat, buf: seq<byte>, script: seq<ReadEvent>)
    requires |buf| <= cap + HEADER_SIZE && Clean(script)
    requires |buf + Data(script)| >= cap + HEADER_SIZE
    ensures Receive(cap, buf, script).outcome.BufferFull? <==> PayloadSize(buf + Data(script)) > cap
    decreases cap + HEADER_SIZE - |buf|
  {
    var all := buf + Data(script);
    if HEADER_SIZE <= |buf| {
      assert all[..HEADER_SIZE] == buf[..HEADER_SIZE];
    }
    if NextFrame(buf).Incomplete? && |buf| != cap + HEADER_SIZE {
      assert script != [];
      var (event, later) := ReadSome(script, cap + HEADER_SIZE - |buf|);
      assert buf + event.data + Data(later) == all;
      OversizeExactly(cap, buf + event.data, later);
    }
  }

  // ----- Where a long enough run ends -----

  /** What `Split` leaves of a byte string. */
  function Remainder(cap: nat, input: seq<byte>): seq<byte>
    decreases |input|
  {
    match NextFrame(input)
    case Incomplete => input
    case Packet(p, rest) => if |p| <= cap then Remainder(cap, rest) else input
  }

  lemma {:induction false} SplitAndRemainder(cap: nat, input: seq<byte>)
    ensures input == Frames(Split(cap, input)) + Remainder(cap, input)
    decreases |input|
  {
    hide FrameHeader, PayloadSize;
    var next := NextFrame(input);
    if next.Packet? && |next.payload| <= cap {
      FrameOfNextFrame(input);
      SplitAndRemainder(cap, next.rest);
      FramesCons(next.payload, Split(cap, next.rest));
      Associative(Frame(next.payload), Frames(Split(cap, next.rest)), Remainder(cap, next.rest));
    } else {
      assert Frames([]) + input == input;
    }
  }

  /** No later call can change this state: the reader is stuck, or the stream is over in mid-frame. */
  predicate Settled(cap: nat, buf: seq<byte>, script: seq<ReadEvent>) {
    Stuck(cap, buf) || (script == [] && NextFrame(buf).Incomplete?)
  }

  /** A call returns a payload, uses up an event or leaves a settled state. */
  lemma {:induction false} ReceiveSettles(cap: nat, buf: seq<byte>, script: seq<ReadEvent>)
    requires |buf| <= cap + HEADER_SIZE
    ensures var r := Receive(cap, buf, script);
      && |r.script| <= |script|
      && (r.outcome.Delivered? || |r.script| < |script| || Settled(cap, r.buffered, r.script))
    ensures Settled(cap, buf, script) ==>
      var r := Receive(cap, buf, script); !r.outcome.Delivered? && r.buffered == buf && r.script == script
    decreases cap + HEADER_SIZE - |buf|
  {
    hide FrameHeader, PayloadSize;
    BufferFullIffStuck(cap, buf, script);
    if NextFrame(buf).Incomplete? && |buf| < cap + HEADER_SIZE && script != [] {
      var (event, later) := ReadSome(script, cap + HEADER_SIZE - |buf|);
      if event.Chunk? && event.data != [] {
        ReceiveSettles(cap, buf + event.data, later);
      }
    }
  }

  lemma {:induction false} SettledForever(cap: nat, buf: seq<byte>, script: seq<ReadEvent>, calls: nat)
    requires |buf| <= cap + HEADER_SIZE && Settled(cap, buf, script)
    ensures ReceiveMany(cap, buf, script, calls) == Run([], buf, script)
    decreases calls
  {
    hide Receive, Settled;
    if calls > 0 {
      ReceiveSettles(cap, buf, script);
      SettledForever(cap, buf, script, calls - 1);
    }
  }

  lemma {:induction false} RunSettles(cap: nat, buf: seq<byte>, script: seq<ReadEvent>, calls: nat)
    requires |buf| <= cap + HEADER_SIZE
    requires calls >= |buf| + |Data(script)| + |script|
    ensures var run := ReceiveMany(cap, buf, script, calls); Settled(cap, run.buffered, run.script)
    decreases calls
  {
    hide FrameHeader, PayloadSize, Receive;
    if calls > 0 {
      var r := Receive(cap, buf, script);
      ReceiveConserves(cap, buf, script);
      ReceiveSettles(cap, buf, script);
      assert |buf| + |Data(script)| == |buf + Data(script)| == |FrameOf(r.outcome)| + |r.buffered| + |Data(r.script)|;
      if r.outcome.Delivered? || |r.script| < |script| {
        RunSettles(cap, r.buffered, r.script, calls - 1);
      } else {
        SettledForever(cap, r.buffered, r.script, calls - 1);
      }
    }
  }

  /**
   Where the reader ends, whatever failed on the way: after enough calls it has returned the payloads
   of `Split` and holds the head of what `Split` leaves, and it is stuck for good exactly when that
   fills the buffer and announces more than the capacity.
   */
  lemma OversizeRun(cap: nat, buf: seq<byte>, script: seq<ReadEvent>, calls: nat)
    requires |buf| <= cap + HEADER_SIZE
    requires calls >= |buf| + |Data(script)| + |script|
    ensures var run := ReceiveMany(cap, buf, script, calls);
      var left := Remainder(cap, buf + Data(script));
      && run.delivered == Split(cap, buf + Data(script))
      && (Stuck(cap, run.buffered) <==> |left| >= cap + HEADER_SIZE && PayloadSize(left) > cap)
      && (if Stuck(cap, run.buffered) then run.buffered == left[..cap + HEADER_SIZE]
          else run.buffered == left && run.script == [])
  {
    hide FrameHeader, PayloadSize, Frames;
    var all, run := buf + Data(script), ReceiveMany(cap, buf, script, calls);
    RunDrains(cap, buf, script, calls);
    RunConserves(cap, buf, script, calls);
    RunSettles(cap, buf, script, calls);
    SplitAndRemainder(cap, all);
    Associative(Frames(run.delivered), run.buffered, Data(run.script));
    var left := Remainder(cap, all);
    CutAt(Frames(run.delivered), run.buffered + Data(run.script), Frames(run.delivered), left);
    assert left == run.buffered + Data(run.script);
    if Stuck(cap, run.buffered) {
      PayloadSizeOfPrefix(run.buffered, Data(run.script));
    } else {
      assert left == run.buffered;
    }
  }
}
