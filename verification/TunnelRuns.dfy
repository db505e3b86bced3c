/**
 One direction of the tunnel as a transition system: the two loops run concurrently with a network
 between them, and every interleaving of their reads, writes and failures is a run.
 */
module TunnelRuns {
  import opened Wrappers
  import opened Bytes
  import opened Framing
  import opened FramedStreams
  import opened SecureHalf
  import opened Tunnel

  datatype Config = Config(cipher: Cipher, limit: nat, senderSize: nat, cap: nat) {
    ghost predicate Sound() {
      cipher.Invertible() && senderSize < U32_LIMIT
    }

    function Message(i: nat, m: seq<byte>): Option<seq<byte>> {
      Outgoing(cipher, limit, senderSize, i, m)
    }
  }

  datatype Near = Running | Closed | Failed

  /**
   `read` is all the near end has read from its plain socket, `framed` the chunks whose frames it
   began to write, `wire` all it put on the network. The far end has taken the first `taken` bytes
   of it, holds `buffered` in its reassembly buffer, counts `next` messages and has written `output`.
   */
  datatype System = System(
    read: seq<byte>, framed: seq<seq<byte>>, near: Near, wire: seq<byte>,
    taken: nat, buffered: seq<byte>, next: nat, output: seq<byte>, open: bool)

  const Start := System([], [], Running, [], 0, [], 0, [], true)

  datatype Step =
    | NearForwards(m: seq<byte>)            // reads a chunk and sends it
    | NearSendFails(m: seq<byte>, n: nat)   // reads a chunk; the send fails after `n` bytes
    | NearEnds                              // end of stream or read error on the plain socket
    | FarReads(n: nat)                      // the network hands over `n` bytes
    | FarForwards                           // takes a frame off the buffer and writes its message
    | FarWriteFails(n: nat)                 // takes a frame; the write fails after `n` bytes
    | FarEnds                               // any other exit of the far loop

  /** The message in the complete frame at the head of the far buffer, if the far end makes one of it. */
  function Head(cfg: Config, s: System): Option<seq<byte>> {
    match NextFrame(s.buffered)
    case Incomplete => None
    case Packet(p, _) =>
      match Unprotected(cfg.cipher, s.next, cfg.cap, CHUNK_SIZE, p)
      case None => None
      case Some((m, isApp)) => if isApp && m != [] then Some(m) else None
  }

  predicate Enabled(cfg: Config, s: System, step: Step) {
    match step
    case NearForwards(m) => s.near.Running? && 0 < |m| <= CHUNK_SIZE && cfg.Message(|s.framed|, m).Some?
    case NearSendFails(m, n) =>
      s.near.Running? && 0 < |m| <= CHUNK_SIZE
      && n <= (match cfg.Message(|s.framed|, m) case None => 0 case Some(p) => |Frame(p)|)
    case NearEnds => s.near.Running?
    case FarReads(n) =>
      s.open && NextFrame(s.buffered).Incomplete? && 0 < n && |s.buffered| + n <= cfg.cap + HEADER_SIZE && s.taken + n <= |s.wire|
    case FarForwards => s.open && Head(cfg, s).Some?
    case FarWriteFails(n) => s.open && Head(cfg, s).Some? && n <= |Head(cfg, s).value|
    case FarEnds => s.open
  }

  function Apply(cfg: Config, s: System, step: Step): System
    requires Enabled(cfg, s, step)
  {
    match step
    case NearForwards(m) =>
      s.(read := s.read + m, framed := s.framed + [m], wire := s.wire + Frame(cfg.Message(|s.framed|, m).value))
    case NearSendFails(m, n) =>
      (match cfg.Message(|s.framed|, m)
       case None => s.(read := s.read + m, near := Failed)
       case Some(p) => s.(read := s.read + m, framed := s.framed + [m], wire := s.wire + Frame(p)[..n], near := Failed))
    case NearEnds => s.(near := Closed)
    case FarReads(n) => s.(buffered := s.buffered + s.wire[s.taken..s.taken + n], taken := s.taken + n)
    case FarForwards => s.(buffered := NextFrame(s.buffered).rest, next := s.next + 1, output := s.output + Head(cfg, s).value)
    case FarWriteFails(n) => s.(output := s.output + Head(cfg, s).value[..n], open := false)
    case FarEnds => s.(open := false)
  }

  // ----- What every step keeps -----

  /** The near end: its chunks are what it read, and their frames are what it wrote, up to a failed send. */
  ghost predicate NearInv(cfg: Config, s: System) {
    && Framed(cfg.cipher, cfg.limit, cfg.senderSize, 0, s.framed)
    && Flatten(s.framed) <= s.read && s.wire <= Wire(cfg.cipher, 0, s.framed)
    && (!s.near.Failed? ==> s.read == Flatten(s.framed) && s.wire == Wire(cfg.cipher, 0, s.framed))
  }

  /**
   The far end: it has handled the first `next` frames and holds the rest of what it took; its output
   is their chunks.
   */
  ghost predicate FarInv(cfg: Config, s: System) {
    && s.taken <= |s.wire| && s.next <= |s.framed| && |s.buffered| <= cfg.cap + HEADER_SIZE
    && s.output <= Flatten(s.framed)
    && (s.open ==>
          && s.output == Flatten(s.framed[..s.next])
          && s.wire[..s.taken] == Wire(cfg.cipher, 0, s.framed[..s.next]) + s.buffered)
  }

  ghost predicate Inv(cfg: Config, s: System) {
    NearInv(cfg, s) && FarInv(cfg, s)
  }

  /** A near step that frames one more chunk and writes `n` bytes of the frame leaves the far end's view alone. */
  lemma NearFrames(cfg: Config, s: System, m: seq<byte>, n: nat, near: Near)
    requires cfg.Sound() && Inv(cfg, s) && s.near.Running? && 0 < |m| <= CHUNK_SIZE && cfg.Message(|s.framed|, m).Some?
    requires n <= |Frame(cfg.Message(|s.framed|, m).value)|
    requires !near.Failed? ==> n == |Frame(cfg.Message(|s.framed|, m).value)|
    ensures var frame := Frame(cfg.Message(|s.framed|, m).value);
      Inv(cfg, s.(read := s.read + m, framed := s.framed + [m], wire := s.wire + frame[..n], near := near))
  {
    hide Frame, Wire;
    AttemptedChunk(cfg.cipher, 0, cfg.senderSize, cfg.limit, s.framed, m, n);
    var frame := Frame(cfg.Message(|s.framed|, m).value);
    assert frame[..|frame|] == frame;
    assert (s.framed + [m])[..s.next] == s.framed[..s.next];
    assert (s.wire + frame[..n])[..s.taken] == s.wire[..s.taken];
  }

  /** What the far end holds is the start of the wire image of the chunks it has not handled. */
  lemma FarHolds(cfg: Config, s: System)
    requires cfg.Sound() && Inv(cfg, s) && s.open
    ensures Wire(cfg.cipher, 0, s.framed)
      == Wire(cfg.cipher, 0, s.framed[..s.next]) + Wire(cfg.cipher, s.next, s.framed[s.next..])
    ensures s.buffered <= Wire(cfg.cipher, s.next, s.framed[s.next..])
    ensures Chunks(cfg.cipher, s.next, s.framed[s.next..])
    ensures Fits(cfg.cipher, s.next, cfg.senderSize, s.framed[s.next..])
  {
    hide Wire;
    FramedFits(cfg.cipher, cfg.limit, cfg.senderSize, 0, s.framed);
    var done, rest := s.framed[..s.next], s.framed[s.next..];
    assert s.framed == done + rest;
    WireConcat(cfg.cipher, 0, done, rest);
    var all, a, b := Wire(cfg.cipher, 0, s.framed), Wire(cfg.cipher, 0, done), Wire(cfg.cipher, s.next, rest);
    assert s.wire[..s.taken] == all[..s.taken];
    assert s.buffered == (a + s.buffered)[|a|..] == all[..s.taken][|a|..] == b[..s.taken - |a|];
  }

  /** A complete frame in the far buffer is the next chunk's, and the far end makes that chunk of it or nothing. */
  lemma FarHead(cfg: Config, s: System)
    requires cfg.Sound() && Inv(cfg, s) && s.open && NextFrame(s.buffered).Packet?
    ensures s.next < |s.framed| && NextFrame(s.buffered).payload == Protect(cfg.cipher, s.next, s.framed[s.next])
    ensures s.buffered == Frame(Protect(cfg.cipher, s.next, s.framed[s.next])) + NextFrame(s.buffered).rest
    ensures Head(cfg, s).Some? ==> Head(cfg, s).value == s.framed[s.next]
    ensures cfg.senderSize <= cfg.cap ==> Head(cfg, s).Some?
  {
    hide FrameHeader, PayloadSize, Wire, NextFrame;
    var p, rest := NextFrame(s.buffered).payload, NextFrame(s.buffered).rest;
    FarHolds(cfg, s);
    FrameOfNextFrame(s.buffered);
    var chunks := s.framed[s.next..];
    HeadPacket(cfg.cipher, s.next, chunks, p, rest);
    PlainOfProtect(cfg.cipher, s.next, cfg.cap, CHUNK_SIZE, chunks[0]);
    if cfg.senderSize <= cfg.cap {
      UnprotectProtect(cfg.cipher, s.next, cfg.cap, CHUNK_SIZE, chunks[0]);
    }
  }

  lemma FarForwardsKeepsInv(cfg: Config, s: System)
    requires cfg.Sound() && Inv(cfg, s) && Enabled(cfg, s, FarForwards)
    ensures Inv(cfg, Apply(cfg, s, FarForwards))
  {
    hide FrameHeader, PayloadSize, Wire, Frame, NextFrame;
    FarHead(cfg, s);
    var done, m, rest := s.framed[..s.next], s.framed[s.next], NextFrame(s.buffered).rest;
    assert s.framed[..s.next + 1] == done + [m];
    FlattenSnoc(done, m);
    FlattenPrefix(s.framed, s.next + 1);
    WireSnoc(cfg.cipher, 0, done, m);
    Associative(Wire(cfg.cipher, 0, done), Frame(Protect(cfg.cipher, s.next, m)), rest);
  }

  lemma StepKeepsInv(cfg: Config, s: System, step: Step)
    requires cfg.Sound() && Inv(cfg, s) && Enabled(cfg, s, step)
    ensures Inv(cfg, Apply(cfg, s, step))
  {
    hide FrameHeader, PayloadSize, Wire, Frame, NextFrame;
    match step
    case NearForwards(m) =>
      var frame := Frame(cfg.Message(|s.framed|, m).value);
      NearFrames(cfg, s, m, |frame|, Running);
      assert frame[..|frame|] == frame;
    case NearSendFails(m, n) =>
      if cfg.Message(|s.framed|, m).Some? {
        NearFrames(cfg, s, m, n, Failed);
      }
    case NearEnds =>
    case FarReads(n) =>
      assert s.wire[..s.taken + n] == s.wire[..s.taken] + s.wire[s.taken..s.taken + n];
      Associative(Wire(cfg.cipher, 0, s.framed[..s.next]), s.buffered, s.wire[s.taken..s.taken + n]);
    case FarForwards =>
      FarForwardsKeepsInv(cfg, s);
    case FarWriteFails(n) =>
      FarForwardsKeepsInv(cfg, s);
    case FarEnds =>
  }

  // ----- Runs -----

  /** The state a sequence of steps leads to, if each is enabled in its turn. */
  function Run(cfg: Config, s: System, steps: seq<Step>): Option<System>
    decreases |steps|
  {
    if steps == [] then Some(s)
    else if Enabled(cfg, s, steps[0]) then Run(cfg, Apply(cfg, s, steps[0]), steps[1..])
    else None
  }

  ghost predicate Reachable(cfg: Config, s: System) {
    exists steps :: Run(cfg, Start, steps) == Some(s)
  }

  lemma {:induction false} RunKeepsInv(cfg: Config, s: System, steps: seq<Step>)
    requires cfg.Sound() && Inv(cfg, s) && Run(cfg, s, steps).Some?
    ensures Inv(cfg, Run(cfg, s, steps).value)
    decreases |steps|
  {
    hide Inv, Apply, Enabled;
    if steps == [] {
    } else {
      StepKeepsInv(cfg, s, steps[0]);
      RunKeepsInv(cfg, Apply(cfg, s, steps[0]), steps[1..]);
    }
  }

  lemma ReachableInv(cfg: Config, s: System)
    requires cfg.Sound() && Reachable(cfg, s)
    ensures Inv(cfg, s)
  {
    var steps :| Run(cfg, Start, steps) == Some(s);
    EmptyWire(cfg.cipher, 0);
    assert Start.framed[..0] == [];
    RunKeepsInv(cfg, Start, steps);
  }

  /** At every moment of every run, what the far end has written is a prefix of what the near end has read. */
  lemma TunnelSafe(cfg: Config, s: System)
    requires cfg.Sound() && Reachable(cfg, s)
    ensures s.output <= s.read
  {
    ReachableInv(cfg, s);
  }

  /** Everything on the wire has been taken and no complete frame is left in the far buffer. */
  predicate Drained(s: System) {
    s.taken == |s.wire| && NextFrame(s.buffered).Incomplete?
  }

  /** Once drained, with no send failed and the far loop alive, the far end has written all that the near end read. */
  lemma TunnelComplete(cfg: Config, s: System)
    requires cfg.Sound() && Reachable(cfg, s)
    requires Drained(s) && s.open && !s.near.Failed?
    ensures s.output == s.read
  {
    hide FrameHeader, PayloadSize, Frame;
    ReachableInv(cfg, s);
    FarHolds(cfg, s);
    var a, rest := Wire(cfg.cipher, 0, s.framed[..s.next]), s.framed[s.next..];
    assert s.wire[..s.taken] == s.wire;
    assert s.buffered == s.wire[|a|..] == Wire(cfg.cipher, s.next, rest);
    if rest != [] {
      WireHead(cfg.cipher, s.next, rest);
      NextFrameOfFrame(Protect(cfg.cipher, s.next, rest[0]), Wire(cfg.cipher, s.next + 1, rest[1..]));
      assert false;
    }
    assert s.framed[..s.next] == s.framed;
  }

  /**
   No deadlock: while the far loop is alive and the system is not drained, the far end can read a
   byte or forward a message, provided the receiver's buffer is no smaller than the sender's. In
   particular the frame at the head of the buffer never ends the far loop.
   */
  lemma FarNeverStuck(cfg: Config, s: System)
    requires cfg.Sound() && Reachable(cfg, s) && cfg.senderSize <= cfg.cap
    requires s.open && !Drained(s)
    ensures Enabled(cfg, s, FarReads(1)) || Enabled(cfg, s, FarForwards)
  {
    hide FrameHeader;
    ReachableInv(cfg, s);
    if NextFrame(s.buffered).Packet? {
      FarHead(cfg, s);
    } else if |s.buffered| == cfg.cap + HEADER_SIZE {
      BufferHoldsFrame(cfg, s);
      assert false;
    }
  }

  /** A full far buffer holds a whole frame. */
  lemma BufferHoldsFrame(cfg: Config, s: System)
    requires cfg.Sound() && Inv(cfg, s) && s.open && cfg.senderSize <= cfg.cap
    requires |s.buffered| == cfg.cap + HEADER_SIZE
    ensures NextFrame(s.buffered).Packet?
  {
    hide FrameHeader, PayloadSize;
    FarHolds(cfg, s);
    var rest := s.framed[s.next..];
    EmptyWire(cfg.cipher, s.next);
    WireHead(cfg.cipher, s.next, rest);
    var p, later := Protect(cfg.cipher, s.next, rest[0]), Wire(cfg.cipher, s.next + 1, rest[1..]);
    var more := Wire(cfg.cipher, s.next, rest)[|s.buffered|..];
    CutAt(Frame(p), later, s.buffered, more);
    NextFrameOfFrame(p, s.buffered[|Frame(p)|..]);
  }

  // ----- The loops are runs -----

  lemma {:induction false} RunConcat(cfg: Config, s: System, a: seq<Step>, b: seq<Step>)
    requires Run(cfg, s, a).Some?
    ensures Run(cfg, s, a + b) == Run(cfg, Run(cfg, s, a).value, b)
    decreases |a|
  {
    hide Apply, Enabled;
    if a == [] {
      assert a + b == b;
    } else {
      assert (a + b)[1..] == a[1..] + b;
      RunConcat(cfg, Apply(cfg, s, a[0]), a[1..], b);
    }
  }

  lemma RunOne(cfg: Config, s: System, step: Step)
    requires Enabled(cfg, s, step)
    ensures Run(cfg, s, [step]) == Some(Apply(cfg, s, step))
  {
    hide Apply, Enabled;
    assert [step][1..] == [];
    assert Run(cfg, Apply(cfg, s, step), []) == Some(Apply(cfg, s, step));
  }

  lemma RunNone(cfg: Config, s: System)
    ensures Run(cfg, s, []) == Some(s)
  {
  }

  lemma FramedTail(cfg: Config, i: nat, chunks: seq<seq<byte>>)
    requires chunks != [] && Framed(cfg.cipher, cfg.limit, cfg.senderSize, i, chunks)
    ensures Framed(cfg.cipher, cfg.limit, cfg.senderSize, i + 1, chunks[1..])
    ensures 0 < |chunks[0]| <= CHUNK_SIZE && cfg.Message(i, chunks[0]) == Some(Protect(cfg.cipher, i, chunks[0]))
  {
    assert forall k :: 0 <= k < |chunks| - 1 ==> chunks[1..][k] == chunks[k + 1];
  }

  /** Chunks sent whole are a run of near steps. */
  lemma {:induction false} WholeSendsAreARun(cfg: Config, s: System, chunks: seq<seq<byte>>) returns (steps: seq<Step>)
    requires s.near.Running? && Framed(cfg.cipher, cfg.limit, cfg.senderSize, |s.framed|, chunks)
    ensures var wire := Wire(cfg.cipher, |s.framed|, chunks);
      Run(cfg, s, steps) == Some(s.(read := s.read + Flatten(chunks), framed := s.framed + chunks, wire := s.wire + wire))
    decreases |chunks|
  {
    hide Frame, Wire, Framed, Run;
    if chunks == [] {
      steps := [];
      EmptyWire(cfg.cipher, |s.framed|);
      RunNone(cfg, s);
      assert s == s.(read := s.read + [], framed := s.framed + [], wire := s.wire + []);
    } else {
      var m, rest := chunks[0], chunks[1..];
      var step := NearForwards(m);
      FramedTail(cfg, |s.framed|, chunks);
      var t := Apply(cfg, s, step);
      var later := WholeSendsAreARun(cfg, t, rest);
      steps := [step] + later;
      RunOne(cfg, s, step);
      RunConcat(cfg, s, [step], later);
      WireHead(cfg.cipher, |s.framed|, chunks);
      Associative(s.read, m, Flatten(rest));
      Associative(s.wire, Frame(Protect(cfg.cipher, |s.framed|, m)), Wire(cfg.cipher, |s.framed| + 1, rest));
      assert s.framed + chunks == t.framed + rest;
    }
  }

  /** The state a sending loop leaves behind, when it ends in this way. */
  function AfterSending(s: System, end: End, chunks: seq<seq<byte>>, wire: seq<byte>, lost: seq<byte>): System {
    s.(read := s.read + Flatten(chunks) + lost, framed := s.framed + chunks, wire := s.wire + wire,
       near := if end.SecureFailed? then Failed else Closed)
  }

  /** However the sending loop ends, what it did is a run of near steps. */
  lemma SendingLoopIsARun(cfg: Config, s: System, end: End, chunks: seq<seq<byte>>, wire: seq<byte>, lost: seq<byte>)
    returns (steps: seq<Step>)
    requires s.near.Running?
    requires Forwarded(cfg.cipher, cfg.limit, cfg.senderSize, |s.framed|, end, chunks, wire, lost)
    ensures Run(cfg, s, steps) == Some(AfterSending(s, end, chunks, wire, lost))
  {
    hide Frame, Wire, Framed, Run;
    var whole, step;
    if end.SecureFailed? && lost == [] {
      var n: nat :| CutShort(cfg.cipher, |s.framed|, chunks, wire, n);
      var last := |chunks| - 1;
      whole, step := chunks[..last], NearSendFails(chunks[last], n);
      FramedInit(cfg, |s.framed|, chunks);
      assert chunks == whole + [chunks[last]];
      FlattenSnoc(whole, chunks[last]);
      Associative(s.read, Flatten(whole), chunks[last]);
      Associative(s.wire, Wire(cfg.cipher, |s.framed|, whole), Frame(Protect(cfg.cipher, |s.framed| + last, chunks[last]))[..n]);
      assert s.framed + chunks == s.framed + whole + [chunks[last]];
    } else {
      whole, step := chunks, if end.SecureFailed? then NearSendFails(lost, 0) else NearEnds;
    }
    var sends := WholeSendsAreARun(cfg, s, whole);
    var u := Run(cfg, s, sends).value;
    RunOne(cfg, u, step);
    RunConcat(cfg, s, sends, [step]);
    steps := sends + [step];
    var t := Apply(cfg, u, step);
    assert s.read + Flatten(chunks) + [] == s.read + Flatten(chunks);
    assert t == AfterSending(s, end, chunks, wire, lost);
  }

  lemma FramedInit(cfg: Config, i: nat, chunks: seq<seq<byte>>)
    requires chunks != [] && Framed(cfg.cipher, cfg.limit, cfg.senderSize, i, chunks)
    ensures var last := |chunks| - 1;
      && Framed(cfg.cipher, cfg.limit, cfg.senderSize, i, chunks[..last])
      && 0 < |chunks[last]| <= CHUNK_SIZE
      && cfg.Message(i + last, chunks[last]) == Some(Protect(cfg.cipher, i + last, chunks[last]))
  {
  }

  lemma NetworkHands(wire: seq<byte>, taken: nat, data: seq<byte>, later: seq<byte>)
    requires taken <= |wire| && data + later <= wire[taken..]
    ensures taken + |data| <= |wire| && wire[taken..taken + |data|] == data && later <= wire[taken + |data|..]
  {
    assert wire[taken..taken + |data|] == wire[taken..][..|data|] == (data + later)[..|data|];
    assert wire[taken + |data|..] == wire[taken..][|data|..];
    assert later == (data + later)[|data|..];
  }

  /**
   The reads of one `receive` call are a run of far steps that ends with the frame it returns, if
   any, at the head of the buffer.
   */
  lemma {:induction false} ReceiveIsARun(cfg: Config, s: System,
      script: seq<ReadEvent>) returns (steps: seq<Step>, t: System)
    requires s.open && |s.buffered| <= cfg.cap + HEADER_SIZE && s.taken <= |s.wire|
    requires Data(script) <= s.wire[s.taken..]
    ensures var r := Framing.Receive(cfg.cap, s.buffered, script);
      && Run(cfg, s, steps) == Some(t)
      && |Data(r.script)| <= |Data(script)|
      && t == s.(buffered := t.buffered, taken := s.taken + |Data(script)| - |Data(r.script)|)
      && s.taken <= t.taken <= |t.wire| && Data(r.script) <= t.wire[t.taken..]
      && (r.outcome.Delivered? ==> NextFrame(t.buffered) == Packet(r.outcome.payload, r.buffered))
      && (!r.outcome.Delivered? ==> t.buffered == r.buffered)
    decreases cfg.cap + HEADER_SIZE - |s.buffered|
  {
    hide FrameHeader, PayloadSize, Frame, Framing.Receive, NextFrame, ReadSome, Data, Run;
    ReceiveUnrolled(cfg.cap, s.buffered, script);
    steps, t := [], s;
    RunNone(cfg, s);
    if NextFrame(s.buffered).Incomplete? && |s.buffered| < cfg.cap + HEADER_SIZE {
      var (event, later) := ReadSome(script, cfg.cap + HEADER_SIZE - |s.buffered|);
      var data := if event.Chunk? then event.data else [];
      NetworkHands(s.wire, s.taken, data, Data(later));
      if data != [] {
        var step := FarReads(|data|);
        var more;
        more, t := ReceiveIsARun(cfg, Apply(cfg, s, step), later);
        steps := [step] + more;
        RunOne(cfg, s, step);
        RunConcat(cfg, s, [step], more);
      }
    }
  }

  /** What a receiving loop has written when it ends in this way: all of the pump's output, or some of it if its own write failed. */
  predicate Written(pumped: Pumped, end: End, written: seq<byte>) {
    if end.PlainFailed? then pumped.output != [] && written <= pumped.output
    else end == pumped.end && written == pumped.output
  }

  /**
   However the receiving loop ends, given what the network will hand it, what it wrote is what some
   run of far steps writes, and that run ends with the far loop gone.
   */
  lemma {:induction false} ReceivingLoopIsARun(cfg: Config, s: System, script: seq<ReadEvent>, end: End, written: seq<byte>)
    returns (steps: seq<Step>, t: System)
    requires s.open && |s.buffered| <= cfg.cap + HEADER_SIZE && s.taken <= |s.wire|
    requires Data(script) <= s.wire[s.taken..]
    requires Written(Pump(cfg.cipher, s.next, cfg.cap, s.buffered, script), end, written)
    ensures Run(cfg, s, steps) == Some(t)
    ensures t.output == s.output + written && !t.open && t.read == s.read && t.wire == s.wire && t.near == s.near
    decreases |s.buffered| + |Data(script)|
  {
    hide FrameHeader, PayloadSize, Frame, Framing.Receive, NextFrame, Run, Unsealed, Data, Pump;
    ReceiveShrinks(cfg.cap, s.buffered, script);
    PumpUnrolled(cfg.cipher, s.next, cfg.cap, CHUNK_SIZE, s.buffered, script);
    var r := HalfReceive(cfg.cipher, s.next, cfg.cap, CHUNK_SIZE, s.buffered, script);
    var fetches, u := ReceiveIsARun(cfg, s, script);
    if r.message.Some? && r.message.value != [] {
      var m := r.message.value;
      assert Head(cfg, u) == r.message;
      if end.PlainFailed? && |written| <= |m| {
        steps, t := EndFar(cfg, s, fetches, u, FarWriteFails(|written|));
        assert written == m[..|written|];
      } else {
        var rest := Pump(cfg.cipher, r.next, cfg.cap, r.buffered, r.script);
        var later := written[|m|..];
        SplitWritten(m, rest.output, written);
        RunOne(cfg, u, FarForwards);
        RunConcat(cfg, s, fetches, [FarForwards]);
        var v := Apply(cfg, u, FarForwards);
        var more;
        more, t := ReceivingLoopIsARun(cfg, v, r.script, end, later);
        RunConcat(cfg, s, fetches + [FarForwards], more);
        steps := fetches + [FarForwards] + more;
        Associative(s.output, m, later);
      }
    } else {
      steps, t := EndFar(cfg, s, fetches, u, FarEnds);
      assert s.output + [] == s.output;
    }
  }

  lemma SplitWritten(m: seq<byte>, rest: seq<byte>, written: seq<byte>)
    requires written <= m + rest && |m| <= |written|
    ensures written == m + written[|m|..] && written[|m|..] <= rest
    ensures written == m + rest ==> written[|m|..] == rest
    ensures |m| < |written| ==> rest != []
  {
    assert written[..|m|] == (m + rest)[..|written|][..|m|] == m;
    assert written[|m|..] == (m + rest)[..|written|][|m|..] == rest[..|written| - |m|];
  }

  lemma EndFar(cfg: Config, s: System, fetches: seq<Step>, u: System, step: Step) returns (steps: seq<Step>, t: System)
    requires Run(cfg, s, fetches) == Some(u) && Enabled(cfg, u, step)
    ensures Run(cfg, s, steps) == Some(t) && t == Apply(cfg, u, step)
  {
    hide Run, Enabled, Apply;
    RunOne(cfg, u, step);
    RunConcat(cfg, s, fetches, [step]);
    steps, t := fetches + [step], Apply(cfg, u, step);
  }

  // ----- The loops of the program are such runs -----

  lemma ReachableOn(cfg: Config, s: System, steps: seq<Step>, t: System)
    requires Reachable(cfg, s) && Run(cfg, s, steps) == Some(t)
    ensures Reachable(cfg, t)
  {
    hide Run;
    var before :| Run(cfg, Start, before) == Some(s);
    RunConcat(cfg, Start, before, steps);
  }

  lemma NearEndState(cfg: Config, end: End, chunks: seq<seq<byte>>, wire: seq<byte>, lost: seq<byte>) returns (t: System)
    requires Forwarded(cfg.cipher, cfg.limit, cfg.senderSize, 0, end, chunks, wire, lost)
    ensures Reachable(cfg, t) && t.near == (if end.SecureFailed? then Failed else Closed)
    ensures t.framed == chunks && t.read == Flatten(chunks) + lost && t.wire == wire
    ensures t.taken == 0 && t.buffered == [] && t.next == 0 && t.output == [] && t.open
  {
    hide Forwarded, Run;
    var steps := SendingLoopIsARun(cfg, Start, end, chunks, wire, lost);
    t := AfterSending(Start, end, chunks, wire, lost);
  }

  lemma CleanIsReadWhole(script: seq<ReadEvent>, end: End, chunks: seq<seq<byte>>, lost: seq<byte>)
    requires Sent(Pulled(script), end, chunks, lost)
    ensures Clean(script) && end != SecureFailed ==> end == Orderly && Flatten(chunks) == Data(script)
  {
    hide Pulled;
    PulledExact(script);
  }

  /** The sending loop from a fresh session: however it ends, it leaves the near end of a reachable state. */
  method RunNearEnd(ingress: ByteStream, half: WriteHalf, ghost cfg: Config)
    returns (end: End, ghost t: System, ghost lost: seq<byte>)
    requires half.device.Valid() && ingress != half.device.stream && half.senderSize < U32_LIMIT && half.common.sent == 0
    requires cfg.cipher == half.common.outbound && cfg.limit == half.common.transferLimit && cfg.senderSize == half.senderSize
    modifies ingress`script, ingress`consumed, half.common`sent
    modifies half.device.stream`written, half.device.stream`failures, half.device.stream`shutDown
    ensures Sent(Pulled(old(ingress.script)), end, t.framed, lost) && t.read == Flatten(t.framed) + lost
    ensures Clean(old(ingress.script)) && end != SecureFailed ==> end == Orderly && t.read == Data(old(ingress.script))
    ensures Reachable(cfg, t) && t.near == (if end.SecureFailed? then Failed else Closed)
    ensures ingress.consumed == old(ingress.consumed) + t.read
    ensures half.device.stream.written == old(half.device.stream.written) + t.wire
    ensures t.taken == 0 && t.buffered == [] && t.next == 0 && t.output == [] && t.open
  {
    hide Pulled, Sent, Forwarded, Reachable, Wire, Chunks, Fits, Clean;
    ghost var chunks, wire;
    ghost var script := ingress.script;
    end, chunks, wire, lost := ForwardIntoTunnel(ingress, half);
    t := NearEndState(cfg, end, chunks, wire, lost);
    CleanIsReadWhole(script, end, chunks, lost);
    Associative(old(ingress.consumed), Flatten(chunks), lost);
  }

  /**
   The receiving loop from any reachable state of the far end: however it ends, what it writes
   continues that state to another reachable one, so by `TunnelSafe` it is what the near end read.
   */
  method RunFarEnd(half: ReadHalf, egress: ByteStream, ghost cfg: Config, ghost s: System) returns (end: End, ghost t: System)
    requires half.device.Valid() && egress != half.device.stream
    requires cfg.Sound() && cfg.cipher == half.common.inbound && cfg.cap == half.device.cap
    requires Reachable(cfg, s) && s.open && s.buffered == half.device.Buffered() && s.next == half.common.received
    requires s.taken <= |s.wire| && Data(half.device.stream.script) <= s.wire[s.taken..]
    modifies half.common`received, half.device`readRemain, half.device`delivered, half.device.readBuffer
    modifies half.device.stream`script, half.device.stream`consumed, egress`written, egress`failures, egress`shutDown
    ensures Reachable(cfg, t) && !t.open && t.read == s.read
    ensures s.output <= t.output <= s.read && egress.written == old(egress.written) + t.output[|s.output|..]
    ensures end != Orderly && egress.shutDown == old(egress.shutDown)
  {
    hide Reachable, Run;
    ghost var pumped := Pump(cfg.cipher, s.next, cfg.cap, s.buffered, half.device.stream.script);
    ghost var script := half.device.stream.script;
    NeverOrderly(cfg, s, script);
    end := ForwardOutOfTunnel(half, egress);
    ghost var written := egress.written[|old(egress.written)|..];
    assert Written(pumped, end, written);
    ghost var steps;
    steps, t := ReceivingLoopIsARun(cfg, s, script, end, written);
    ReachableOn(cfg, s, steps, t);
    TunnelSafe(cfg, t);
  }

  /** What the far end holds and what the network will hand it are the start of the chunks it has not handled. */
  lemma FarHoldsAhead(cfg: Config, s: System, script: seq<ReadEvent>)
    requires cfg.Sound() && Inv(cfg, s) && s.open && Data(script) <= s.wire[s.taken..]
    ensures s.buffered + Data(script) <= Wire(cfg.cipher, s.next, s.framed[s.next..])
    ensures Chunks(cfg.cipher, s.next, s.framed[s.next..])
  {
    hide Wire;
    FarHolds(cfg, s);
    var n := |Data(script)|;
    var a, b := Wire(cfg.cipher, 0, s.framed[..s.next]), Wire(cfg.cipher, s.next, s.framed[s.next..]);
    assert s.wire[..s.taken + n] == s.wire[..s.taken] + s.wire[s.taken..][..n];
    Associative(a, s.buffered, Data(script));
    assert a + (s.buffered + Data(script)) == s.wire[..s.taken + n] == (a + b)[..s.taken + n];
    assert s.buffered + Data(script) == (a + (s.buffered + Data(script)))[|a|..] == (a + b)[..s.taken + n][|a|..] == b[..s.taken + n - |a|];
  }

  /** From a reachable state the receiving loop never gets the empty message it would close on. */
  lemma NeverOrderly(cfg: Config, s: System, script: seq<ReadEvent>)
    requires cfg.Sound() && Reachable(cfg, s) && s.open
    requires s.taken <= |s.wire| && Data(script) <= s.wire[s.taken..]
    ensures |s.buffered| <= cfg.cap + HEADER_SIZE
    ensures Pump(cfg.cipher, s.next, cfg.cap, s.buffered, script).end == SecureFailed
  {
    hide Wire, Reachable;
    ReachableInv(cfg, s);
    FarHoldsAhead(cfg, s, script);
    PumpSafe(cfg.cipher, s.next, cfg.cap, s.buffered, script, s.framed[s.next..]);
  }
}
