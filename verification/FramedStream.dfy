/**
 `FramedStream`: packets over a byte stream, reassembled in place in one fixed buffer.
 */
module FramedStreams {
  import opened Wrappers
  import opened Bytes
  import opened Framing
  import opened Buffers

  /**
   The socket underneath. `script` says how each `read` will behave: any fragments, ends of stream
   and errors in any order; `consumed` records what reads have handed over and `written` what
   writes have put on the wire, `failures` how many writes have failed.
   */
  class ByteStream {
    var script: seq<ReadEvent>
    ghost var consumed: seq<byte>
    var written: seq<byte>
    var shutDown: bool
    ghost var failures: nat

    constructor (script: seq<ReadEvent>)
      ensures this.script == script && consumed == [] && written == [] && !shutDown && failures == 0
    {
      this.script, consumed, written, shutDown, failures := script, [], [], false, 0;
    }

    /** Reads into `buf[from..]`; `Some(0)` is end of stream, `None` an error. */
    method Read(buf: array<byte>, from: nat) returns (r: Option<nat>)
      requires from <= buf.Length
      modifies this`script, this`consumed, buf
      ensures var (event, later) := ReadSome(old(script), buf.Length - from);
        && script == later
        && r == (if event.Chunk? then Some(|event.data|) else None)
        && consumed == old(consumed) + (if event.Chunk? then event.data else [])
        && buf[..] == old(buf[..from])
          + (if event.Chunk? then event.data + old(buf[from + |event.data|..]) else old(buf[from..]))
    {
      var (event, later) := ReadSome(script, buf.Length - from);
      script := later;
      if event.ReadError? {
        assert buf[..] == buf[..from] + buf[from..];
        return None;
      }
      CopyInto(buf, from, event.data);
      consumed := consumed + event.data;
      r := Some(|event.data|);
    }

    /** `write_all`: everything is written, or some prefix is and the call fails. */
    method WriteAll(data: seq<byte>) returns (ok: bool)
      modifies this`written, this`failures
      ensures failures == old(failures) + if ok then 0 else 1
      ensures ok ==> written == old(written) + data
      ensures !ok ==> exists n :: 0 <= n <= |data| && written == old(written) + data[..n]
    {
      if {
        case true =>
          written, ok := written + data, true;
        case true =>
          var n :| 0 <= n <= |data|;
          written, ok, failures := written + data[..n], false, failures + 1;
      }
    }

    method Flush() returns (ok: bool)
      modifies this`failures
      ensures failures == old(failures) + if ok then 0 else 1
    {
      if {
        case true => ok := true;
        case true => ok, failures := false, failures + 1;
      }
    }

    /** `shutdown(Shutdown::Write)`: the peer will see the end of the stream. */
    method Shutdown()
      modifies this`shutDown
      ensures shutDown
    {
      shutDown := true;
    }
  }

  class FramedStream {
    const stream: ByteStream
    const cap: nat
    const readBuffer: array<byte>
    var readRemain: nat
    ghost var delivered: seq<seq<byte>>

    ghost predicate Valid()
      reads this
    {
      readBuffer.Length == HEADER_SIZE + cap && readRemain <= readBuffer.Length
    }

    ghost function Buffered(): seq<byte>
      reads this, readBuffer
      requires Valid()
    {
      readBuffer[..readRemain]
    }

    /** Every byte read from the socket is in a payload handed out or still in the buffer. */
    ghost predicate Conserves()
      reads this, readBuffer, stream
      requires Valid()
    {
      stream.consumed == Frames(delivered) + Buffered()
    }

    constructor (stream: ByteStream, cap: nat)
      ensures Valid() && this.stream == stream && this.cap == cap && fresh(readBuffer)
      ensures Buffered() == [] && delivered == []
      ensures stream.consumed == [] ==> Conserves()
    {
      this.stream, this.cap := stream, cap;
      readBuffer := new byte[HEADER_SIZE + cap](_ => 0);
      readRemain, delivered := 0, [];
    }

    /** One read into the free part of the buffer; `data` is what it appended. */
    method Fetch(bufferSize: nat) returns (s: Option<nat>, ghost data: seq<byte>)
      requires Valid() && bufferSize < readBuffer.Length
      modifies readBuffer, stream`script, stream`consumed
      ensures var (event, later) := ReadSome(old(stream.script), readBuffer.Length - bufferSize);
        && stream.script == later
        && data == (if event.Chunk? then event.data else [])
        && s == (if event.Chunk? then Some(|data|) else None)
      ensures stream.consumed == old(stream.consumed) + data
      ensures bufferSize + |data| <= readBuffer.Length
      ensures readBuffer[..bufferSize + |data|] == old(readBuffer[..bufferSize]) + data
    {
      var (event, _) := ReadSome(stream.script, readBuffer.Length - bufferSize);
      s := stream.Read(readBuffer, bufferSize);
      data := if event.Chunk? then event.data else [];
    }

    /** The loop of `receive`: reads until the buffer heads a whole frame or a read gives up. */
    method AwaitFrame() returns (bufferSize: nat, expectedSize: nat, enough: bool, ghost fetched: seq<byte>)
      requires Valid()
      modifies readBuffer, stream`script, stream`consumed
      ensures bufferSize <= readBuffer.Length
      ensures var result := Framing.Receive(cap, old(Buffered()), old(stream.script));
        && stream.script == result.script
        && enough == result.outcome.Delivered?
        && (enough ==>
              && HEADER_SIZE <= expectedSize <= bufferSize
              && result.outcome == Delivered(readBuffer[HEADER_SIZE..expectedSize])
              && result.buffered == readBuffer[expectedSize..bufferSize]
              && readBuffer[..bufferSize] == FrameOf(result.outcome) + result.buffered)
        && (!enough ==> result.buffered == readBuffer[..bufferSize])
      ensures stream.consumed == old(stream.consumed) + fetched && readBuffer[..bufferSize] == old(Buffered()) + fetched
    {
      hide FrameHeader, PayloadSize, ReadSome, Framing.Receive;
      bufferSize, expectedSize, fetched := readRemain, 0, [];
      ghost var buf := readBuffer[..bufferSize];
      ghost var result := Framing.Receive(cap, buf, stream.script);
      while true
        invariant bufferSize <= readBuffer.Length && buf == readBuffer[..bufferSize]
        invariant expectedSize == 0 || (HEADER_SIZE <= bufferSize && expectedSize == PayloadSize(buf) + HEADER_SIZE)
        invariant Framing.Receive(cap, buf, stream.script) == result
        invariant stream.consumed == old(stream.consumed) + fetched && buf == old(Buffered()) + fetched
        decreases readBuffer.Length - bufferSize
      {
        ReceiveUnrolled(cap, buf, stream.script);
        if expectedSize == 0 && bufferSize >= HEADER_SIZE {
          PayloadSizeOfPrefix(buf, []);
          SliceOfPrefix(readBuffer, bufferSize, 0, HEADER_SIZE);
          expectedSize := PayloadSize(readBuffer[..HEADER_SIZE]) + HEADER_SIZE;
        }
        if expectedSize != 0 && bufferSize >= expectedSize {
          enough := true;
          FrameOfNextFrame(buf);
          SliceOfPrefix(readBuffer, bufferSize, HEADER_SIZE, expectedSize);
          return;
        }
        assert NextFrame(buf).Incomplete?;
        if bufferSize >= readBuffer.Length {
          enough := false;
          return;
        }
        var s, data := Fetch(bufferSize);
        if s.None? {
          enough := false;
          return;
        }
        if expectedSize != 0 {
          PayloadSizeOfPrefix(buf, data);
        }
        assert data == [] ==> buf + data == buf;
        Associative(old(stream.consumed), fetched, data);
        Associative(old(Buffered()), fetched, data);
        fetched := fetched + data;
        bufferSize := bufferSize + s.value;
        buf := buf + data;
        if s.value == 0 {
          enough := false;
          return;
        }
      }
    }

    /** Fills `out` with the next payload and returns its length, or fails leaving `out` alone. */
    method Receive(out: array<byte>) returns (r: Option<nat>)
      requires Valid() && cap <= out.Length && out != readBuffer
      modifies this`readRemain, this`delivered, readBuffer, stream`script, stream`consumed, out
      ensures Valid()
      ensures var result := Framing.Receive(cap, old(Buffered()), old(stream.script));
        && Buffered() == result.buffered
        && stream.script == result.script
        && (match result.outcome
            case Delivered(p) =>
              && r == Some(|p|) && |p| <= cap && out[..] == p + old(out[|p|..])
              && delivered == old(delivered) + [p]
            case _ => r == None && out[..] == old(out[..]) && delivered == old(delivered))
      ensures old(Conserves()) ==> Conserves()
    {
      hide Frame, Framing.Receive;
      var bufferSize, expectedSize, enough, fetched := AwaitFrame();
      Associative(Frames(delivered), old(Buffered()), fetched);
      if enough {
        var used := expectedSize - HEADER_SIZE;
        ghost var p := readBuffer[HEADER_SIZE..expectedSize];
        ghost var rest := readBuffer[expectedSize..bufferSize];
        CopyInto(out, 0, readBuffer[HEADER_SIZE..expectedSize]);
        delivered := delivered + [p];
        FramesSnoc(old(delivered), p);
        Associative(Frames(old(delivered)), Frame(p), rest);
        ShiftDown(readBuffer, expectedSize, bufferSize);
        readRemain := bufferSize - expectedSize;
        return Some(used);
      } else {
        readRemain := bufferSize;
        return None;
      }
    }

    /**
     Writes one frame; fails exactly when the socket does, and then some prefix of it is on the wire.
     The read side is not touched.
     */
    method Send(payload: seq<byte>) returns (ok: bool)
      requires Valid()
      modifies stream`written, stream`failures
      ensures stream.failures == old(stream.failures) + if ok then 0 else 1
      ensures ok ==> stream.written == old(stream.written) + Frame(payload)
      ensures !ok ==> exists n :: 0 <= n <= |Frame(payload)| && stream.written == old(stream.written) + Frame(payload)[..n]
    {
      hide FrameHeader;
      var header := FrameHeader(|payload|);
      ok := stream.WriteAll(header);
      if !ok {
        ghost var n :| 0 <= n <= |header| && stream.written == old(stream.written) + header[..n];
        assert Frame(payload)[..n] == header[..n];
        return;
      }
      ghost var sent := stream.written;
      ok := stream.WriteAll(payload);
      if !ok {
        ghost var n :| 0 <= n <= |payload| && stream.written == sent + payload[..n];
        assert Frame(payload)[..HEADER_SIZE + n] == header + payload[..n];
        return;
      }
      assert stream.written == old(stream.written) + Frame(payload);
      assert Frame(payload)[..|Frame(payload)|] == Frame(payload);
      ok := stream.Flush();
    }
  }
}
