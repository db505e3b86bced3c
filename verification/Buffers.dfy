/** The two in-place copies the program makes in its buffers. */
module Buffers {
  import opened Bytes

  /** `copy_from_slice` into `buf[from..from + |data|]`. */
  method CopyInto(buf: array<byte>, from: nat, data: seq<byte>)
    requires from + |data| <= buf.Length
    modifies buf
    ensures buf[..] == old(buf[..from]) + data + old(buf[from + |data|..])
  {
    for i := 0 to |data|
      invariant buf[..from] == old(buf[..from])
      invariant buf[from..from + i] == data[..i]
      invariant buf[from + |data|..] == old(buf[from + |data|..])
    {
      buf[from + i] := data[i];
    }
    assert buf[..] == buf[..from] + buf[from..from + |data|] + buf[from + |data|..];
  }

  /** `copy_within(from..upto, 0)`: shifts a stretch of the buffer down to its start. */
  method ShiftDown(buf: array<byte>, from: nat, upto: nat)
    requires from <= upto <= buf.Length
    modifies buf
    ensures buf[..upto - from] == old(buf[from..upto])
  {
    for i := 0 to upto - from
      invariant buf[..i] == old(buf[from..from + i])
      invariant buf[from + i..upto] == old(buf[from + i..upto])
    {
      assert buf[from + i] == buf[from + i..upto][0];
      buf[i] := buf[from + i];
    }
  }

  lemma SliceOfPrefix(a: array<byte>, n: nat, i: nat, j: nat)
    requires i <= j <= n <= a.Length
    ensures a[..n][i..j] == a[i..j] && a[..n][j..] == a[j..n]
  {
  }
}
