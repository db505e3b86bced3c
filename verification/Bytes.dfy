/** Bytes, fixed-width integers in both byte orders, and concatenation of byte strings. */
module Bytes {

  type byte = b: int | 0 <= b < 256

  function Pow256(k: nat): (p: nat)
    ensures 0 < p
  {
    if k == 0 then 1 else 256 * Pow256(k - 1)
  }

  /** The low `k` bytes of `n`, most significant first. */
  function ToBE(n: nat, k: nat): (bs: seq<byte>)
    ensures |bs| == k
  {
    if k == 0 then [] else ToBE(n / 256, k - 1) + [n % 256]
  }

  function FromBE(bs: seq<byte>): (n: nat)
    ensures n < Pow256(|bs|)
  {
    if bs == [] then 0 else 256 * FromBE(bs[..|bs| - 1]) + bs[|bs| - 1]
  }

  /** The low `k` bytes of `n`, least significant first. */
  function ToLE(n: nat, k: nat): (bs: seq<byte>)
    ensures |bs| == k
  {
    if k == 0 then [] else [n % 256] + ToLE(n / 256, k - 1)
  }

  function FromLE(bs: seq<byte>): (n: nat)
    ensures n < Pow256(|bs|)
  {
    if bs == [] then 0 else bs[0] + 256 * FromLE(bs[1..])
  }

  lemma {:induction false} FromBEToBE(n: nat, k: nat)
    requires n < Pow256(k)
    ensures FromBE(ToBE(n, k)) == n
  {
    if k == 0 {
    } else {
      FromBEToBE(n / 256, k - 1);
      assert ToBE(n, k)[..k - 1] == ToBE(n / 256, k - 1);
    }
  }

  lemma DigitAndRest(rest: nat, digit: byte)
    ensures (256 * rest + digit) / 256 == rest && (256 * rest + digit) % 256 == digit
  {
  }

  lemma {:induction false} ToBEFromBE(bs: seq<byte>)
    ensures ToBE(FromBE(bs), |bs|) == bs
  {
    if bs == [] {
    } else {
      var init := bs[..|bs| - 1];
      DigitAndRest(FromBE(init), bs[|bs| - 1]);
      ToBEFromBE(init);
      assert bs == init + [bs[|bs| - 1]];
    }
  }

  lemma {:induction false} FromLEToLE(n: nat, k: nat)
    requires n < Pow256(k)
    ensures FromLE(ToLE(n, k)) == n
  {
    if k == 0 {
    } else {
      FromLEToLE(n / 256, k - 1);
      assert ToLE(n, k)[1..] == ToLE(n / 256, k - 1);
    }
  }

  lemma {:induction false} ToLEFromLE(bs: seq<byte>)
    ensures ToLE(FromLE(bs), |bs|) == bs
  {
    if bs == [] {
    } else {
      var rest := bs[1..];
      DigitAndRest(FromLE(rest), bs[0]);
      ToLEFromLE(rest);
      assert bs == [bs[0]] + rest;
    }
  }

  function Reverse(bs: seq<byte>): (r: seq<byte>)
    ensures |r| == |bs|
  {
    if bs == [] then [] else Reverse(bs[1..]) + [bs[0]]
  }

  lemma {:induction false} ReverseSnoc(bs: seq<byte>, b: byte)
    ensures Reverse(bs + [b]) == [b] + Reverse(bs)
  {
    if bs == [] {
    } else {
      ReverseSnoc(bs[1..], b);
      assert (bs + [b])[1..] == bs[1..] + [b];
    }
  }

  lemma {:induction false} ReverseReverse(bs: seq<byte>)
    ensures Reverse(Reverse(bs)) == bs
  {
    if bs == [] {
    } else {
      ReverseReverse(bs[1..]);
      ReverseSnoc(Reverse(bs[1..]), bs[0]);
    }
  }

  lemma {:induction false} ToBEIsReversedToLE(n: nat, k: nat)
    ensures ToBE(n, k) == Reverse(ToLE(n, k))
  {
    if k == 0 {
    } else {
      ToBEIsReversedToLE(n / 256, k - 1);
      assert ToLE(n, k)[1..] == ToLE(n / 256, k - 1);
    }
  }

  lemma Pow256Values()
    ensures Pow256(1) == 0x100
    ensures Pow256(2) == 0x1_0000
    ensures Pow256(4) == 0x1_0000_0000
    ensures Pow256(8) == 0x1_0000_0000_0000_0000
  {
    assert Pow256(2) == 256 * Pow256(1);
    assert Pow256(3) == 256 * Pow256(2);
    assert Pow256(4) == 256 * Pow256(3);
    assert Pow256(6) == 256 * Pow256(5) == 256 * 256 * Pow256(4);
    assert Pow256(8) == 256 * Pow256(7) == 256 * 256 * Pow256(6);
  }

  lemma Associative(a: seq<byte>, b: seq<byte>, c: seq<byte>)
    ensures (a + b) + c == a + (b + c)
  {
  }

  lemma Regroup(f: seq<byte>, x: seq<byte>, y: seq<byte>, a: seq<byte>, b: seq<byte>, c: seq<byte>)
    requires x + y == a + b + c
    ensures f + x + y == (f + a) + b + c
  {
    Associative(f, x, y);
    Associative(f, a + b, c);
    Associative(f, a, b);
  }

  /** Equal concatenations split at the same place. */
  lemma CutAt(a: seq<byte>, b: seq<byte>, c: seq<byte>, d: seq<byte>)
    requires a + b == c + d && |a| <= |c|
    ensures c == a + c[|a|..] && b == c[|a|..] + d
  {
    assert a == (a + b)[..|a|] == (c + d)[..|a|] == c[..|a|];
    assert b == (a + b)[|a|..] == (c + d)[|a|..] == c[|a|..] + d;
  }

  /** Concatenation of a list of strings. */
  function Flatten(bss: seq<seq<byte>>): seq<byte> {
    if bss == [] then [] else bss[0] + Flatten(bss[1..])
  }

  lemma {:induction false} FlattenConcat(a: seq<seq<byte>>, b: seq<seq<byte>>)
    ensures Flatten(a + b) == Flatten(a) + Flatten(b)
  {
    if a == [] {
      assert a + b == b;
    } else {
      FlattenConcat(a[1..], b);
      assert (a + b)[1..] == a[1..] + b;
      Associative(a[0], Flatten(a[1..]), Flatten(b));
    }
  }

  lemma FlattenSnoc(a: seq<seq<byte>>, x: seq<byte>)
    ensures Flatten(a + [x]) == Flatten(a) + x
  {
    FlattenConcat(a, [x]);
    assert Flatten([x]) == x + Flatten([]);
  }

  /** Dropping the tail of a list leaves a prefix of its concatenation. */
  lemma FlattenPrefix(a: seq<seq<byte>>, k: nat)
    requires k <= |a|
    ensures Flatten(a[..k]) <= Flatten(a)
  {
    FlattenConcat(a[..k], a[k..]);
    assert a == a[..k] + a[k..];
  }
}
