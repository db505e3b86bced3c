/**
 The CBOR data items of RFC 8949 that the program's buffers are made of, with definite lengths: the
 encoder uses the shortest heads of section 4.1, the decoder accepts a head of any width.
 */
module Cbor {
  import opened Wrappers
  import opened Bytes

  const U64_LIMIT: nat := 0x1_0000_0000_0000_0000

  // ----- Heads (section 3) -----

  datatype Head = Head(major: nat, argument: nat, rest: seq<byte>)

  /** The major type in the top three bits, and the argument in the fewest bytes. */
  function EncodeHead(major: nat, n: nat): (bs: seq<byte>)
    requires major < 8
    ensures 0 < |bs| <= 9
  {
    if n < 24 then [32 * major + n]
    else if n < 0x100 then [32 * major + 24] + ToBE(n, 1)
    else if n < 0x1_0000 then [32 * major + 25] + ToBE(n, 2)
    else if n < 0x1_0000_0000 then [32 * major + 26] + ToBE(n, 4)
    else [32 * major + 27] + ToBE(n, 8)
  }

  /**
   How many bytes of argument follow an initial byte with this additional information, where it is
   defined and definite.
   */
  function ArgumentWidth(info: nat): Option<nat> {
    if info < 24 then Some(0)
    else if info == 24 then Some(1)
    else if info == 25 then Some(2)
    else if info == 26 then Some(4)
    else if info == 27 then Some(8)
    else None
  }

  function DecodeHead(bs: seq<byte>): (r: Option<Head>)
    ensures r.Some? ==> r.value.major < 8 && |r.value.rest| < |bs|
  {
    if bs == [] then None
    else
      var width :- ArgumentWidth(bs[0] % 32);
      if |bs| < 1 + width then None
      else
        var argument := if width == 0 then bs[0] % 32 else FromBE(bs[1..1 + width]);
        Some(Head(bs[0] / 32, argument, bs[1 + width..]))
  }

  lemma HeadOfWidth(major: nat, info: nat, width: nat, argument: seq<byte>, rest: seq<byte>)
    requires major < 8 && info < 32 && ArgumentWidth(info) == Some(width) && 0 < width == |argument|
    ensures DecodeHead([32 * major + info] + argument + rest) == Some(Head(major, FromBE(argument), rest))
  {
    hide FromBE, Pow256;
    var bs := [32 * major + info] + argument + rest;
    InitialByte(major, info);
    assert bs[0] == 32 * major + info;
    assert bs[1..1 + width] == argument && bs[1 + width..] == rest;
  }

  lemma SmallHead(major: nat, n: nat, rest: seq<byte>)
    requires major < 8 && n < 24
    ensures DecodeHead([32 * major + n] + rest) == Some(Head(major, n, rest))
  {
    InitialByte(major, n);
    assert ([32 * major + n] + rest)[1..] == rest;
  }

  lemma ArgumentWidths()
    ensures ArgumentWidth(24) == Some(1) && ArgumentWidth(25) == Some(2)
    ensures ArgumentWidth(26) == Some(4) && ArgumentWidth(27) == Some(8)
  {
  }

  lemma InitialByte(major: nat, info: nat)
    requires major < 8 && info < 32
    ensures (32 * major + info) / 32 == major && (32 * major + info) % 32 == info
  {
  }

  /** A head of any of the five widths reads back. */
  lemma HeadRoundTrip(major: nat, n: nat, rest: seq<byte>)
    requires major < 8 && n < U64_LIMIT
    ensures DecodeHead(EncodeHead(major, n) + rest) == Some(Head(major, n, rest))
  {
    hide ToBE, FromBE, DecodeHead, ArgumentWidth;
    Pow256Values();
    ArgumentWidths();
    if n < 24 {
      SmallHead(major, n, rest);
    } else if n < 0x100 {
      FromBEToBE(n, 1);
      HeadOfWidth(major, 24, 1, ToBE(n, 1), rest);
    } else if n < 0x1_0000 {
      FromBEToBE(n, 2);
      HeadOfWidth(major, 25, 2, ToBE(n, 2), rest);
    } else if n < 0x1_0000_0000 {
      FromBEToBE(n, 4);
      HeadOfWidth(major, 26, 4, ToBE(n, 4), rest);
    } else {
      FromBEToBE(n, 8);
      HeadOfWidth(major, 27, 8, ToBE(n, 8), rest);
    }
  }

  /** The decoder also reads an argument that is spelled in more bytes than it needs. */
  lemma HeadAnyWidth(major: nat, n: nat, rest: seq<byte>)
    requires major < 8
    ensures n < 0x100 ==> DecodeHead([32 * major + 24] + ToBE(n, 1) + rest) == Some(Head(major, n, rest))
    ensures n < 0x1_0000 ==> DecodeHead([32 * major + 25] + ToBE(n, 2) + rest) == Some(Head(major, n, rest))
    ensures n < 0x1_0000_0000 ==> DecodeHead([32 * major + 26] + ToBE(n, 4) + rest) == Some(Head(major, n, rest))
    ensures n < U64_LIMIT ==> DecodeHead([32 * major + 27] + ToBE(n, 8) + rest) == Some(Head(major, n, rest))
  {
    hide ToBE, FromBE, DecodeHead, Pow256;
    Pow256Values();
    HeadOfWidth(major, 24, 1, ToBE(n, 1), rest);
    HeadOfWidth(major, 25, 2, ToBE(n, 2), rest);
    HeadOfWidth(major, 26, 4, ToBE(n, 4), rest);
    HeadOfWidth(major, 27, 8, ToBE(n, 8), rest);
    if n < 0x100 { FromBEToBE(n, 1); }
    if n < 0x1_0000 { FromBEToBE(n, 2); }
    if n < 0x1_0000_0000 { FromBEToBE(n, 4); }
    if n < U64_LIMIT { FromBEToBE(n, 8); }
  }

  /** No head that the decoder accepts says the same in fewer bytes. */
  lemma HeadShortest(bs: seq<byte>)
    requires DecodeHead(bs).Some?
    ensures var Head(major, n, rest) := DecodeHead(bs).value;
      n < U64_LIMIT && |EncodeHead(major, n)| <= |bs| - |rest|
  {
    Pow256Values();
    var width := ArgumentWidth(bs[0] % 32).value;
    if width != 0 {
      assert FromBE(bs[1..1 + width]) < Pow256(width);
    }
  }

  // ----- Text (RFC 3629) -----

  predicate Continues(b: byte) { 0x80 <= b < 0xC0 }

  predicate ValidUtf8(bs: seq<byte>) {
    if bs == [] then true
    else if bs[0] < 0x80 then ValidUtf8(bs[1..])
    else if 0xC2 <= bs[0] < 0xE0 then
      2 <= |bs| && Continues(bs[1]) && ValidUtf8(bs[2..])
    else if 0xE0 <= bs[0] < 0xF0 then
      && 3 <= |bs| && Continues(bs[1]) && Continues(bs[2])
      && (bs[0] == 0xE0 ==> 0xA0 <= bs[1]) && (bs[0] == 0xED ==> bs[1] < 0xA0)
      && ValidUtf8(bs[3..])
    else if 0xF0 <= bs[0] < 0xF5 then
      && 4 <= |bs| && Continues(bs[1]) && Continues(bs[2]) && Continues(bs[3])
      && (bs[0] == 0xF0 ==> 0x90 <= bs[1]) && (bs[0] == 0xF4 ==> bs[1] < 0x90)
      && ValidUtf8(bs[4..])
    else false
  }

  lemma {:induction false} AsciiIsUtf8(bs: seq<byte>)
    requires forall i :: 0 <= i < |bs| ==> bs[i] < 0x80
    ensures ValidUtf8(bs)
  {
    if bs != [] {
      AsciiIsUtf8(bs[1..]);
    }
  }

  /** The characters of Unicode that text can hold: all code points but the surrogates. */
  predicate Scalar(c: nat) {
    c < 0x11_0000 && !(0xD800 <= c < 0xE000)
  }

  /** A character in one to four bytes, as in section 3 of RFC 3629. */
  function Utf8Char(c: nat): (bs: seq<byte>)
    requires Scalar(c)
    ensures bs != []
  {
    if c < 0x80 then [c]
    else if c < 0x800 then [0xC0 + c / 0x40, 0x80 + c % 0x40]
    else if c < 0x1_0000 then [0xE0 + c / 0x1000, 0x80 + c / 0x40 % 0x40, 0x80 + c % 0x40]
    else [0xF0 + c / 0x4_0000, 0x80 + c / 0x1000 % 0x40, 0x80 + c / 0x40 % 0x40, 0x80 + c % 0x40]
  }

  ghost predicate Scalars(cs: seq<nat>) {
    forall i :: 0 <= i < |cs| ==> Scalar(cs[i])
  }

  function Utf8(cs: seq<nat>): seq<byte>
    requires Scalars(cs)
  {
    if cs == [] then [] else Utf8Char(cs[0]) + Utf8(cs[1..])
  }

  lemma Utf8CharValid(c: nat, rest: seq<byte>)
    requires Scalar(c)
    ensures ValidUtf8(Utf8Char(c) + rest) <==> ValidUtf8(rest)
  {
    var bs := Utf8Char(c) + rest;
    assert bs[|Utf8Char(c)|..] == rest;
  }

  lemma {:induction false} Utf8Valid(cs: seq<nat>)
    requires Scalars(cs)
    ensures ValidUtf8(Utf8(cs))
  {
    if cs != [] {
      Utf8Valid(cs[1..]);
      Utf8CharValid(cs[0], Utf8(cs[1..]));
    }
  }

  lemma SixBits(rest: nat, digit: nat)
    requires digit < 0x40
    ensures (0x40 * rest + digit) / 0x40 == rest && (0x40 * rest + digit) % 0x40 == digit
  {
  }

  lemma ThreeBytes(a: nat, b: nat, c: nat)
    requires a < 0x10 && b < 0x40 && c < 0x40
    requires (a == 0x0 ==> 0x20 <= b) && (a == 0xD ==> b < 0x20)
    ensures var x := 0x40 * (0x40 * a + b) + c;
      Scalar(x) && Utf8Char(x) == [0xE0 + a, 0x80 + b, 0x80 + c]
  {
    SixBits(0x40 * a + b, c);
    SixBits(a, b);
  }

  lemma FourBytes(a: nat, b: nat, c: nat, d: nat)
    requires a < 5 && b < 0x40 && c < 0x40 && d < 0x40
    requires (a == 0 ==> 0x10 <= b) && (a == 4 ==> b < 0x10)
    ensures var x := 0x40 * (0x40 * (0x40 * a + b) + c) + d;
      Scalar(x) && Utf8Char(x) == [0xF0 + a, 0x80 + b, 0x80 + c, 0x80 + d]
  {
    SixBits(0x40 * (0x40 * a + b) + c, d);
    SixBits(0x40 * a + b, c);
    SixBits(a, b);
  }

  lemma FirstChar(bs: seq<byte>) returns (c: nat, n: nat)
    requires ValidUtf8(bs) && bs != []
    ensures Scalar(c) && 0 < n <= |bs| && Utf8Char(c) == bs[..n] && ValidUtf8(bs[n..])
  {
    var b0: int := bs[0];
    if b0 < 0x80 {
      c, n := b0, 1;
      assert Utf8Char(c) == [bs[0]] == bs[..n];
    } else if b0 < 0xE0 {
      var b1: int := bs[1];
      SixBits(b0 - 0xC0, b1 - 0x80);
      c, n := 0x40 * (b0 - 0xC0) + (b1 - 0x80), 2;
      assert Utf8Char(c) == [bs[0], bs[1]] == bs[..n];
    } else if b0 < 0xF0 {
      hide Utf8Char;
      var b1: int, b2: int := bs[1], bs[2];
      ThreeBytes(b0 - 0xE0, b1 - 0x80, b2 - 0x80);
      c, n := 0x40 * (0x40 * (b0 - 0xE0) + (b1 - 0x80)) + (b2 - 0x80), 3;
      assert Utf8Char(c) == [bs[0], bs[1], bs[2]] == bs[..n];
    } else {
      hide Utf8Char;
      var b1: int, b2: int, b3: int := bs[1], bs[2], bs[3];
      FourBytes(b0 - 0xF0, b1 - 0x80, b2 - 0x80, b3 - 0x80);
      c, n := 0x40 * (0x40 * (0x40 * (b0 - 0xF0) + (b1 - 0x80)) + (b2 - 0x80)) + (b3 - 0x80), 4;
      assert Utf8Char(c) == [bs[0], bs[1], bs[2], bs[3]] == bs[..n];
    }
  }

  lemma {:induction false} Utf8Of(bs: seq<byte>) returns (cs: seq<nat>)
    requires ValidUtf8(bs)
    ensures Scalars(cs) && Utf8(cs) == bs
    decreases |bs|
  {
    cs := [];
    if bs != [] {
      hide ValidUtf8, Utf8Char;
      var c, n := FirstChar(bs);
      var later := Utf8Of(bs[n..]);
      cs := [c] + later;
      assert cs[1..] == later;
    }
  }

  /** The text accepted is exactly the encodings of strings of Unicode characters. */
  lemma Utf8Exact(bs: seq<byte>)
    ensures ValidUtf8(bs) <==> exists cs :: Scalars(cs) && Utf8(cs) == bs
  {
    hide ValidUtf8, Utf8;
    if ValidUtf8(bs) {
      var cs := Utf8Of(bs);
    }
    if cs :| Scalars(cs) && Utf8(cs) == bs {
      Utf8Valid(cs);
    }
  }

  // ----- Data items -----

  /** A map holds its keys and values alternately, in the order they stand on the wire. */
  datatype Value =
    | Unsigned(n: nat)
    | Negative(n: nat)
    | ByteString(bytes: seq<byte>)
    | TextString(utf8: seq<byte>)
    | Array(items: seq<Value>)
    | Map(entries: seq<Value>)
    | Tagged(tag: nat, item: Value)

  /** The items a program can hold: 64-bit numbers and lengths, text that is UTF-8, a value to every key. */
  ghost predicate Encodable(v: Value) {
    match v
    case Unsigned(n) => n < U64_LIMIT
    case Negative(n) => n < U64_LIMIT
    case ByteString(bs) => |bs| < U64_LIMIT
    case TextString(bs) => |bs| < U64_LIMIT && ValidUtf8(bs)
    case Array(items) => |items| < U64_LIMIT && forall i :: 0 <= i < |items| ==> Encodable(items[i])
    case Map(entries) =>
      |entries| % 2 == 0 && |entries| / 2 < U64_LIMIT && forall i :: 0 <= i < |entries| ==> Encodable(entries[i])
    case Tagged(tag, item) => tag < U64_LIMIT && Encodable(item)
  }

  function Encode(v: Value): seq<byte>
    decreases v, 1
  {
    match v
    case Unsigned(n) => EncodeHead(0, n)
    case Negative(n) => EncodeHead(1, n)
    case ByteString(bs) => EncodeHead(2, |bs|) + bs
    case TextString(bs) => EncodeHead(3, |bs|) + bs
    case Array(items) => EncodeHead(4, |items|) + EncodeAll(items)
    case Map(entries) => EncodeHead(5, |entries| / 2) + EncodeAll(entries)
    case Tagged(tag, item) => EncodeHead(6, tag) + Encode(item)
  }

  function EncodeAll(vs: seq<Value>): seq<byte>
    decreases vs, 0
  {
    if vs == [] then [] else Encode(vs[0]) + EncodeAll(vs[1..])
  }

  /** The item at the head of `bs`, and what follows it. */
  function Decode(bs: seq<byte>): (r: Option<(Value, seq<byte>)>)
    ensures r.Some? ==> |r.value.1| < |bs|
    decreases |bs|, 0
  {
    var Head(major, n, rest) :- DecodeHead(bs);
    if major == 0 then Some((Unsigned(n), rest))
    else if major == 1 then Some((Negative(n), rest))
    else if major == 2 then
      if |rest| < n then None else Some((ByteString(rest[..n]), rest[n..]))
    else if major == 3 then
      if |rest| < n || !ValidUtf8(rest[..n]) then None else Some((TextString(rest[..n]), rest[n..]))
    else if major == 4 then
      var (items, after) :- DecodeAll(n, rest);
      Some((Array(items), after))
    else if major == 5 then
      var (entries, after) :- DecodeAll(2 * n, rest);
      Some((Map(entries), after))
    else if major == 6 then
      var (item, after) :- Decode(rest);
      Some((Tagged(n, item), after))
    else None
  }

  function DecodeAll(count: nat, bs: seq<byte>): (r: Option<(seq<Value>, seq<byte>)>)
    ensures r.Some? ==> |r.value.1| <= |bs| && |r.value.0| == count
    decreases |bs|, 1
  {
    if count == 0 then Some(([], bs))
    else
      var (first, rest) :- Decode(bs);
      var (others, after) :- DecodeAll(count - 1, rest);
      Some(([first] + others, after))
  }

  /**
   Every encodable item, however deeply nested and however wide its heads, reads back, and what
   follows it is left alone.
   */
  lemma {:induction false} RoundTrip(v: Value, rest: seq<byte>)
    requires Encodable(v)
    ensures Decode(Encode(v) + rest) == Some((v, rest))
    decreases v, 1
  {
    hide EncodeHead, DecodeHead, ValidUtf8;
    match v
    case Unsigned(n) => HeadRoundTrip(0, n, rest);
    case Negative(n) => HeadRoundTrip(1, n, rest);
    case ByteString(bs) =>
      HeadRoundTrip(2, |bs|, bs + rest);
      Associative(EncodeHead(2, |bs|), bs, rest);
      assert (bs + rest)[..|bs|] == bs && (bs + rest)[|bs|..] == rest;
    case TextString(bs) =>
      HeadRoundTrip(3, |bs|, bs + rest);
      Associative(EncodeHead(3, |bs|), bs, rest);
      assert (bs + rest)[..|bs|] == bs && (bs + rest)[|bs|..] == rest;
    case Array(items) =>
      HeadRoundTrip(4, |items|, EncodeAll(items) + rest);
      Associative(EncodeHead(4, |items|), EncodeAll(items), rest);
      RoundTripAll(items, rest);
    case Map(entries) =>
      HeadRoundTrip(5, |entries| / 2, EncodeAll(entries) + rest);
      Associative(EncodeHead(5, |entries| / 2), EncodeAll(entries), rest);
      RoundTripAll(entries, rest);
    case Tagged(tag, item) =>
      HeadRoundTrip(6, tag, Encode(item) + rest);
      Associative(EncodeHead(6, tag), Encode(item), rest);
      RoundTrip(item, rest);
  }

  lemma {:induction false} RoundTripAll(vs: seq<Value>, rest: seq<byte>)
    requires forall i :: 0 <= i < |vs| ==> Encodable(vs[i])
    ensures DecodeAll(|vs|, EncodeAll(vs) + rest) == Some((vs, rest))
    decreases vs, 0
  {
    hide EncodeHead, DecodeHead, Encode, Decode;
    if vs == [] {
      assert EncodeAll(vs) + rest == rest;
    } else {
      assert [vs[0]] + vs[1..] == vs;
      Associative(Encode(vs[0]), EncodeAll(vs[1..]), rest);
      RoundTrip(vs[0], EncodeAll(vs[1..]) + rest);
      RoundTripAll(vs[1..], rest);
    }
  }

  lemma HeadSuffix(bs: seq<byte>)
    requires DecodeHead(bs).Some?
    ensures var rest := DecodeHead(bs).value.rest; bs[|bs| - |rest|..] == rest
  {
  }

  /**
   Whatever is read is an item the program can hold, with text that is UTF-8, and what is left is the
   end of the input; no bytes that read as an item are fewer than its encoding.
   */
  lemma {:induction false} DecodeSound(bs: seq<byte>)
    requires Decode(bs).Some?
    ensures var (v, rest) := Decode(bs).value;
      Encodable(v) && |Encode(v)| + |rest| <= |bs| && bs[|bs| - |rest|..] == rest
    decreases |bs|, 0
  {
    hide EncodeHead, DecodeHead, ValidUtf8;
    HeadShortest(bs);
    HeadSuffix(bs);
    var Head(major, n, rest) := DecodeHead(bs).value;
    if major == 4 {
      DecodeAllSound(n, rest);
    } else if major == 5 {
      DecodeAllSound(2 * n, rest);
    } else if major == 6 {
      DecodeSound(rest);
    }
  }

  lemma {:induction false} DecodeAllSound(count: nat, bs: seq<byte>)
    requires DecodeAll(count, bs).Some?
    ensures var (vs, rest) := DecodeAll(count, bs).value;
      && (forall i :: 0 <= i < |vs| ==> Encodable(vs[i]))
      && |EncodeAll(vs)| + |rest| <= |bs| && bs[|bs| - |rest|..] == rest
    decreases |bs|, 1
  {
    hide Encode, Decode, Encodable;
    if count > 0 {
      DecodeSound(bs);
      var (first, rest) := Decode(bs).value;
      DecodeAllSound(count - 1, rest);
      var (others, after) := DecodeAll(count - 1, rest).value;
      assert ([first] + others)[1..] == others;
      assert bs[|bs| - |after|..] == bs[|bs| - |rest|..][|rest| - |after|..];
    }
  }

  /** `from_reader` on a buffer: the first item; the model ignores what follows it. */
  function FromReader(bs: seq<byte>): Option<Value> {
    var (v, _) :- Decode(bs);
    Some(v)
  }

  lemma FromReaderEncode(v: Value)
    requires Encodable(v)
    ensures FromReader(Encode(v)) == Some(v)
  {
    hide Encode, Decode;
    RoundTrip(v, []);
    assert Encode(v) + [] == Encode(v);
  }

  /** Items are told apart by their encodings, and no encoding is the start of another. */
  lemma PrefixFree(v: Value, w: Value, rest: seq<byte>)
    requires Encodable(v) && Encodable(w) && Encode(v) == Encode(w) + rest
    ensures v == w && rest == []
  {
    hide Encode, Decode;
    RoundTrip(v, []);
    RoundTrip(w, rest);
    assert Encode(v) + [] == Encode(v);
  }

  /** Examples of appendix A of RFC 8949: numbers of all widths, a negative one, text, and a tag. */
  lemma StandardVectors()
    ensures Encode(Unsigned(10)) == [0x0a] && Encode(Unsigned(100)) == [0x18, 0x64] && Encode(Unsigned(1000)) == [0x19, 0x03, 0xe8]
    ensures Encode(Unsigned(1_000_000)) == [0x1a, 0x00, 0x0f, 0x42, 0x40]
    ensures Encode(Unsigned(1_000_000_000_000)) == [0x1b, 0x00, 0x00, 0x00, 0xe8, 0xd4, 0xa5, 0x10, 0x00]
    ensures Encode(Negative(9)) == [0x29] && Encode(TextString([0xc3, 0xbc])) == [0x62, 0xc3, 0xbc]
    ensures Encode(Tagged(1, Unsigned(1_363_896_240))) == [0xc1, 0x1a, 0x51, 0x4b, 0x67, 0xb0]
  {
    hide ToBE;
    WideNumbers();
    SmallNumbers();
    assert Encode(TextString([0xc3, 0xbc])) == EncodeHead(3, 2) + [0xc3, 0xbc];
    assert Encode(Tagged(1, Unsigned(1_363_896_240))) == EncodeHead(6, 1) + Encode(Unsigned(1_363_896_240));
  }

  lemma SmallNumbers()
    ensures ToBE(100, 1) == [0x64] && ToBE(1000, 2) == [0x03, 0xe8]
  {
    assert ToBE(1000, 2) == ToBE(3, 1) + [0xe8];
  }

  lemma WideNumbers()
    ensures ToBE(1_000_000, 4) == [0x00, 0x0f, 0x42, 0x40]
    ensures ToBE(1_363_896_240, 4) == [0x51, 0x4b, 0x67, 0xb0]
    ensures ToBE(1_000_000_000_000, 8) == [0x00, 0x00, 0x00, 0xe8, 0xd4, 0xa5, 0x10, 0x00]
  {
    assert ToBE(15, 2) == ToBE(0, 1) + [0x0f] == [0x00, 0x0f];
    assert ToBE(3906, 3) == ToBE(15, 2) + [0x42];
    assert ToBE(1_000_000, 4) == ToBE(3906, 3) + [0x40];
    assert ToBE(20_811, 2) == ToBE(81, 1) + [0x4b] == [0x51, 0x4b];
    assert ToBE(5_327_719, 3) == ToBE(20_811, 2) + [0x67];
    assert ToBE(1_363_896_240, 4) == ToBE(5_327_719, 3) + [0xb0];
    VectorOf8();
  }

  lemma VectorOf8()
    ensures ToBE(1_000_000_000_000, 8) == [0x00, 0x00, 0x00, 0xe8, 0xd4, 0xa5, 0x10, 0x00]
  {
    assert ToBE(0, 3) == ToBE(0, 2) + [0];
    assert ToBE(0, 2) == ToBE(0, 1) + [0];
    assert ToBE(232, 4) == ToBE(0, 3) + [0xe8];
    assert ToBE(59_604, 5) == ToBE(232, 4) + [0xd4];
    assert ToBE(15_258_789, 6) == ToBE(59_604, 5) + [0xa5];
    assert ToBE(3_906_250_000, 7) == ToBE(15_258_789, 6) + [0x10];
    assert ToBE(1_000_000_000_000, 8) == ToBE(3_906_250_000, 7) + [0x00];
  }
}
