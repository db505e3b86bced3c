/**
 SPDM measurements: the responder offers its evidence's claims as one measurement block, and the
 requester reads the blocks back. Block layout as in section 10.11 of DSP0274 1.2.
 */
module Measurements {
  import opened Wrappers
  import opened Bytes
  import opened Buffers
  import opened Cbor
  import opened Claims
  import opened DiceCbor
  import opened Quotes
  import opened QuoteClaims

  const BLOCK_INDEX: nat := 0x01
  const QUERY_TOTAL_NUMBER: nat := 0x00
  const REQUEST_ALL: nat := 0xFF
  const DMTF: nat := 0x01
  const MANIFEST: nat := 0x04
  const RAW_BIT: nat := 0x80
  const BLOCK_HEADER: nat := 7

  datatype MeasurementHash = RawBitStream | Digest(algo: HashAlgo) | OtherHash

  datatype SummaryType = SummaryNone | SummaryTcb | SummaryAll

  /** A measurement block; `kind` is the value type with the raw bit. */
  datatype Block = Block(index: byte, specification: byte, size: nat, kind: byte, value: seq<byte>)

  datatype Record = Record(blocks: nat, data: seq<byte>)

  /** The sizes configured in the SPDM library. */
  datatype Limits = Limits(maxValue: nat, maxRecord: nat) {
    predicate Valid() { maxValue + 3 < 0x1_0000 }
  }

  function EncodeBlock(b: Block): seq<byte> {
    [b.index, b.specification] + ToLE(b.size, 2) + [b.kind] + ToLE(|b.value|, 2) + b.value
  }

  /** `SpdmMeasurementBlockStructure::read`: the next block and what follows it. */
  function ReadBlock(bs: seq<byte>): (r: Option<(Block, seq<byte>)>)
    ensures r.Some? ==> |r.value.1| < |bs|
  {
    if |bs| < BLOCK_HEADER then None
    else
      var n := FromLE(bs[5..7]);
      if |bs| < BLOCK_HEADER + n then None
      else Some((Block(bs[0], bs[1], FromLE(bs[2..4]), bs[4], bs[BLOCK_HEADER..BLOCK_HEADER + n]), bs[BLOCK_HEADER + n..]))
  }

  lemma BlockRoundTrip(b: Block, rest: seq<byte>)
    requires b.size < 0x1_0000 && |b.value| < 0x1_0000
    ensures ReadBlock(EncodeBlock(b) + rest) == Some((b, rest))
  {
    hide FromLE, ToLE;
    Pow256Values();
    FromLEToLE(b.size, 2);
    FromLEToLE(|b.value|, 2);
    var bs := EncodeBlock(b) + rest;
    assert bs[2..4] == ToLE(b.size, 2) && bs[5..7] == ToLE(|b.value|, 2);
    assert bs[BLOCK_HEADER..BLOCK_HEADER + |b.value|] == b.value && bs[BLOCK_HEADER + |b.value|..] == rest;
  }

  /** All the blocks that can be read one after the other. */
  function Blocks(bs: seq<byte>): seq<Block>
    decreases |bs|
  {
    match ReadBlock(bs)
    case None => []
    case Some((b, rest)) => [b] + Blocks(rest)
  }

  /** The requester's loop over a record. */
  method CollectBlocks(record: seq<byte>) returns (blocks: seq<Block>)
    ensures blocks == Blocks(record)
  {
    blocks := [];
    var rest := record;
    while true
      invariant Blocks(record) == blocks + Blocks(rest)
      decreases |rest|
    {
      var next := ReadBlock(rest);
      if next.None? {
        assert blocks + [] == blocks;
        return;
      }
      assert blocks + ([next.value.0] + Blocks(next.value.1)) == blocks + [next.value.0] + Blocks(next.value.1);
      blocks, rest := blocks + [next.value.0], next.value.1;
    }
  }

  /** Two copies in a row, one behind the other, at the front of a buffer. */
  lemma HeadAndValue(before: seq<byte>, head: seq<byte>, value: seq<byte>)
    requires |head| + |value| <= |before|
    ensures var headed := head + before[|head|..];
      var whole := headed[..|head|] + value + headed[|head| + |value|..];
      whole[..|head| + |value|] == head + value && whole[|head| + |value|..] == before[|head| + |value|..]
  {
    var headed := head + before[|head|..];
    assert headed[..|head|] == head && headed[|head| + |value|..] == before[|head| + |value|..];
  }

  method CopyHeadAndValue(record: array<byte>, head: seq<byte>, value: seq<byte>)
    requires |head| + |value| <= record.Length
    modifies record
    ensures record[..|head| + |value|] == head + value
    ensures record[|head| + |value|..] == old(record[|head| + |value|..])
  {
    ghost var before := record[..];
    CopyInto(record, 0, head);
    assert record[..] == head + before[|head|..];
    CopyInto(record, |head|, value);
    HeadAndValue(before, head, value);
    ghost var whole := record[..];
    assert record[..|head| + |value|] == whole[..|head| + |value|] && record[|head| + |value|..] == whole[|head| + |value|..];
  }

  /** `RatsMeasurementProvider`, with the claims buffer it was made from and the library's hash function. */
  datatype Provider = Provider(claimsBuffer: seq<byte>, hashAll: (HashAlgo, seq<byte>) -> Option<seq<byte>>, limits: Limits) {

    /** `create_rats_measurement_block`; a raw value that is too long stops the program. */
    function CreateBlock(hash: MeasurementHash): Option<Block> {
      match hash
      case RawBitStream =>
        if |claimsBuffer| > limits.maxValue then None
        else Some(Block(BLOCK_INDEX, DMTF, |claimsBuffer| + 3, MANIFEST + RAW_BIT, claimsBuffer))
      case Digest(algo) =>
        var digest :- hashAll(algo, claimsBuffer);
        if |digest| > limits.maxValue then None
        else Some(Block(BLOCK_INDEX, DMTF, |digest| + 3, MANIFEST, digest))
      case OtherHash => None
    }

    /** `create_rats_measurement_block_data`. */
    function BlockData(hash: MeasurementHash): Option<seq<byte>> {
      var block :- CreateBlock(hash);
      if |EncodeBlock(block)| > limits.maxRecord then None else Some(EncodeBlock(block))
    }

    /** `measurement_collection`. */
    function Collection(specification: nat, hash: MeasurementHash, index: nat): Option<Record> {
      if specification != DMTF then None
      else if index == QUERY_TOTAL_NUMBER then Some(Record(1, []))
      else if index == REQUEST_ALL || index == BLOCK_INDEX then
        var data :- BlockData(hash);
        Some(Record(1, data))
      else None
    }

    /** `generate_measurement_summary_hash`. */
    function SummaryHash(base: HashAlgo, hash: MeasurementHash, summary: SummaryType): Option<seq<byte>> {
      if summary.SummaryNone? then None
      else
        var data :- BlockData(hash);
        hashAll(base, data)
    }

    /** The writer's work: the encoded block at the front of a zeroed record. */
    method WriteBlockData(hash: MeasurementHash) returns (r: Option<(array<byte>, nat)>)
      ensures r.Some? <==> BlockData(hash).Some?
      ensures r.Some? ==>
        && fresh(r.value.0) && r.value.0.Length == limits.maxRecord && r.value.1 <= limits.maxRecord
        && r.value.0[..r.value.1] == BlockData(hash).value
        && forall i :: r.value.1 <= i < limits.maxRecord ==> r.value.0[i] == 0
    {
      hide ToLE, CreateBlock;
      var block := CreateBlock(hash);
      if block.None? || |EncodeBlock(block.value)| > limits.maxRecord {
        return None;
      }
      var record := new byte[limits.maxRecord](_ => 0);
      var b := block.value;
      var head := [b.index, b.specification] + ToLE(b.size, 2) + [b.kind] + ToLE(|b.value|, 2);
      CopyHeadAndValue(record, head, b.value);
      var used := BLOCK_HEADER + |b.value|;
      ghost var rest := record[used..];
      assert forall i :: used <= i < record.Length ==> record[i] == rest[i - used] == 0;
      return Some((record, used));
    }
  }

  /** `new_from_evidence`: the provider's buffer is the encoded claims of an evidence. */
  function FromEvidence(e: Evidence, hashAll: (HashAlgo, seq<byte>) -> Option<seq<byte>>, limits: Limits): Provider
    requires e.Valid()
  {
    Provider(GenerateClaimsBuffer(BuiltinClaims(e)), hashAll, limits)
  }

  lemma NamesShort()
    ensures forall i :: 0 <= i < |TDX_FIELDS| ==> |TDX_FIELDS[i].name| < 0x100
    ensures forall i :: 0 <= i < |TDX_15_FIELDS| ==> |TDX_15_FIELDS[i].name| < 0x100
    ensures forall i :: 0 <= i < |SGX_FIELDS| ==> |SGX_FIELDS[i].name| < 0x100
  {
  }

  lemma AsciiClaimEncodable(name: string, value: seq<byte>)
    requires |name| < 0x100 && |value| < U64_LIMIT
    ensures EncodableClaim(Claim(Ascii(name), value))
  {
    AsciiIsUtf8(Ascii(name));
  }

  ghost predicate AllEncodable(claims: seq<Claim>) {
    forall i :: 0 <= i < |claims| ==> EncodableClaim(claims[i])
  }

  lemma FieldClaimsEncodable(fields: seq<Field>, body: seq<byte>)
    requires Inside(fields, |body|) && |body| < U64_LIMIT && forall i :: 0 <= i < |fields| ==> |fields[i].name| < 0x100
    ensures AllEncodable(FieldClaims(fields, body))
  {
    hide Ascii, EncodableClaim;
    forall i | 0 <= i < |fields|
      ensures EncodableClaim(FieldClaims(fields, body)[i])
    {
      AsciiClaimEncodable(fields[i].name, body[fields[i].at..fields[i].at + fields[i].size]);
    }
  }

  lemma CommonClaimsEncodable(quote: seq<byte>, kind: string)
    requires |quote| < U64_LIMIT && |kind| < 0x100
    ensures AllEncodable(CommonClaims(quote, kind))
  {
    hide EncodableClaim;
    AsciiClaimEncodable(COMMON_QUOTE, quote);
    AsciiClaimEncodable(COMMON_QUOTE_TYPE, Ascii(kind));
  }

  /** The built-in claims can always be encoded: ASCII names, values no longer than the quote. */
  lemma BuiltinEncodable(e: Evidence)
    requires e.Valid() && |e.data| < U64_LIMIT
    ensures EncodableClaims(BuiltinClaims(e))
  {
    hide Ascii, EncodableClaim, FromLE, FieldClaims, CommonClaims;
    FieldsInside();
    NamesShort();
    match e.tee {
      case SgxDcap =>
        CommonClaimsEncodable(e.data[..SGX_QUOTE3 + U32(e.data, SGX_QUOTE3 - 4)], "sgx_dcap");
        FieldClaimsEncodable(SGX_FIELDS, SgxReportBody(e.data));
        SgxQuoteClaimIsTheQuote(e);
      case Tdx =>
        ReaderSucceeds(e.data);
        var (variant, body) := AsQuote(e.data).value;
        CommonClaimsEncodable(e.data, "tdx");
        FieldClaimsEncodable(TDX_FIELDS, body);
        FieldClaimsEncodable(TDX_15_FIELDS, if variant.Tdx5V15? then body else Zeros(TDX_BODY_15));
        TdxClaimsTileTheBody(e);
    }
  }

  /** What a requester should find measured: the claims buffer, or its digest. */
  function Measured(p: Provider, hash: MeasurementHash): Option<seq<byte>> {
    match hash
    case RawBitStream => Some(p.claimsBuffer)
    case Digest(algo) => p.hashAll(algo, p.claimsBuffer)
    case OtherHash => None
  }

  /** The block a requester should read back, in the numbers of the measurement specification. */
  ghost predicate IsBlockOf(b: Block, hash: MeasurementHash, measured: seq<byte>) {
    && b.index == 0x01 && b.specification == 0x01 && b.size == |measured| + 3
    && b.kind == (if hash.RawBitStream? then 0x84 else 0x04)
    && b.value == measured
  }

  /** The bytes of that block on the wire. */
  function BlockBytes(hash: MeasurementHash, measured: seq<byte>): seq<byte> {
    [0x01, 0x01] + ToLE(|measured| + 3, 2) + [if hash.RawBitStream? then 0x84 else 0x04] + ToLE(|measured|, 2) + measured
  }

  /**
   What is served, for any specification and index: nothing for another specification or index, a
   count of one block and no data for index 0, and the block with what is measured, when that fits,
   for the indices 1 and 0xFF; the requester's loop finds that one block in it.
   */
  lemma RecordFidelity(p: Provider, specification: nat, hash: MeasurementHash, index: nat)
    requires p.limits.Valid()
    ensures var record, measured := p.Collection(specification, hash, index), Measured(p, hash);
      && (specification != 0x01 || index !in {0x00, 0x01, 0xFF} ==> record == None)
      && (specification == 0x01 && index == 0x00 ==> record == Some(Record(1, [])))
      && (specification == 0x01 && index in {0x01, 0xFF} ==>
            && (record.Some? <==>
                  measured.Some? && |measured.value| <= p.limits.maxValue && 7 + |measured.value| <= p.limits.maxRecord)
            && (record.Some? ==>
                  && record == Some(Record(1, BlockBytes(hash, measured.value)))
                  && |Blocks(record.value.data)| == 1 && IsBlockOf(Blocks(record.value.data)[0], hash, measured.value)))
  {
    hide ToLE, FromLE;
    var record := p.Collection(specification, hash, index);
    if record.Some? && index != 0x00 {
      var block := p.CreateBlock(hash).value;
      BlockRoundTrip(block, []);
      assert EncodeBlock(block) + [] == record.value.data;
      assert Blocks(record.value.data) == [block] + Blocks([]);
    }
  }

  /**
   Measurement fidelity: asking for everything or for the block gives a record exactly when the claims,
   or their digest, fit; it is that block, byte for byte; the requester's loop finds one block in it; a
   raw one reads back as the claims, and the summary hash is the hash of that record.
   */
  lemma MeasurementFidelity(e: Evidence, hashAll: (HashAlgo, seq<byte>) -> Option<seq<byte>>, limits: Limits,
      hash: MeasurementHash, index: nat, base: HashAlgo, summary: SummaryType)
    requires e.Valid() && |e.data| < U64_LIMIT && limits.Valid() && (index == 0xFF || index == 0x01)
    ensures var p := FromEvidence(e, hashAll, limits);
      var record, measured := p.Collection(0x01, hash, index), Measured(p, hash);
      && (record.Some? <==>
            measured.Some? && |measured.value| <= limits.maxValue && 7 + |measured.value| <= limits.maxRecord)
      && (record.Some? ==>
            && record == Some(Record(1, BlockBytes(hash, measured.value)))
            && |Blocks(record.value.data)| == 1 && IsBlockOf(Blocks(record.value.data)[0], hash, measured.value)
            && (hash.RawBitStream? ==> ParseClaimsBuffer(measured.value) == Ok(BuiltinClaims(e))))
      && p.SummaryHash(base, hash, summary) ==
         (if record.None? || summary.SummaryNone? then None else hashAll(base, BlockBytes(hash, measured.value)))
  {
    hide GenerateClaimsBuffer, ParseClaimsBuffer, BuiltinClaims, EncodeBlock, Blocks, BlockBytes, IsBlockOf;
    RecordFidelity(FromEvidence(e, hashAll, limits), 0x01, hash, index);
    BuiltinEncodable(e);
    BuiltinDistinct(e);
    ClaimsRoundTrip(BuiltinClaims(e));
  }
}
