/**
 TEE quotes as raw bytes: the SGX and TDX validators, the unchecked readers behind them, and the
 claims read out of an accepted quote. The sizes and offsets are those of Intel's packed C structures.
 */
module Quotes {
  import opened Wrappers
  import opened Bytes
  import DiceCbor

  const QUOTE_HEADER: nat := 48        // sgx_quote4_header_t
  const SGX_BODY: nat := 384           // sgx_report_body_t
  const SGX_QUOTE3: nat := 436         // sgx_quote3_t, without the signature
  const TDX_BODY: nat := 584           // sgx_report2_body_t
  const TDX_BODY_15: nat := 648        // sgx_report2_body_v1_5_t
  const TDX_QUOTE4: nat := 636         // sgx_quote4_t, without the signature
  const TDX_QUOTE5: nat := 54          // sgx_quote5_t: the body starts here
  const TEE_TYPE_TDX: nat := 0x81

  datatype QuoteError = MalformedQuote | UnsupportedEvidenceType

  function U16(q: seq<byte>, at: nat): (n: nat)
    requires at + 2 <= |q|
  {
    FromLE(q[at..at + 2])
  }

  function U32(q: seq<byte>, at: nat): (n: nat)
    requires at + 4 <= |q|
  {
    FromLE(q[at..at + 4])
  }

  function Version(q: seq<byte>): nat
    requires QUOTE_HEADER <= |q|
  {
    U16(q, 0)
  }

  function AttKeyType(q: seq<byte>): nat
    requires QUOTE_HEADER <= |q|
  {
    U16(q, 2)
  }

  function TeeTypeField(q: seq<byte>): nat
    requires QUOTE_HEADER <= |q|
  {
    U32(q, 4)
  }

  // ----- The validators -----

  /** `SgxDcapEvidence::new_from_unchecked`. */
  function NewSgx(q: seq<byte>): Result<seq<byte>, QuoteError> {
    if |q| < QUOTE_HEADER then Err(MalformedQuote)
    else if (Version(q) == 3 && (AttKeyType(q) == 2 || AttKeyType(q) == 3))
         || ((Version(q) == 4 || Version(q) == 5) && TeeTypeField(q) == 0) then
      if |q| < SGX_QUOTE3 then Err(MalformedQuote)
      else if |q| != SGX_QUOTE3 + U32(q, SGX_QUOTE3 - 4) then Err(MalformedQuote)
      else Ok(q)
    else Err(UnsupportedEvidenceType)
  }

  /** The guard of a version 5 quote with a body of `body` bytes; no read is evaluated before its bound is. */
  predicate BadQuote5(q: seq<byte>, body: nat)
    requires TDX_QUOTE5 <= |q|
  {
    || body != U32(q, 50)
    || |q| < TDX_QUOTE5 + body + 4
    || |q| != TDX_QUOTE5 + body + 4 + U32(q, TDX_QUOTE5 + body)
  }

  /** `TdxEvidence::new_from_unchecked`. */
  function NewTdx(q: seq<byte>): Result<seq<byte>, QuoteError> {
    if |q| < QUOTE_HEADER then Err(MalformedQuote)
    else if Version(q) == 4 && TeeTypeField(q) == TEE_TYPE_TDX then
      if |q| < TDX_QUOTE4 then Err(MalformedQuote)
      else if |q| != TDX_QUOTE4 + U32(q, TDX_QUOTE4 - 4) then Err(MalformedQuote)
      else Ok(q)
    else if Version(q) == 5 && TeeTypeField(q) == TEE_TYPE_TDX then
      if |q| < TDX_QUOTE5 then Err(MalformedQuote)
      else if U16(q, 48) == 2 then if BadQuote5(q, TDX_BODY) then Err(MalformedQuote) else Ok(q)
      else if U16(q, 48) == 3 then if BadQuote5(q, TDX_BODY_15) then Err(MalformedQuote) else Ok(q)
      else Err(UnsupportedEvidenceType)
    else Err(UnsupportedEvidenceType)
  }

  // ----- The layouts they stand for -----

  /** A quote in parts: header fields, the version 5 body descriptor (empty otherwise), body and signature. */
  datatype Layout = Layout(
    version: nat, attKeyType: nat, teeType: nat, headerRest: seq<byte>,
    descriptor: seq<byte>, body: seq<byte>, signature: seq<byte>)
  {
    predicate Fields() {
      version < 0x1_0000 && attKeyType < 0x1_0000 && teeType < 0x1_0000_0000
      && |headerRest| == 40 && |signature| < 0x1_0000_0000
    }

    function Serialized(): seq<byte> {
      ToLE(version, 2) + ToLE(attKeyType, 2) + ToLE(teeType, 4) + headerRest
      + descriptor + body + ToLE(|signature|, 4) + signature
    }

    predicate IsSgx() {
      && Fields() && descriptor == [] && |body| == 384
      && ((version == 3 && attKeyType in {2, 3}) || (version in {4, 5} && teeType == 0))
    }

    predicate IsTdx() {
      Fields() && teeType == 0x81 && TdxVariant().Some?
    }

    /** Which TDX layout the version, the body descriptor and the body's size make together, if any. */
    function TdxVariant(): Option<Variant> {
      if version == 4 && descriptor == [] && |body| == 584 then Some(Tdx4)
      else if version == 5 && descriptor == ToLE(2, 2) + ToLE(584, 4) && |body| == 584 then Some(Tdx5V10)
      else if version == 5 && descriptor == ToLE(3, 2) + ToLE(648, 4) && |body| == 648 then Some(Tdx5V15)
      else None
    }
  }

  datatype Variant = Tdx4 | Tdx5V10 | Tdx5V15

  /** Where the parts of a serialized layout are found. */
  lemma SerializedFields(l: Layout)
    requires l.Fields()
    ensures var q, d, b := l.Serialized(), |l.descriptor|, |l.body|;
      && |q| == QUOTE_HEADER + d + b + 4 + |l.signature|
      && Version(q) == l.version && AttKeyType(q) == l.attKeyType && TeeTypeField(q) == l.teeType
      && q[QUOTE_HEADER..QUOTE_HEADER + d] == l.descriptor
      && q[QUOTE_HEADER + d..QUOTE_HEADER + d + b] == l.body
      && U32(q, QUOTE_HEADER + d + b) == |l.signature|
  {
    hide ToLE, FromLE;
    Pow256Values();
    FromLEToLE(l.version, 2);
    FromLEToLE(l.attKeyType, 2);
    FromLEToLE(l.teeType, 4);
    FromLEToLE(|l.signature|, 4);
    var q, d, b := l.Serialized(), |l.descriptor|, |l.body|;
    assert q[0..2] == ToLE(l.version, 2);
    assert q[2..4] == ToLE(l.attKeyType, 2);
    assert q[4..8] == ToLE(l.teeType, 4);
    assert q[QUOTE_HEADER + d + b..QUOTE_HEADER + d + b + 4] == ToLE(|l.signature|, 4);
  }

  /** Any bytes of the right length, cut into parts. */
  function Cut(q: seq<byte>, descriptor: nat, body: nat): Layout
    requires QUOTE_HEADER + descriptor + body + 4 <= |q|
  {
    var at := QUOTE_HEADER + descriptor;
    Layout(Version(q), AttKeyType(q), TeeTypeField(q), q[8..QUOTE_HEADER],
      q[QUOTE_HEADER..at], q[at..at + body], q[at + body + 4..])
  }

  lemma CutSerialized(q: seq<byte>, descriptor: nat, body: nat)
    requires QUOTE_HEADER + descriptor + body + 4 <= |q|
    requires |q| == QUOTE_HEADER + descriptor + body + 4 + U32(q, QUOTE_HEADER + descriptor + body)
    ensures Cut(q, descriptor, body).Fields() && Cut(q, descriptor, body).Serialized() == q
  {
    hide ToLE, FromLE;
    Pow256Values();
    var at := QUOTE_HEADER + descriptor;
    ToLEFromLE(q[0..2]);
    ToLEFromLE(q[2..4]);
    ToLEFromLE(q[4..8]);
    ToLEFromLE(q[at + body..at + body + 4]);
    assert q[0..2] + q[2..4] + q[4..8] + q[8..QUOTE_HEADER] + q[QUOTE_HEADER..at] + q[at..at + body]
      + q[at + body..at + body + 4] + q[at + body + 4..] == q;
  }

  /** The SGX validator accepts exactly the serialized SGX layouts. */
  lemma SgxExact(q: seq<byte>)
    ensures NewSgx(q) == Ok(q) <==> exists l: Layout :: l.IsSgx() && l.Serialized() == q
    ensures NewSgx(q).Ok? ==> NewSgx(q) == Ok(q)
  {
    hide FromLE, ToLE;
    if NewSgx(q).Ok? {
      CutSerialized(q, 0, SGX_BODY);
      assert Cut(q, 0, SGX_BODY).IsSgx();
    }
    if l: Layout :| l.IsSgx() && l.Serialized() == q {
      SerializedFields(l);
    }
  }

  /** The six descriptor bytes of a version 5 quote say a type and a size. */
  lemma DescriptorFields(q: seq<byte>, kind: nat, size: nat)
    requires TDX_QUOTE5 <= |q| && kind < 0x1_0000 && size < 0x1_0000_0000
    ensures q[QUOTE_HEADER..TDX_QUOTE5] == ToLE(kind, 2) + ToLE(size, 4) <==> U16(q, 48) == kind && U32(q, 50) == size
  {
    hide ToLE, FromLE;
    Pow256Values();
    var a, b := q[48..50], q[50..54];
    assert q[QUOTE_HEADER..TDX_QUOTE5] == a + b;
    ToLEFromLE(a);
    ToLEFromLE(b);
    FromLEToLE(kind, 2);
    FromLEToLE(size, 4);
    if a + b == ToLE(kind, 2) + ToLE(size, 4) {
      assert a == (a + b)[..2] == (ToLE(kind, 2) + ToLE(size, 4))[..2] == ToLE(kind, 2);
      assert b == (a + b)[2..] == (ToLE(kind, 2) + ToLE(size, 4))[2..] == ToLE(size, 4);
    }
  }

  /** The TDX validator accepts exactly the serialized TDX layouts. */
  lemma TdxExact(q: seq<byte>)
    ensures NewTdx(q) == Ok(q) <==> exists l: Layout :: l.IsTdx() && l.Serialized() == q
    ensures NewTdx(q).Ok? ==> NewTdx(q) == Ok(q)
  {
    hide FromLE, ToLE;
    if NewTdx(q).Ok? {
      var l := TdxLayout(q);
    }
    if l: Layout :| l.IsTdx() && l.Serialized() == q {
      TdxAccepts(l);
    }
  }

  lemma TdxLayout(q: seq<byte>) returns (l: Layout)
    requires NewTdx(q).Ok?
    ensures l.IsTdx() && l.Serialized() == q
  {
    hide FromLE, ToLE;
    if Version(q) == 4 {
      CutSerialized(q, 0, TDX_BODY);
      l := Cut(q, 0, TDX_BODY);
    } else if U16(q, 48) == 2 {
      DescriptorFields(q, 2, TDX_BODY);
      CutSerialized(q, 6, TDX_BODY);
      l := Cut(q, 6, TDX_BODY);
    } else {
      DescriptorFields(q, 3, TDX_BODY_15);
      CutSerialized(q, 6, TDX_BODY_15);
      l := Cut(q, 6, TDX_BODY_15);
    }
  }

  lemma TdxAccepts(l: Layout)
    requires l.IsTdx()
    ensures NewTdx(l.Serialized()) == Ok(l.Serialized())
  {
    hide FromLE, ToLE;
    SerializedFields(l);
    if l.version == 5 {
      DescriptorFields(l.Serialized(), 2, TDX_BODY);
      DescriptorFields(l.Serialized(), 3, TDX_BODY_15);
    }
  }

  // ----- The readers of an accepted quote -----

  /**
   `as_quote`: which structure the bytes are viewed as, and its report body. It repeats none of the
   validator's length checks; that every read is inside the data follows from acceptance.
   */
  function AsQuote(data: seq<byte>): Result<(Variant, seq<byte>), QuoteError>
    requires NewTdx(data).Ok?
  {
    if Version(data) == 4 then Ok((Tdx4, data[QUOTE_HEADER..QUOTE_HEADER + TDX_BODY]))
    else if Version(data) == 5 then
      if U16(data, 48) == 2 then Ok((Tdx5V10, data[TDX_QUOTE5..TDX_QUOTE5 + TDX_BODY]))
      else if U16(data, 48) == 3 then Ok((Tdx5V15, data[TDX_QUOTE5..TDX_QUOTE5 + TDX_BODY_15]))
      else Err(UnsupportedEvidenceType)
    else Err(UnsupportedEvidenceType)
  }

  /**
   The reader and the validator agree: on every accepted layout the view succeeds, with its variant
   and its body.
   */
  lemma ReaderAgrees(l: Layout)
    requires l.IsTdx()
    ensures NewTdx(l.Serialized()).Ok? && AsQuote(l.Serialized()) == Ok((l.TdxVariant().value, l.body))
  {
    hide FromLE, ToLE;
    TdxAccepts(l);
    SerializedFields(l);
    if l.version == 5 {
      DescriptorFields(l.Serialized(), 2, TDX_BODY);
      DescriptorFields(l.Serialized(), 3, TDX_BODY_15);
    }
  }

  lemma ReaderSucceeds(data: seq<byte>)
    requires NewTdx(data).Ok?
    ensures AsQuote(data).Ok?
    ensures |AsQuote(data).value.1| == if AsQuote(data).value.0.Tdx5V15? then TDX_BODY_15 else TDX_BODY
  {
    hide FromLE, ToLE;
  }

  const REPORT_DATA: nat := 64
  const SGX_REPORT_DATA_AT: nat := 320
  const TDX_REPORT_DATA_AT: nat := 520

  function SgxReportBody(data: seq<byte>): (body: seq<byte>)
    requires NewSgx(data).Ok?
    ensures |body| == SGX_BODY
  {
    data[QUOTE_HEADER..QUOTE_HEADER + SGX_BODY]
  }

  function TdxReportBody(data: seq<byte>): (body: seq<byte>)
    requires NewTdx(data).Ok?
    ensures TDX_BODY <= |body|
  {
    ReaderSucceeds(data);
    AsQuote(data).value.1
  }

  // ----- Evidence of either kind -----

  datatype TeeType = SgxDcap | Tdx

  /** `AutoEvidence`: bytes that one of the validators accepted, under its TEE type. */
  datatype Evidence = Evidence(tee: TeeType, data: seq<byte>) {
    predicate Valid() {
      match tee
      case SgxDcap => NewSgx(data).Ok?
      case Tdx => NewTdx(data).Ok?
    }

    function ReportData(): (d: seq<byte>)
      requires Valid()
      ensures |d| == REPORT_DATA
    {
      match tee
      case SgxDcap => SgxReportBody(data)[SGX_REPORT_DATA_AT..SGX_REPORT_DATA_AT + REPORT_DATA]
      case Tdx => TdxReportBody(data)[TDX_REPORT_DATA_AT..TDX_REPORT_DATA_AT + REPORT_DATA]
    }
  }

  /** `create_evidence_from_dice` for one kind: `None` for a tag that is not its own. */
  function FromDice(tee: TeeType, tag: nat, raw: seq<byte>): Option<Result<Evidence, QuoteError>> {
    if tag == DiceCbor.TAG_INTEL_TEE_QUOTE then
      match (if tee.SgxDcap? then NewSgx(raw) else NewTdx(raw))
      case Ok(data) => Some(Ok(Evidence(tee, data)))
      case Err(e) => Some(Err(e))
    else if tag == DiceCbor.TAG_INTEL_TEE_REPORT then Some(Err(UnsupportedEvidenceType))
    else None
  }

  /** `AutoEvidence::create_evidence_from_dice`, trying the kinds in the order given. */
  function TryInOrder(first: TeeType, second: TeeType, tag: nat, raw: seq<byte>): Option<Evidence> {
    match FromDice(first, tag, raw)
    case Some(Ok(e)) => Some(e)
    case _ =>
      match FromDice(second, tag, raw)
      case Some(Ok(e)) => Some(e)
      case _ => None
  }

  function AutoEvidence(tag: nat, raw: seq<byte>): Option<Evidence> {
    TryInOrder(SgxDcap, Tdx, tag, raw)
  }

  /** No bytes are both an SGX and a TDX quote. */
  lemma KindsDisjoint(q: seq<byte>)
    ensures NewSgx(q).Err? || NewTdx(q).Err?
  {
    hide FromLE, ToLE;
  }

  /**
   Dispatch is unambiguous: the order of the tries does not matter, the raw bytes are kept, and the
   TEE type that selects the verifier is that of the validator which accepted them.
   */
  lemma DispatchExact(tag: nat, raw: seq<byte>, e: Evidence)
    ensures AutoEvidence(tag, raw) == TryInOrder(Tdx, SgxDcap, tag, raw)
    ensures AutoEvidence(tag, raw) == Some(e) <==> tag == 60000 && e.data == raw && e.Valid()
  {
    hide FromLE, ToLE;
    KindsDisjoint(raw);
    SgxExact(raw);
    TdxExact(raw);
  }

  // ----- Report data -----

  function Zeros(n: nat): (z: seq<byte>)
    ensures |z| == n && forall i :: 0 <= i < n ==> z[i] == 0
  {
    seq(n, _ => 0)
  }

  /** What attester and verifier make of report data before they hand it to the hardware or compare it. */
  function Padded(reportData: seq<byte>): (d: seq<byte>)
    requires |reportData| <= REPORT_DATA
    ensures |d| == REPORT_DATA
  {
    reportData + Zeros(REPORT_DATA - |reportData|)
  }

  /** Padding forgets exactly trailing zeros; strings of one length, such as hashes, it keeps apart. */
  lemma PaddedExact(a: seq<byte>, b: seq<byte>)
    requires |a| <= |b| <= REPORT_DATA
    ensures Padded(a) == Padded(b) <==> b == a + Zeros(|b| - |a|)
    ensures |a| == |b| ==> (Padded(a) == Padded(b) <==> a == b)
  {
    if Padded(a) == Padded(b) {
      assert forall i :: 0 <= i < |b| ==> b[i] == Padded(b)[i] == Padded(a)[i] == (a + Zeros(|b| - |a|))[i];
    }
  }
}
