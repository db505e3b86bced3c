/**
 The built-in claims of a quote: the whole quote, its type, and one claim for each measured field of
 the report body.
 */
module QuoteClaims {
  import opened Wrappers
  import opened Bytes
  import opened Claims
  import opened Quotes

  /** A field of a report body, and the claim it becomes. */
  datatype Field = Field(name: string, at: nat, size: nat)

  const COMMON_QUOTE: string := "common_quote"
  const COMMON_QUOTE_TYPE: string := "common_quote_type"

  const TDX_FIELDS: seq<Field> := [
    Field("tdx_tee_tcb_svn", 0, 16),
    Field("tdx_mr_seam", 16, 48),
    Field("tdx_mrsigner_seam", 64, 48),
    Field("tdx_seam_attributes", 112, 8),
    Field("tdx_td_attributes", 120, 8),
    Field("tdx_xfam", 128, 8),
    Field("tdx_mr_td", 136, 48),
    Field("tdx_mr_config_id", 184, 48),
    Field("tdx_mr_owner", 232, 48),
    Field("tdx_mr_owner_config", 280, 48),
    Field("tdx_rt_mr0", 328, 48),
    Field("tdx_rt_mr1", 376, 48),
    Field("tdx_rt_mr2", 424, 48),
    Field("tdx_rt_mr3", 472, 48)
  ]

  const TDX_15_FIELDS: seq<Field> := [
    Field("tdx_tee_tcb_svn2", 584, 16),
    Field("tdx_mr_servicetd", 600, 48)
  ]

  const SGX_FIELDS: seq<Field> := [
    Field("sgx_cpu_svn", 0, 16),
    Field("sgx_isv_ext_prod_id", 32, 16),
    Field("sgx_attributes", 48, 16),
    Field("sgx_mr_enclave", 64, 32),
    Field("sgx_mr_signer", 128, 32),
    Field("sgx_config_id", 192, 64),
    Field("sgx_isv_prod_id", 256, 2),
    Field("sgx_isv_svn", 258, 2),
    Field("sgx_config_svn", 260, 2),
    Field("sgx_isv_family_id", 304, 16)
  ]

  /** Every field lies inside a body of this size. */
  ghost predicate Inside(fields: seq<Field>, size: nat) {
    forall i :: 0 <= i < |fields| ==> fields[i].at + fields[i].size <= size
  }

  lemma FieldsInside()
    ensures Inside(TDX_FIELDS, TDX_REPORT_DATA_AT) && Inside(TDX_15_FIELDS, TDX_BODY_15) && Inside(SGX_FIELDS, SGX_REPORT_DATA_AT)
  {
  }

  function FieldClaim(f: Field, body: seq<byte>): Claim
    requires f.at + f.size <= |body|
  {
    Claim(Ascii(f.name), body[f.at..f.at + f.size])
  }

  function FieldClaims(fields: seq<Field>, body: seq<byte>): (claims: seq<Claim>)
    requires Inside(fields, |body|)
    ensures |claims| == |fields|
  {
    seq(|fields|, i requires 0 <= i < |fields| => FieldClaim(fields[i], body))
  }

  function CommonClaims(quote: seq<byte>, kind: string): seq<Claim> {
    [Claim(Ascii(COMMON_QUOTE), quote), Claim(Ascii(COMMON_QUOTE_TYPE), Ascii(kind))]
  }

  /**
   `get_claims` of an evidence, in insertion order. The SGX whole-quote claim is rebuilt from the
   signature length in the quote.
   */
  function BuiltinClaims(e: Evidence): seq<Claim>
    requires e.Valid()
  {
    FieldsInside();
    match e.tee
    case SgxDcap =>
      CommonClaims(e.data[..SGX_QUOTE3 + U32(e.data, SGX_QUOTE3 - 4)], "sgx_dcap") + FieldClaims(SGX_FIELDS, SgxReportBody(e.data))
    case Tdx =>
      ReaderSucceeds(e.data);
      var (variant, body) := AsQuote(e.data).value;
      CommonClaims(e.data, "tdx") + FieldClaims(TDX_FIELDS, body)
      + if variant.Tdx5V15? then FieldClaims(TDX_15_FIELDS, body) else []
  }

  // ----- Names -----

  const PUBKEY_HASH: string := "pubkey-hash"

  /**
   Enough of a name to tell the built-in names apart: its length, its fifth letter and its tenth
   (a hyphen where there is none).
   */
  datatype Shape = Shape(length: nat, fifth: char, tenth: char)

  function ShapeOf(name: seq<byte>): Shape {
    Shape(|name|, if |name| > 4 then name[4] as char else '-', if |name| > 9 then name[9] as char else '-')
  }

  ghost predicate Shaped(claims: seq<Claim>, shapes: seq<Shape>) {
    |claims| == |shapes| && forall i :: 0 <= i < |claims| ==> ShapeOf(claims[i].name) == shapes[i]
  }

  ghost predicate DistinctShapes(shapes: seq<Shape>) {
    forall i, j :: 0 <= i < j < |shapes| ==> shapes[i] != shapes[j]
  }

  // The shapes of the names above, in their order.
  const COMMON_SHAPES: seq<Shape> := [
    Shape(12, 'o', 'o'), Shape(17, 'o', 'o')
  ]

  const TDX_SHAPES: seq<Shape> := [
    Shape(15, 't', 'c'), Shape(11, 'm', 'a'), Shape(17, 'm', 'n'),
    Shape(19, 's', 'a'), Shape(17, 't', 't'), Shape(8, 'x', '-'),
    Shape(9, 'm', '-'), Shape(16, 'm', 'n'), Shape(12, 'm', 'n'),
    Shape(19, 'm', 'n'), Shape(10, 'r', '0'), Shape(10, 'r', '1'),
    Shape(10, 'r', '2'), Shape(10, 'r', '3')
  ]

  const TDX_15_SHAPES: seq<Shape> := [
    Shape(16, 't', 'c'), Shape(16, 'm', 'r')
  ]

  const SGX_SHAPES: seq<Shape> := [
    Shape(11, 'c', 'v'), Shape(19, 'i', 'x'), Shape(14, 'a', 'b'),
    Shape(14, 'm', 'c'), Shape(13, 'm', 'g'), Shape(13, 'c', 'g'),
    Shape(15, 'i', 'r'), Shape(11, 'i', 'v'), Shape(14, 'c', 'g'),
    Shape(17, 'i', 'a')
  ]

  const PUBKEY_HASH_SHAPE: Shape := Shape(11, 'e', 's')

  lemma HasShape(name: string, shape: Shape)
    requires |name| == shape.length
    requires shape.fifth == if |name| > 4 then name[4] else '-'
    requires shape.tenth == if |name| > 9 then name[9] else '-'
    requires shape.fifth < '\U{80}' && shape.tenth < '\U{80}'
    ensures ShapeOf(Ascii(name)) == shape
  {
  }

  lemma TdxShapes(body: seq<byte>)
    requires Inside(TDX_FIELDS, |body|)
    ensures Shaped(FieldClaims(TDX_FIELDS, body), TDX_SHAPES)
  {
    hide Ascii, ShapeOf;
    HasShape("tdx_tee_tcb_svn", TDX_SHAPES[0]);
    HasShape("tdx_mr_seam", TDX_SHAPES[1]);
    HasShape("tdx_mrsigner_seam", TDX_SHAPES[2]);
    HasShape("tdx_seam_attributes", TDX_SHAPES[3]);
    HasShape("tdx_td_attributes", TDX_SHAPES[4]);
    HasShape("tdx_xfam", TDX_SHAPES[5]);
    HasShape("tdx_mr_td", TDX_SHAPES[6]);
    HasShape("tdx_mr_config_id", TDX_SHAPES[7]);
    HasShape("tdx_mr_owner", TDX_SHAPES[8]);
    HasShape("tdx_mr_owner_config", TDX_SHAPES[9]);
    HasShape("tdx_rt_mr0", TDX_SHAPES[10]);
    HasShape("tdx_rt_mr1", TDX_SHAPES[11]);
    HasShape("tdx_rt_mr2", TDX_SHAPES[12]);
    HasShape("tdx_rt_mr3", TDX_SHAPES[13]);
  }

  lemma Tdx15Shapes(body: seq<byte>)
    requires Inside(TDX_15_FIELDS, |body|)
    ensures Shaped(FieldClaims(TDX_15_FIELDS, body), TDX_15_SHAPES)
  {
    hide Ascii, ShapeOf;
    HasShape("tdx_tee_tcb_svn2", TDX_15_SHAPES[0]);
    HasShape("tdx_mr_servicetd", TDX_15_SHAPES[1]);
  }

  lemma SgxShapes(body: seq<byte>)
    requires Inside(SGX_FIELDS, |body|)
    ensures Shaped(FieldClaims(SGX_FIELDS, body), SGX_SHAPES)
  {
    hide Ascii, ShapeOf;
    HasShape("sgx_cpu_svn", SGX_SHAPES[0]);
    HasShape("sgx_isv_ext_prod_id", SGX_SHAPES[1]);
    HasShape("sgx_attributes", SGX_SHAPES[2]);
    HasShape("sgx_mr_enclave", SGX_SHAPES[3]);
    HasShape("sgx_mr_signer", SGX_SHAPES[4]);
    HasShape("sgx_config_id", SGX_SHAPES[5]);
    HasShape("sgx_isv_prod_id", SGX_SHAPES[6]);
    HasShape("sgx_isv_svn", SGX_SHAPES[7]);
    HasShape("sgx_config_svn", SGX_SHAPES[8]);
    HasShape("sgx_isv_family_id", SGX_SHAPES[9]);
  }

  lemma CommonShapes(quote: seq<byte>, kind: string)
    ensures Shaped(CommonClaims(quote, kind), COMMON_SHAPES)
    ensures ShapeOf(Ascii(PUBKEY_HASH)) == PUBKEY_HASH_SHAPE
  {
    hide Ascii, ShapeOf;
    HasShape("common_quote", COMMON_SHAPES[0]);
    HasShape("common_quote_type", COMMON_SHAPES[1]);
    HasShape("pubkey-hash", PUBKEY_HASH_SHAPE);
  }

  lemma ShapedConcat(a: seq<Claim>, x: seq<Shape>, b: seq<Claim>, y: seq<Shape>)
    requires Shaped(a, x) && Shaped(b, y)
    ensures Shaped(a + b, x + y)
  {
  }

  function BuiltinShapes(e: Evidence): seq<Shape>
    requires e.Valid()
  {
    match e.tee
    case SgxDcap => COMMON_SHAPES + SGX_SHAPES
    case Tdx =>
      ReaderSucceeds(e.data);
      COMMON_SHAPES + TDX_SHAPES + if AsQuote(e.data).value.0.Tdx5V15? then TDX_15_SHAPES else []
  }

  ghost predicate NewShapes(shapes: seq<Shape>) {
    DistinctShapes(shapes) && forall i :: 0 <= i < |shapes| ==> shapes[i] != PUBKEY_HASH_SHAPE
  }

  lemma SgxTableDistinct()
    ensures NewShapes(COMMON_SHAPES + SGX_SHAPES)
  {
  }

  lemma TdxTableDistinct()
    ensures NewShapes(COMMON_SHAPES + TDX_SHAPES + TDX_15_SHAPES)
  {
  }

  lemma BuiltinShapesDistinct(e: Evidence)
    requires e.Valid()
    ensures NewShapes(BuiltinShapes(e))
  {
    hide FromLE, Evidence.Valid;
    SgxTableDistinct();
    TdxTableDistinct();
    var all := COMMON_SHAPES + TDX_SHAPES + TDX_15_SHAPES;
    var common := COMMON_SHAPES + TDX_SHAPES + [];
    assert forall i :: 0 <= i < |common| ==> common[i] == all[i];
  }

  /** The built-in claims have distinct names, none of them the name of the public-key hash. */
  lemma BuiltinDistinct(e: Evidence)
    requires e.Valid()
    ensures Distinct(BuiltinClaims(e)) && Lookup(BuiltinClaims(e), Ascii(PUBKEY_HASH)).None?
  {
    hide Ascii, ShapeOf, FieldClaims, CommonClaims;
    FieldsInside();
    match e.tee {
      case SgxDcap =>
        var quote := e.data[..SGX_QUOTE3 + U32(e.data, SGX_QUOTE3 - 4)];
        CommonShapes(quote, "sgx_dcap");
        SgxShapes(SgxReportBody(e.data));
        ShapedConcat(CommonClaims(quote, "sgx_dcap"), COMMON_SHAPES, FieldClaims(SGX_FIELDS, SgxReportBody(e.data)), SGX_SHAPES);
      case Tdx =>
        ReaderSucceeds(e.data);
        var (variant, body) := AsQuote(e.data).value;
        CommonShapes(e.data, "tdx");
        TdxShapes(body);
        ShapedConcat(CommonClaims(e.data, "tdx"), COMMON_SHAPES, FieldClaims(TDX_FIELDS, body), TDX_SHAPES);
        if variant.Tdx5V15? {
          Tdx15Shapes(body);
          ShapedConcat(CommonClaims(e.data, "tdx") + FieldClaims(TDX_FIELDS, body), COMMON_SHAPES + TDX_SHAPES,
            FieldClaims(TDX_15_FIELDS, body), TDX_15_SHAPES);
        } else {
          ShapedConcat(CommonClaims(e.data, "tdx") + FieldClaims(TDX_FIELDS, body), COMMON_SHAPES + TDX_SHAPES, [], []);
        }
    }
    BuiltinShapesDistinct(e);
    DistinctFromShapes(BuiltinClaims(e), BuiltinShapes(e));
  }

  lemma DistinctFromShapes(claims: seq<Claim>, shapes: seq<Shape>)
    requires Shaped(claims, shapes) && DistinctShapes(shapes)
    ensures Distinct(claims)
    ensures (forall i :: 0 <= i < |shapes| ==> shapes[i] != ShapeOf(Ascii(PUBKEY_HASH))) ==> Lookup(claims, Ascii(PUBKEY_HASH)).None?
  {
    hide Ascii, ShapeOf;
    LookupExact(claims, Ascii(PUBKEY_HASH));
    assert forall i, j :: 0 <= i < j < |claims| ==> ShapeOf(claims[i].name) == shapes[i] != shapes[j] == ShapeOf(claims[j].name);
  }

  // ----- What the claims say about the quote -----

  ghost predicate Contiguous(fields: seq<Field>, from: nat, to: nat) {
    && (fields != [] ==> fields[0].at == from)
    && (forall i, j :: 0 <= i < |fields| && j == i + 1 < |fields| ==> fields[j].at == fields[i].at + fields[i].size)
    && to == if fields == [] then from else fields[|fields| - 1].at + fields[|fields| - 1].size
  }

  /** The values of some claims, one after the other. */
  function Values(claims: seq<Claim>): seq<byte> {
    if claims == [] then [] else claims[0].value + Values(claims[1..])
  }

  lemma ContiguousTail(fields: seq<Field>, from: nat, to: nat, size: nat)
    requires fields != [] && Contiguous(fields, from, to) && Inside(fields, size)
    ensures var f, rest := fields[0], fields[1..];
      && f.at == from && from + f.size <= size
      && Contiguous(rest, from + f.size, to) && Inside(rest, size)
  {
    var rest := fields[1..];
    assert forall i :: 0 <= i < |rest| ==> rest[i] == fields[i + 1];
    if rest != [] {
      assert rest[|rest| - 1] == fields[|fields| - 1];
      assert fields[1].at == fields[0].at + fields[0].size;
    }
  }

  lemma ValuesHead(fields: seq<Field>, body: seq<byte>)
    requires fields != [] && Inside(fields, |body|) && Inside(fields[1..], |body|)
    ensures Values(FieldClaims(fields, body)) ==
      body[fields[0].at..fields[0].at + fields[0].size] + Values(FieldClaims(fields[1..], body))
  {
    hide Ascii;
    assert FieldClaims(fields, body)[1..] == FieldClaims(fields[1..], body);
  }

  lemma {:induction false} ContiguousValues(fields: seq<Field>, body: seq<byte>, from: nat, to: nat)
    requires Contiguous(fields, from, to) && Inside(fields, |body|) && from <= |body|
    ensures from <= to <= |body| && Values(FieldClaims(fields, body)) == body[from..to]
    decreases |fields|
  {
    if fields != [] {
      hide Contiguous, Inside, FieldClaims, Values;
      var f, rest := fields[0], fields[1..];
      ContiguousTail(fields, from, to, |body|);
      ContiguousValues(rest, body, from + f.size, to);
      ValuesHead(fields, body);
      assert body[from..to] == body[from..from + f.size] + body[from + f.size..to];
    }
  }

  lemma TdxClaimsParts(e: Evidence)
    requires e.Valid() && e.tee.Tdx?
    ensures AsQuote(e.data).Ok? && Inside(TDX_FIELDS, TDX_REPORT_DATA_AT) && Inside(TDX_15_FIELDS, TDX_BODY_15)
    ensures var (variant, body) := AsQuote(e.data).value;
      && |body| == (if variant.Tdx5V15? then TDX_BODY_15 else TDX_BODY)
      && |BuiltinClaims(e)| == (if variant.Tdx5V15? then 18 else 16)
      && BuiltinClaims(e)[0].value == e.data
      && BuiltinClaims(e)[2..16] == FieldClaims(TDX_FIELDS, body)
      && BuiltinClaims(e)[16..] == if variant.Tdx5V15? then FieldClaims(TDX_15_FIELDS, body) else []
  {
    hide Ascii, FromLE, FieldClaims;
    FieldsInside();
    ReaderSucceeds(e.data);
  }

  /**
   The TDX claims neither overlap nor leave anything out: put together with the report data they are
   the report body, byte for byte.
   */
  lemma TdxClaimsTileTheBody(e: Evidence)
    requires e.Valid() && e.tee.Tdx?
    ensures AsQuote(e.data).Ok?
    ensures var (variant, body) := AsQuote(e.data).value;
      && (|BuiltinClaims(e)| == if variant.Tdx5V15? then 18 else 16)
      && BuiltinClaims(e)[0].value == e.data
      && body == Values(BuiltinClaims(e)[2..16]) + e.ReportData() + Values(BuiltinClaims(e)[16..])
  {
    hide Ascii, Values, FromLE, BuiltinClaims, FieldClaims;
    TdxClaimsParts(e);
    var (variant, body) := AsQuote(e.data).value;
    ContiguousValues(TDX_FIELDS, body, 0, TDX_REPORT_DATA_AT);
    if variant.Tdx5V15? {
      ContiguousValues(TDX_15_FIELDS, body, TDX_BODY, TDX_BODY_15);
    } else {
      NoValues();
    }
    assert body == body[0..TDX_REPORT_DATA_AT] + body[TDX_REPORT_DATA_AT..TDX_BODY] + body[TDX_BODY..];
  }

  lemma NoValues()
    ensures Values([]) == []
  {
  }

  /** The SGX whole-quote claim, rebuilt through an unchecked length, is the whole quote. */
  lemma SgxQuoteClaimIsTheQuote(e: Evidence)
    requires e.Valid() && e.tee.SgxDcap?
    ensures |BuiltinClaims(e)| == 12
    ensures Lookup(BuiltinClaims(e), Ascii(COMMON_QUOTE)) == Some(e.data)
    ensures forall i :: 0 <= i < |SGX_FIELDS| ==>
      var f := SGX_FIELDS[i]; Lookup(BuiltinClaims(e), Ascii(f.name)) == Some(SgxReportBody(e.data)[f.at..f.at + f.size])
  {
    hide Ascii, ShapeOf, FromLE, Lookup;
    FieldsInside();
    BuiltinDistinct(e);
    assert e.data[..SGX_QUOTE3 + U32(e.data, SGX_QUOTE3 - 4)] == e.data;
    LookupAt(BuiltinClaims(e), 0);
    forall i | 0 <= i < |SGX_FIELDS|
      ensures var f := SGX_FIELDS[i];
        Lookup(BuiltinClaims(e), Ascii(f.name)) == Some(SgxReportBody(e.data)[f.at..f.at + f.size])
    {
      assert BuiltinClaims(e)[2 + i] == FieldClaim(SGX_FIELDS[i], SgxReportBody(e.data));
      LookupAt(BuiltinClaims(e), 2 + i);
    }
  }

  // ----- Building the map -----

  /** `append_claims_*`: one insert for each field, in order. */
  method AppendClaims(claims: ClaimsMap, fields: seq<Field>, body: seq<byte>)
    requires Inside(fields, |body|) && Distinct(claims.entries + FieldClaims(fields, body))
    modifies claims
    ensures claims.entries == old(claims.entries) + FieldClaims(fields, body)
  {
    ghost var all := FieldClaims(fields, body);
    for i := 0 to |fields|
      invariant claims.entries == old(claims.entries) + all[..i]
    {
      var c := FieldClaim(fields[i], body);
      NewClaim(claims.entries, c, old(claims.entries) + all);
      claims.Put(c.name, c.value);
    }
    assert all[..|fields|] == all;
  }

  lemma NewClaim(entries: seq<Claim>, c: Claim, all: seq<Claim>)
    requires Distinct(all) && entries + [c] <= all
    ensures Insert(entries, c.name, c.value) == entries + [c]
  {
    LookupExact(entries, c.name);
    assert all[|entries|] == (entries + [c])[|entries|] == c;
    assert forall i :: 0 <= i < |entries| ==> entries[i] == all[i];
    InsertNew(entries, c.name, c.value);
  }

  /** `gen_claims_from_quote` of either kind. */
  method GenClaims(e: Evidence) returns (claims: ClaimsMap)
    requires e.Valid()
    ensures fresh(claims) && claims.entries == BuiltinClaims(e)
  {
    hide Ascii, FromLE, Insert;
    FieldsInside();
    BuiltinDistinct(e);
    ghost var all := BuiltinClaims(e);
    claims := new ClaimsMap([]);
    match e.tee {
      case SgxDcap =>
        var body := SgxReportBody(e.data);
        AppendCommon(claims, e.data[..SGX_QUOTE3 + U32(e.data, SGX_QUOTE3 - 4)], "sgx_dcap");
        AppendClaims(claims, SGX_FIELDS, body);
      case Tdx =>
        ReaderSucceeds(e.data);
        var (variant, body) := AsQuote(e.data).value;
        AppendCommon(claims, e.data, "tdx");
        DistinctPrefix(claims.entries + FieldClaims(TDX_FIELDS, body), all);
        AppendClaims(claims, TDX_FIELDS, body);
        if variant.Tdx5V15? {
          AppendClaims(claims, TDX_15_FIELDS, body);
        }
    }
  }

  lemma DistinctPrefix(part: seq<Claim>, all: seq<Claim>)
    requires Distinct(all) && part <= all
    ensures Distinct(part)
  {
    assert forall i :: 0 <= i < |part| ==> part[i] == all[i];
  }

  method AppendCommon(claims: ClaimsMap, quote: seq<byte>, kind: string)
    requires claims.entries == []
    modifies claims
    ensures claims.entries == CommonClaims(quote, kind)
  {
    CommonShapes(quote, kind);
    claims.Put(Ascii(COMMON_QUOTE), quote);
    assert claims.entries == [Claim(Ascii(COMMON_QUOTE), quote)];
    assert Ascii(COMMON_QUOTE) != Ascii(COMMON_QUOTE_TYPE) by { assert |COMMON_QUOTE| != |COMMON_QUOTE_TYPE|; }
    InsertNew(claims.entries, Ascii(COMMON_QUOTE_TYPE), Ascii(kind));
    claims.Put(Ascii(COMMON_QUOTE_TYPE), Ascii(kind));
  }
}
