/**
 Intel's report bodies field by field, and the claim each field becomes, name by name.
 */
module ReportBodies {
  import opened Wrappers
  import opened Bytes
  import opened Claims
  import opened Quotes
  import opened QuoteClaims

  // ----- The structures -----

  /** `sgx_report_body_t`. */
  datatype SgxBody = SgxBody(
    cpuSvn: seq<byte>, miscSelect: seq<byte>, reserved1: seq<byte>, isvExtProdId: seq<byte>,
    attributes: seq<byte>, mrEnclave: seq<byte>, reserved2: seq<byte>, mrSigner: seq<byte>, reserved3: seq<byte>,
    configId: seq<byte>, isvProdId: seq<byte>, isvSvn: seq<byte>, configSvn: seq<byte>, reserved4: seq<byte>,
    isvFamilyId: seq<byte>, reportData: seq<byte>)
  {
    predicate Sized() {
      && |cpuSvn| == 16 && |miscSelect| == 4 && |reserved1| == 12 && |isvExtProdId| == 16
      && |attributes| == 16 && |mrEnclave| == 32 && |reserved2| == 32 && |mrSigner| == 32
      && |reserved3| == 32 && |configId| == 64 && |isvProdId| == 2 && |isvSvn| == 2 && |configSvn| == 2
      && |reserved4| == 42 && |isvFamilyId| == 16 && |reportData| == 64
    }

    function Serialized(): seq<byte> {
      cpuSvn + miscSelect + reserved1 + isvExtProdId + attributes + mrEnclave + reserved2 + mrSigner
      + reserved3 + configId + isvProdId + isvSvn + configSvn + reserved4 + isvFamilyId + reportData
    }
  }

  /** `sgx_report2_body_t`. */
  datatype TdxBody = TdxBody(
    teeTcbSvn: seq<byte>, mrSeam: seq<byte>, mrSignerSeam: seq<byte>, seamAttributes: seq<byte>,
    tdAttributes: seq<byte>, xfam: seq<byte>, mrTd: seq<byte>, mrConfigId: seq<byte>, mrOwner: seq<byte>,
    mrOwnerConfig: seq<byte>, rtMr0: seq<byte>, rtMr1: seq<byte>, rtMr2: seq<byte>, rtMr3: seq<byte>,
    reportData: seq<byte>)
  {
    predicate Sized() {
      && |teeTcbSvn| == 16 && |mrSeam| == 48 && |mrSignerSeam| == 48 && |seamAttributes| == 8
      && |tdAttributes| == 8 && |xfam| == 8 && |mrTd| == 48 && |mrConfigId| == 48 && |mrOwner| == 48
      && |mrOwnerConfig| == 48 && |rtMr0| == 48 && |rtMr1| == 48 && |rtMr2| == 48 && |rtMr3| == 48
      && |reportData| == 64
    }

    function Serialized(): seq<byte> {
      teeTcbSvn + mrSeam + mrSignerSeam + seamAttributes + tdAttributes + xfam + mrTd + mrConfigId
      + mrOwner + mrOwnerConfig + rtMr0 + rtMr1 + rtMr2 + rtMr3 + reportData
    }
  }

  /** What `sgx_report2_body_v1_5_t` has behind those fields. */
  datatype TdxTail = TdxTail(teeTcbSvn2: seq<byte>, mrServiceTd: seq<byte>) {
    predicate Sized() {
      |teeTcbSvn2| == 16 && |mrServiceTd| == 48
    }

    function Serialized(): seq<byte> {
      teeTcbSvn2 + mrServiceTd
    }
  }

  // ----- Where the fields are -----

  lemma SgxBodyFields(b: SgxBody)
    requires b.Sized()
    ensures var body := b.Serialized();
      && |body| == 384
      && body[0..16] == b.cpuSvn
      && body[16..20] == b.miscSelect
      && body[20..32] == b.reserved1
      && body[32..48] == b.isvExtProdId
      && body[48..64] == b.attributes
      && body[64..96] == b.mrEnclave
      && body[96..128] == b.reserved2
      && body[128..160] == b.mrSigner
      && body[160..192] == b.reserved3
      && body[192..256] == b.configId
      && body[256..258] == b.isvProdId
      && body[258..260] == b.isvSvn
      && body[260..262] == b.configSvn
      && body[262..304] == b.reserved4
      && body[304..320] == b.isvFamilyId
      && body[320..384] == b.reportData
  {
  }

  lemma TdxBodyFields(b: TdxBody)
    requires b.Sized()
    ensures var body := b.Serialized();
      && |body| == 584
      && body[0..16] == b.teeTcbSvn
      && body[16..64] == b.mrSeam
      && body[64..112] == b.mrSignerSeam
      && body[112..120] == b.seamAttributes
      && body[120..128] == b.tdAttributes
      && body[128..136] == b.xfam
      && body[136..184] == b.mrTd
      && body[184..232] == b.mrConfigId
      && body[232..280] == b.mrOwner
      && body[280..328] == b.mrOwnerConfig
      && body[328..376] == b.rtMr0
      && body[376..424] == b.rtMr1
      && body[424..472] == b.rtMr2
      && body[472..520] == b.rtMr3
      && body[520..584] == b.reportData
  {
  }

  /** Every 384 bytes are such a body. */
  lemma SgxBodyOf(bytes: seq<byte>) returns (b: SgxBody)
    requires |bytes| == 384
    ensures b.Sized() && b.Serialized() == bytes
  {
    b := SgxBody(
      bytes[0..16], bytes[16..20], bytes[20..32], bytes[32..48], bytes[48..64], bytes[64..96],
      bytes[96..128], bytes[128..160], bytes[160..192], bytes[192..256], bytes[256..258], bytes[258..260],
      bytes[260..262], bytes[262..304], bytes[304..320], bytes[320..384]);
  }

  /** Every 584 bytes are such a body. */
  lemma TdxBodyOf(bytes: seq<byte>) returns (b: TdxBody)
    requires |bytes| == 584
    ensures b.Sized() && b.Serialized() == bytes
  {
    b := TdxBody(
      bytes[0..16], bytes[16..64], bytes[64..112], bytes[112..120], bytes[120..128], bytes[128..136],
      bytes[136..184], bytes[184..232], bytes[232..280], bytes[280..328], bytes[328..376],
      bytes[376..424], bytes[424..472], bytes[472..520], bytes[520..584]);
  }

  // ----- The claims -----

  ghost predicate Says(claims: seq<Claim>, name: string, value: seq<byte>) {
    Lookup(claims, Ascii(name)) == Some(value)
  }

  /** The field at a place of a table becomes a claim under its name. */
  lemma FieldSays(claims: seq<Claim>, fields: seq<Field>, body: seq<byte>, from: nat, k: nat)
    requires Distinct(claims) && Inside(fields, |body|) && k < |fields|
    requires from + |fields| <= |claims| && claims[from..from + |fields|] == FieldClaims(fields, body)
    ensures Says(claims, fields[k].name, body[fields[k].at..fields[k].at + fields[k].size])
  {
    hide Ascii, Lookup;
    assert claims[from + k] == claims[from..from + |fields|][k] == FieldClaim(fields[k], body);
    LookupAt(claims, from + k);
  }

  /** Every claim of an SGX quote, by name, is the field of the report body it is named for. */
  lemma SgxClaims(l: Layout, b: SgxBody)
    requires l.IsSgx() && b.Sized() && l.body == b.Serialized()
    ensures var e := Evidence(SgxDcap, l.Serialized());
      && e.Valid() && e.ReportData() == b.reportData
      && var claims := BuiltinClaims(e);
      && |claims| == 12
      && Says(claims, "common_quote", l.Serialized())
      && Says(claims, "common_quote_type", Ascii("sgx_dcap"))
      && Says(claims, "sgx_cpu_svn", b.cpuSvn)
      && Says(claims, "sgx_isv_ext_prod_id", b.isvExtProdId)
      && Says(claims, "sgx_attributes", b.attributes)
      && Says(claims, "sgx_mr_enclave", b.mrEnclave)
      && Says(claims, "sgx_mr_signer", b.mrSigner)
      && Says(claims, "sgx_config_id", b.configId)
      && Says(claims, "sgx_isv_prod_id", b.isvProdId)
      && Says(claims, "sgx_isv_svn", b.isvSvn)
      && Says(claims, "sgx_config_svn", b.configSvn)
      && Says(claims, "sgx_isv_family_id", b.isvFamilyId)
  {
    hide Ascii, Lookup, FromLE, ToLE, FieldClaims, Says;
    var e := Evidence(SgxDcap, l.Serialized());
    SgxExact(e.data);
    SerializedFields(l);
    SgxBodyFields(b);
    FieldsInside();
    BuiltinDistinct(e);
    var claims := BuiltinClaims(e);
    assert SgxReportBody(e.data) == l.body;
    assert claims[2..2 + |SGX_FIELDS|] == FieldClaims(SGX_FIELDS, l.body);
    assert e.data[..SGX_QUOTE3 + U32(e.data, SGX_QUOTE3 - 4)] == e.data;
    CommonSays(claims, e.data, "sgx_dcap");
    SgxFieldsSay(claims, b);
  }

  lemma CommonSays(claims: seq<Claim>, quote: seq<byte>, kind: string)
    requires Distinct(claims) && |claims| >= 2 && claims[..2] == CommonClaims(quote, kind)
    ensures Says(claims, "common_quote", quote) && Says(claims, "common_quote_type", Ascii(kind))
  {
    hide Ascii, Lookup;
    assert claims[0] == claims[..2][0] && claims[1] == claims[..2][1];
    LookupAt(claims, 0);
    LookupAt(claims, 1);
  }

  lemma SgxFieldsSay(claims: seq<Claim>, b: SgxBody)
    requires Distinct(claims) && b.Sized() && |claims| == 12
    requires Inside(SGX_FIELDS, 384) && |b.Serialized()| == 384 && claims[2..12] == FieldClaims(SGX_FIELDS, b.Serialized())
    ensures Says(claims, "sgx_cpu_svn", b.cpuSvn)
    ensures Says(claims, "sgx_isv_ext_prod_id", b.isvExtProdId)
    ensures Says(claims, "sgx_attributes", b.attributes)
    ensures Says(claims, "sgx_mr_enclave", b.mrEnclave)
    ensures Says(claims, "sgx_mr_signer", b.mrSigner)
    ensures Says(claims, "sgx_config_id", b.configId)
    ensures Says(claims, "sgx_isv_prod_id", b.isvProdId)
    ensures Says(claims, "sgx_isv_svn", b.isvSvn)
    ensures Says(claims, "sgx_config_svn", b.configSvn)
    ensures Says(claims, "sgx_isv_family_id", b.isvFamilyId)
  {
    hide Ascii, Says, FieldClaims;
    SgxBodyFields(b);
    FieldSays(claims, SGX_FIELDS, b.Serialized(), 2, 0);
    FieldSays(claims, SGX_FIELDS, b.Serialized(), 2, 1);
    FieldSays(claims, SGX_FIELDS, b.Serialized(), 2, 2);
    FieldSays(claims, SGX_FIELDS, b.Serialized(), 2, 3);
    FieldSays(claims, SGX_FIELDS, b.Serialized(), 2, 4);
    FieldSays(claims, SGX_FIELDS, b.Serialized(), 2, 5);
    FieldSays(claims, SGX_FIELDS, b.Serialized(), 2, 6);
    FieldSays(claims, SGX_FIELDS, b.Serialized(), 2, 7);
    FieldSays(claims, SGX_FIELDS, b.Serialized(), 2, 8);
    FieldSays(claims, SGX_FIELDS, b.Serialized(), 2, 9);
  }

  /**
   Every claim of a TDX quote, by name, is the field of the report body it is named for; `tail` is
   what a body of the TDX 1.5 kind has behind the common fields.
   */
  lemma TdxClaims(l: Layout, b: TdxBody, tail: TdxTail)
    requires l.IsTdx() && b.Sized() && tail.Sized()
    requires l.body == b.Serialized() + if l.TdxVariant() == Some(Tdx5V15) then tail.Serialized() else []
    ensures var e := Evidence(Tdx, l.Serialized());
      && e.Valid() && e.ReportData() == b.reportData
      && var claims := BuiltinClaims(e);
      && |claims| == (if l.TdxVariant() == Some(Tdx5V15) then 18 else 16)
      && Says(claims, "common_quote", l.Serialized())
      && Says(claims, "common_quote_type", Ascii("tdx"))
      && Says(claims, "tdx_tee_tcb_svn", b.teeTcbSvn)
      && Says(claims, "tdx_mr_seam", b.mrSeam)
      && Says(claims, "tdx_mrsigner_seam", b.mrSignerSeam)
      && Says(claims, "tdx_seam_attributes", b.seamAttributes)
      && Says(claims, "tdx_td_attributes", b.tdAttributes)
      && Says(claims, "tdx_xfam", b.xfam)
      && Says(claims, "tdx_mr_td", b.mrTd)
      && Says(claims, "tdx_mr_config_id", b.mrConfigId)
      && Says(claims, "tdx_mr_owner", b.mrOwner)
      && Says(claims, "tdx_mr_owner_config", b.mrOwnerConfig)
      && Says(claims, "tdx_rt_mr0", b.rtMr0)
      && Says(claims, "tdx_rt_mr1", b.rtMr1)
      && Says(claims, "tdx_rt_mr2", b.rtMr2)
      && Says(claims, "tdx_rt_mr3", b.rtMr3)
      && (l.TdxVariant() == Some(Tdx5V15) ==>
            Says(claims, "tdx_tee_tcb_svn2", tail.teeTcbSvn2) && Says(claims, "tdx_mr_servicetd", tail.mrServiceTd))
  {
    hide Ascii, Lookup, FromLE, ToLE, FieldClaims, Says;
    var e := Evidence(Tdx, l.Serialized());
    ReaderAgrees(l);
    TdxBodyFields(b);
    FieldsInside();
    BuiltinDistinct(e);
    var claims := BuiltinClaims(e);
    TdxClaimsParts(e);
    assert l.body[..584] == b.Serialized();
    CommonSays(claims, e.data, "tdx");
    TdxFieldsSay(claims, b, l.body);
    if l.TdxVariant() == Some(Tdx5V15) {
      FieldSays(claims, TDX_15_FIELDS, l.body, 16, 0);
      FieldSays(claims, TDX_15_FIELDS, l.body, 16, 1);
      assert l.body[584..600] == tail.teeTcbSvn2 && l.body[600..648] == tail.mrServiceTd;
    }
  }

  lemma TdxFieldSays(claims: seq<Claim>, b: TdxBody, body: seq<byte>, k: nat)
    requires Distinct(claims) && b.Sized() && |claims| >= 16 && b.Serialized() <= body && k < |TDX_FIELDS|
    requires Inside(TDX_FIELDS, |body|) && claims[2..16] == FieldClaims(TDX_FIELDS, body)
    requires Inside(TDX_FIELDS, |b.Serialized()|)
    ensures Says(claims, TDX_FIELDS[k].name, b.Serialized()[TDX_FIELDS[k].at..TDX_FIELDS[k].at + TDX_FIELDS[k].size])
  {
    hide Ascii, Says, FieldClaims;
    FieldSays(claims, TDX_FIELDS, body, 2, k);
    var f, head := TDX_FIELDS[k], b.Serialized();
    assert body[..|head|] == head;
    assert body[f.at..f.at + f.size] == head[f.at..f.at + f.size];
  }

  lemma TdxFieldsSay(claims: seq<Claim>, b: TdxBody, body: seq<byte>)
    requires Distinct(claims) && b.Sized() && |claims| >= 16 && b.Serialized() <= body
    requires Inside(TDX_FIELDS, |body|) && claims[2..16] == FieldClaims(TDX_FIELDS, body)
    ensures Says(claims, "tdx_tee_tcb_svn", b.teeTcbSvn)
    ensures Says(claims, "tdx_mr_seam", b.mrSeam)
    ensures Says(claims, "tdx_mrsigner_seam", b.mrSignerSeam)
    ensures Says(claims, "tdx_seam_attributes", b.seamAttributes)
    ensures Says(claims, "tdx_td_attributes", b.tdAttributes)
    ensures Says(claims, "tdx_xfam", b.xfam)
    ensures Says(claims, "tdx_mr_td", b.mrTd)
    ensures Says(claims, "tdx_mr_config_id", b.mrConfigId)
    ensures Says(claims, "tdx_mr_owner", b.mrOwner)
    ensures Says(claims, "tdx_mr_owner_config", b.mrOwnerConfig)
    ensures Says(claims, "tdx_rt_mr0", b.rtMr0)
    ensures Says(claims, "tdx_rt_mr1", b.rtMr1)
    ensures Says(claims, "tdx_rt_mr2", b.rtMr2)
    ensures Says(claims, "tdx_rt_mr3", b.rtMr3)
  {
    hide Ascii, Says, FieldClaims;
    TdxBodyFields(b);
    FieldsInside();
    TdxFieldSays(claims, b, body, 0);
    TdxFieldSays(claims, b, body, 1);
    TdxFieldSays(claims, b, body, 2);
    TdxFieldSays(claims, b, body, 3);
    TdxFieldSays(claims, b, body, 4);
    TdxFieldSays(claims, b, body, 5);
    TdxFieldSays(claims, b, body, 6);
    TdxFieldSays(claims, b, body, 7);
    TdxFieldSays(claims, b, body, 8);
    TdxFieldSays(claims, b, body, 9);
    TdxFieldSays(claims, b, body, 10);
    TdxFieldSays(claims, b, body, 11);
    TdxFieldSays(claims, b, body, 12);
    TdxFieldSays(claims, b, body, 13);
  }

  /** Every accepted SGX quote is a layout around such a body. */
  lemma SgxEvidenceParts(e: Evidence) returns (l: Layout, b: SgxBody)
    requires e.Valid() && e.tee.SgxDcap?
    ensures l.IsSgx() && b.Sized() && l.body == b.Serialized() && e == Evidence(SgxDcap, l.Serialized())
  {
    hide FromLE, ToLE;
    SgxExact(e.data);
    l :| l.IsSgx() && l.Serialized() == e.data;
    b := SgxBodyOf(l.body);
  }

  lemma TdxEvidenceParts(e: Evidence) returns (l: Layout, b: TdxBody, tail: TdxTail)
    requires e.Valid() && e.tee.Tdx?
    ensures l.IsTdx() && b.Sized() && tail.Sized() && e == Evidence(Tdx, l.Serialized())
    ensures l.body == b.Serialized() + if l.TdxVariant() == Some(Tdx5V15) then tail.Serialized() else []
  {
    hide FromLE, ToLE;
    TdxExact(e.data);
    l :| l.IsTdx() && l.Serialized() == e.data;
    b := TdxBodyOf(l.body[..584]);
    if l.TdxVariant() == Some(Tdx5V15) {
      tail := TdxTail(l.body[584..600], l.body[600..]);
      assert l.body == l.body[..584] + (l.body[584..600] + l.body[600..]);
    } else {
      tail := TdxTail(Zeros(16), Zeros(48));
      assert l.body == l.body[..584] + [];
    }
  }
}
