/**
 Attested certificates: `CertBuilder` packs claims, key hash and quote into a self-signed
 certificate, `verify_cert_der` unpacks and checks them, and a policy is held against the result.
 A certificate is a record; cryptography and the TEE are the functions of `Primitives`.
 */
module Certificates {
  import opened Wrappers
  import opened Bytes
  import opened Cbor
  import opened Claims
  import opened DiceCbor
  import opened Quotes
  import opened QuoteClaims

  datatype PrivateKey = Rsa2048(id: nat) | Rsa3072(id: nat) | Rsa4096(id: nat) | P256(id: nat)

  datatype SignatureAlgo = RsaSha256 | RsaSha384 | RsaSha512 | EcdsaSha256 | OtherAlgo(id: nat)

  datatype Oid = SubjectKeyIdentifier | BasicConstraints | KeyUsage | TaggedEvidence | EndorsementManifest | OtherOid(id: nat)

  datatype Extension = Extension(oid: Oid, value: seq<byte>)

  datatype TbsCertificate = TbsCertificate(
    subject: string, issuer: string, spki: seq<byte>, extensions: Option<seq<Extension>>)

  datatype Certificate = Certificate(tbs: TbsCertificate, algo: SignatureAlgo, signature: seq<byte>)

  datatype CertError =
    | SignatureFailed
    | EvidenceExtensionMissing
    | BadBuffer(error: CborError)
    | UnrecognizedEvidence
    | QuoteUntrusted
    | ReportDataMismatch
    | PubkeyHashMissing
    | PubkeyHashMismatch
    | ReportDataTooLong
    | AttesterFailed

  function DigestSize(algo: HashAlgo): nat {
    match algo
    case Sha256 => 32
    case Sha384 => 48
    case Sha512 => 64
  }

  /** RSA keys sign with the RSA algorithms, and the P-256 key with ECDSA over SHA-256. */
  predicate Suits(key: PrivateKey, algo: SignatureAlgo) {
    if key.P256? then algo == EcdsaSha256 else algo in {RsaSha256, RsaSha384, RsaSha512}
  }

  /** What the program takes from its cryptographic libraries, from the DER encoder and from the TEE. */
  datatype Primitives = Primitives(
    hash: (HashAlgo, seq<byte>) -> seq<byte>,
    spki: PrivateKey -> seq<byte>,
    sign: (PrivateKey, SignatureAlgo, seq<byte>) -> seq<byte>,
    verifies: (SignatureAlgo, seq<byte>, seq<byte>, seq<byte>) -> bool,
    tbsDer: TbsCertificate -> seq<byte>,
    standardExtension: (Oid, seq<byte>) -> seq<byte>,
    trusted: seq<byte> -> bool,
    quote: seq<byte> -> Option<Evidence>)
  {
    /** Digests have their sizes. */
    ghost predicate Digests() {
      forall algo, m :: |hash(algo, m)| == DigestSize(algo)
    }

    /**
     What is signed verifies, if the algorithm suits the key; what the TEE quotes is a trusted quote
     with that report data.
     */
    ghost predicate Correct() {
      && Digests()
      && (forall key, algo, m :: Suits(key, algo) ==> verifies(algo, spki(key), m, sign(key, algo, m)))
      && (forall d :: quote(d).Some? ==>
            && quote(d).value.Valid() && quote(d).value.ReportData() == d
            && trusted(quote(d).value.data) && |quote(d).value.data| < U64_LIMIT)
    }
  }

  // ----- Building -----

  const PUBKEY_HASH_NAME: seq<byte> := Ascii(PUBKEY_HASH)

  function PubkeyHashValue(p: Primitives, algo: HashAlgo, key: PrivateKey): seq<byte> {
    GeneratePubkeyHashBuffer(algo, p.hash(algo, p.spki(key)))
  }

  /** The claims that go into the certificate: the caller's, with `pubkey-hash` set. */
  function CustomClaims(p: Primitives, claims: Option<seq<Claim>>, algo: HashAlgo, key: PrivateKey): seq<Claim> {
    Insert(if claims.Some? then claims.value else [], PUBKEY_HASH_NAME, PubkeyHashValue(p, algo, key))
  }

  /** The signature algorithm: the hash algorithm is free for RSA and fixed for P-256. */
  function SigningAlgo(key: PrivateKey, algo: HashAlgo): SignatureAlgo {
    if key.P256? then EcdsaSha256
    else
      match algo
      case Sha256 => RsaSha256
      case Sha384 => RsaSha384
      case Sha512 => RsaSha512
  }

  function SignedCertificate(p: Primitives, subject: string, algo: HashAlgo, key: PrivateKey,
      evidenceBuffer: seq<byte>, endorsements: Option<seq<byte>>): Certificate {
    var spki := p.spki(key);
    var extensions :=
      [Extension(SubjectKeyIdentifier, p.standardExtension(SubjectKeyIdentifier, spki)),
       Extension(BasicConstraints, p.standardExtension(BasicConstraints, spki)),
       Extension(KeyUsage, p.standardExtension(KeyUsage, spki)),
       Extension(TaggedEvidence, evidenceBuffer)]
      + if endorsements.Some? then [Extension(EndorsementManifest, endorsements.value)] else [];
    var tbs := TbsCertificate(subject, subject, spki, Some(extensions));
    var signatureAlgo := SigningAlgo(key, algo);
    Certificate(tbs, signatureAlgo, p.sign(key, signatureAlgo, p.tbsDer(tbs)))
  }

  /** `get_evidence`: the report data is padded to the size the hardware takes. */
  function GetEvidence(p: Primitives, reportData: seq<byte>): Result<Evidence, CertError> {
    if |reportData| > REPORT_DATA then Err(ReportDataTooLong)
    else
      match p.quote(Padded(reportData))
      case Some(e) => Ok(e)
      case None => Err(AttesterFailed)
  }

  /** `build_with_private_key_inner`. */
  function Build(p: Primitives, claims: Option<seq<Claim>>, subject: string, algo: HashAlgo,
      key: PrivateKey): Result<(Certificate, Evidence), CertError> {
    var claimsBuffer := GenerateClaimsBuffer(CustomClaims(p, claims, algo, key));
    var evidence :- GetEvidence(p, p.hash(Sha256, claimsBuffer));
    var evidenceBuffer := GenerateEvidenceBuffer(TAG_INTEL_TEE_QUOTE, evidence.data, claimsBuffer);
    Ok((SignedCertificate(p, subject, algo, key, evidenceBuffer, Some([])), evidence))
  }

  /** The builder's steps on its own copy of the claims map. */
  method BuildCertificate(p: Primitives, claims: Option<seq<Claim>>, subject: string, algo: HashAlgo, key: PrivateKey)
    returns (r: Result<(Certificate, Evidence), CertError>)
    ensures r == Build(p, claims, subject, algo, key)
  {
    hide GenerateClaimsBuffer, GenerateEvidenceBuffer, GeneratePubkeyHashBuffer;
    var pubkeyHash := p.hash(algo, p.spki(key));
    var map_ := new ClaimsMap(if claims.Some? then claims.value else []);
    map_.Put(PUBKEY_HASH_NAME, GeneratePubkeyHashBuffer(algo, pubkeyHash));
    var claimsBuffer := GenerateClaimsBuffer(map_.entries);
    var attested := GetEvidence(p, p.hash(Sha256, claimsBuffer));
    if attested.Err? {
      return Err(attested.error);
    }
    var evidence := attested.value;
    var evidenceBuffer := GenerateEvidenceBuffer(TAG_INTEL_TEE_QUOTE, evidence.data, claimsBuffer);
    return Ok((SignedCertificate(p, subject, algo, key, evidenceBuffer, Some([])), evidence));
  }

  // ----- Verifying -----

  function VerifySignature(p: Primitives, issuer: Certificate, signed: Certificate): bool {
    && issuer.tbs.subject == signed.tbs.issuer
    && !signed.algo.OtherAlgo?
    && p.verifies(signed.algo, issuer.tbs.spki, p.tbsDer(signed.tbs), signed.signature)
  }

  /** The value of the first extension with this identifier. */
  function FirstExtension(extensions: seq<Extension>, oid: Oid): Option<seq<byte>> {
    if extensions == [] then None
    else if extensions[0].oid == oid then Some(extensions[0].value)
    else FirstExtension(extensions[1..], oid)
  }

  function ExtractExtension(cert: Certificate, oid: Oid): Option<seq<byte>> {
    var extensions :- cert.tbs.extensions;
    FirstExtension(extensions, oid)
  }

  function VerifyEvidence(p: Primitives, e: Evidence, reportData: seq<byte>): Option<CertError>
    requires e.Valid() && |reportData| <= REPORT_DATA
  {
    if !p.trusted(e.data) then Some(QuoteUntrusted)
    else if e.ReportData() != Padded(reportData) then Some(ReportDataMismatch)
    else None
  }

  /** The evidence a certificate carries and the claims buffer beside it. */
  function Extracted(cert: Certificate): (r: Result<(Evidence, seq<byte>), CertError>)
    ensures r.Ok? ==> r.value.0.Valid()
  {
    match ExtractExtension(cert, TaggedEvidence)
    case None => Err(EvidenceExtensionMissing)
    case Some(buffer) =>
      match ParseEvidenceBuffer(buffer)
      case Err(e) => Err(BadBuffer(e))
      case Ok((tag, raw, claimsBuffer)) =>
        match AutoEvidence(tag, raw)
        case None => Err(UnrecognizedEvidence)
        case Some(evidence) =>
          DispatchExact(tag, raw, evidence);
          Ok((evidence, claimsBuffer))
  }

  /** The custom claims of a claims buffer, once their key hash is found to be that of the certificate's key. */
  function CheckedClaims(p: Primitives, spki: seq<byte>, claimsBuffer: seq<byte>): Result<seq<Claim>, CertError> {
    match ParseClaimsBuffer(claimsBuffer)
    case Err(e) => Err(BadBuffer(e))
    case Ok(custom) =>
      match Lookup(custom, PUBKEY_HASH_NAME)
      case None => Err(PubkeyHashMissing)
      case Some(value) =>
        match ParsePubkeyHashBuffer(value)
        case Err(e) => Err(BadBuffer(e))
        case Ok((algo, pubkeyHash)) =>
          if pubkeyHash != p.hash(algo, spki) then Err(PubkeyHashMismatch) else Ok(custom)
  }

  /** `verify_cert_der`, from the parsed certificate on. */
  function VerifyCert(p: Primitives, cert: Certificate): Result<seq<Claim>, CertError>
    requires p.Digests()
  {
    if !VerifySignature(p, cert, cert) then Err(SignatureFailed)
    else
      var (evidence, claimsBuffer) :- Extracted(cert);
      match VerifyEvidence(p, evidence, p.hash(Sha256, claimsBuffer))
      case Some(error) => Err(error)
      case None =>
        var custom :- CheckedClaims(p, cert.tbs.spki, claimsBuffer);
        Ok(Merge(BuiltinClaims(evidence), custom))
  }

  /** The verifier's steps, with the built-in claims map updated in place. */
  method VerifyCertificate(p: Primitives, cert: Certificate) returns (r: Result<seq<Claim>, CertError>)
    requires p.Digests()
    ensures r == VerifyCert(p, cert)
  {
    hide ParseClaimsBuffer, ParsePubkeyHashBuffer, ParseEvidenceBuffer, BuiltinClaims, AutoEvidence;
    if !VerifySignature(p, cert, cert) {
      return Err(SignatureFailed);
    }
    var extracted := Extracted(cert);
    if extracted.Err? {
      return Err(extracted.error);
    }
    var (evidence, claimsBuffer) := extracted.value;
    var refused := VerifyEvidence(p, evidence, p.hash(Sha256, claimsBuffer));
    if refused.Some? {
      return Err(refused.value);
    }
    var claims := GenClaims(evidence);
    var custom := CheckedClaims(p, cert.tbs.spki, claimsBuffer);
    if custom.Err? {
      return Err(custom.error);
    }
    claims.MergeFrom(custom.value);
    return Ok(claims.entries);
  }

  // ----- Policies -----

  datatype PolicyOutput = Passed | Failed

  function Satisfies(expected: seq<Claim>, claims: seq<Claim>): bool {
    if expected == [] then true
    else Lookup(claims, expected[0].name) == Some(expected[0].value) && Satisfies(expected[1..], claims)
  }

  /** `CertVerifier::verify` under `Contains(expected)`. */
  function VerifyPolicy(p: Primitives, expected: seq<Claim>, cert: Certificate): Result<PolicyOutput, CertError>
    requires p.Digests()
  {
    var claims :- VerifyCert(p, cert);
    Ok(if Satisfies(expected, claims) then Passed else Failed)
  }
}
