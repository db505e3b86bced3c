/**
 What a built certificate yields, when a policy passes on it, and what an accepted certificate binds
 together.
 */
module CertificateProofs {
  import opened Wrappers
  import opened Bytes
  import opened Cbor
  import opened Claims
  import opened DiceCbor
  import opened Quotes
  import opened QuoteClaims
  import opened Certificates

  /** A claims map the program can hold and encode, with room for one more claim. */
  ghost predicate Buildable(p: Primitives, claims: Option<seq<Claim>>, algo: HashAlgo, key: PrivateKey) {
    var given := if claims.Some? then claims.value else [];
    && Distinct(given) && EncodableClaims(given) && |given| + 1 < U64_LIMIT
    && |GenerateClaimsBuffer(CustomClaims(p, claims, algo, key))| < U64_LIMIT
  }

  /**
   What a verifier should find in a certificate built from `claims`: a built-in claim, or else the
   key hash or a claim of the caller's.
   */
  function Expected(p: Primitives, e: Evidence, claims: Option<seq<Claim>>, algo: HashAlgo, key: PrivateKey,
      name: seq<byte>): Option<seq<byte>>
    requires e.Valid()
  {
    if Lookup(BuiltinClaims(e), name).Some? then Lookup(BuiltinClaims(e), name)
    else if name == PUBKEY_HASH_NAME then Some(PubkeyHashValue(p, algo, key))
    else if claims.Some? then Lookup(claims.value, name)
    else None
  }

  lemma PubkeyHashLength(algo: HashAlgo, hash: seq<byte>)
    requires |hash| < 0x100
    ensures |GeneratePubkeyHashBuffer(algo, hash)| < 0x200
  {
    var items := [Unsigned(IanaId(algo)), ByteString(hash)];
    assert EncodeAll(items) == Encode(items[0]) + EncodeAll([items[1]]);
    assert EncodeAll([items[1]]) == Encode(items[1]) + EncodeAll([]);
  }

  lemma PubkeyHashEncodable(p: Primitives, algo: HashAlgo, key: PrivateKey)
    requires p.Digests()
    ensures EncodableClaim(Claim(PUBKEY_HASH_NAME, PubkeyHashValue(p, algo, key)))
    ensures ParsePubkeyHashBuffer(PubkeyHashValue(p, algo, key)) == Ok((algo, p.hash(algo, p.spki(key))))
  {
    hide GeneratePubkeyHashBuffer, ParsePubkeyHashBuffer;
    var h := p.hash(algo, p.spki(key));
    assert |h| == DigestSize(algo);
    PubkeyHashRoundTrip(algo, h);
    PubkeyHashLength(algo, h);
    AsciiIsUtf8(PUBKEY_HASH_NAME);
  }

  /** The claims the builder encodes are a map that reads back. */
  lemma CustomClaimsReadBack(p: Primitives, claims: Option<seq<Claim>>, algo: HashAlgo, key: PrivateKey)
    requires p.Digests() && Buildable(p, claims, algo, key)
    ensures var custom := CustomClaims(p, claims, algo, key);
      && ParseClaimsBuffer(GenerateClaimsBuffer(custom)) == Ok(custom)
      && Lookup(custom, PUBKEY_HASH_NAME) == Some(PubkeyHashValue(p, algo, key))
  {
    hide Ascii, GenerateClaimsBuffer, ParseClaimsBuffer, PubkeyHashValue, EncodableClaim;
    var given := if claims.Some? then claims.value else [];
    var value := PubkeyHashValue(p, algo, key);
    PubkeyHashEncodable(p, algo, key);
    InsertDistinct(given, PUBKEY_HASH_NAME, value);
    InsertForall(given, PUBKEY_HASH_NAME, value, c => EncodableClaim(c));
    ClaimsRoundTrip(CustomClaims(p, claims, algo, key));
    LookupInsert(given, PUBKEY_HASH_NAME, value, PUBKEY_HASH_NAME);
  }

  /** The evidence extension of a built certificate is found behind the standard ones and reads back. */
  lemma BuiltCertificateExtracts(p: Primitives, subject: string, algo: HashAlgo, key: PrivateKey, e: Evidence,
      claimsBuffer: seq<byte>)
    requires e.Valid() && |e.data| < U64_LIMIT && |claimsBuffer| < U64_LIMIT
    ensures var buffer := GenerateEvidenceBuffer(TAG_INTEL_TEE_QUOTE, e.data, claimsBuffer);
      Extracted(SignedCertificate(p, subject, algo, key, buffer, Some([]))) == Ok((e, claimsBuffer))
  {
    hide GenerateEvidenceBuffer, ParseEvidenceBuffer, AutoEvidence;
    var buffer := GenerateEvidenceBuffer(TAG_INTEL_TEE_QUOTE, e.data, claimsBuffer);
    var cert := SignedCertificate(p, subject, algo, key, buffer, Some([]));
    var extensions := cert.tbs.extensions.value;
    assert FirstExtension(extensions[3..], TaggedEvidence) == Some(buffer);
    assert extensions[2..][1..] == extensions[3..] && extensions[1..][1..] == extensions[2..];
    assert FirstExtension(extensions[2..], TaggedEvidence) == Some(buffer);
    assert FirstExtension(extensions[1..], TaggedEvidence) == Some(buffer);
    EvidenceRoundTrip(TAG_INTEL_TEE_QUOTE, e.data, claimsBuffer);
    DispatchExact(TAG_INTEL_TEE_QUOTE, e.data, e);
  }

  /**
   What a built certificate looks like: it names its subject as issuer, holds the key, and carries the
   standard extensions, the evidence of the TEE's quote and an empty endorsement; it is signed over
   all that with the algorithm of the key and hash.
   */
  lemma BuiltShape(p: Primitives, claims: Option<seq<Claim>>, subject: string, algo: HashAlgo, key: PrivateKey)
    requires Build(p, claims, subject, algo, key).Ok?
    ensures var (cert, e) := Build(p, claims, subject, algo, key).value;
      && cert.tbs.subject == cert.tbs.issuer == subject && cert.tbs.spki == p.spki(key)
      && cert.signature == p.sign(key, cert.algo, p.tbsDer(cert.tbs))
      && (key.P256? ==> cert.algo == EcdsaSha256)
      && (!key.P256? ==> cert.algo == match algo case Sha256 => RsaSha256 case Sha384 => RsaSha384 case Sha512 => RsaSha512)
      && cert.tbs.extensions.Some? && |cert.tbs.extensions.value| == 5
      && var x := cert.tbs.extensions.value;
      && x[0].oid == SubjectKeyIdentifier && x[1].oid == BasicConstraints && x[2].oid == KeyUsage
      && x[3] == Extension(TaggedEvidence,
           GenerateEvidenceBuffer(60000, e.data, GenerateClaimsBuffer(CustomClaims(p, claims, algo, key))))
      && x[4] == Extension(EndorsementManifest, [])
  {
    hide GenerateEvidenceBuffer, GenerateClaimsBuffer, CustomClaims;
  }

  /**
   Completeness: a certificate is built exactly when the TEE quotes the digest of the claims, and it
   verifies to the built-in claims of that quote merged with the caller's claims and the key hash.
   */
  lemma CertificateComplete(p: Primitives, claims: Option<seq<Claim>>, subject: string, algo: HashAlgo,
      key: PrivateKey)
    requires p.Correct() && Buildable(p, claims, algo, key)
    ensures var built := Build(p, claims, subject, algo, key);
      var digest := p.hash(Sha256, GenerateClaimsBuffer(CustomClaims(p, claims, algo, key)));
      && |digest| == 32
      && (built.Ok? <==> p.quote(digest + Zeros(32)).Some?)
      && (built.Ok? ==>
            && built.value.1.Valid()
            && VerifyCert(p, built.value.0) == Ok(Merge(BuiltinClaims(built.value.1), CustomClaims(p, claims, algo, key))))
  {
    hide GenerateClaimsBuffer, GenerateEvidenceBuffer, ParseClaimsBuffer, ParsePubkeyHashBuffer;
    hide Extracted, BuiltinClaims, CustomClaims, Padded;
    var custom := CustomClaims(p, claims, algo, key);
    var claimsBuffer := GenerateClaimsBuffer(custom);
    var digest := p.hash(Sha256, claimsBuffer);
    assert |digest| == DigestSize(Sha256);
    CustomClaimsReadBack(p, claims, algo, key);
    PubkeyHashEncodable(p, algo, key);
    assert Padded(digest) == digest + Zeros(32) by { PaddedDigest(digest); }
    if p.quote(Padded(digest)).Some? {
      var e := p.quote(Padded(digest)).value;
      BuiltCertificateExtracts(p, subject, algo, key, e, claimsBuffer);
    }
  }

  /** Name by name: what verifying a built certificate finds, and in which order the names come. */
  lemma VerifiedClaims(p: Primitives, claims: Option<seq<Claim>>, subject: string, algo: HashAlgo,
      key: PrivateKey, name: seq<byte>)
    requires p.Correct() && Buildable(p, claims, algo, key) && Build(p, claims, subject, algo, key).Ok?
    ensures var (cert, e) := Build(p, claims, subject, algo, key).value;
      && e.Valid() && VerifyCert(p, cert).Ok?
      && Lookup(VerifyCert(p, cert).value, name) == Expected(p, e, claims, algo, key, name)
      && Distinct(VerifyCert(p, cert).value) && BuiltinClaims(e) <= VerifyCert(p, cert).value
  {
    hide Build, VerifyCert, BuiltinClaims, PubkeyHashValue, Ascii, Lookup, Merge, Insert;
    CertificateComplete(p, claims, subject, algo, key);
    var (cert, e) := Build(p, claims, subject, algo, key).value;
    MergeLookup(BuiltinClaims(e), CustomClaims(p, claims, algo, key), name);
    LookupInsert(if claims.Some? then claims.value else [], PUBKEY_HASH_NAME, PubkeyHashValue(p, algo, key), name);
    BuiltinDistinct(e);
    MergeDistinct(BuiltinClaims(e), CustomClaims(p, claims, algo, key));
    NoClaims(name);
  }

  lemma NoClaims(name: seq<byte>)
    ensures Lookup([], name) == None
  {
  }

  /** The key hash always survives: no built-in claim is called `pubkey-hash`. */
  lemma PubkeyHashSurvives(p: Primitives, claims: Option<seq<Claim>>, subject: string, algo: HashAlgo,
      key: PrivateKey)
    requires p.Correct() && Buildable(p, claims, algo, key) && Build(p, claims, subject, algo, key).Ok?
    ensures var cert := Build(p, claims, subject, algo, key).value.0;
      && VerifyCert(p, cert).Ok?
      && var value := Lookup(VerifyCert(p, cert).value, Ascii("pubkey-hash"));
      value.Some? && ParsePubkeyHashBuffer(value.value) == Ok((algo, p.hash(algo, p.spki(key))))
  {
    hide Build, VerifyCert, BuiltinClaims, PubkeyHashValue, ParsePubkeyHashBuffer, Ascii, Lookup;
    VerifiedClaims(p, claims, subject, algo, key, PUBKEY_HASH_NAME);
    PubkeyHashEncodable(p, algo, key);
    BuiltinDistinct(Build(p, claims, subject, algo, key).value.1);
  }

  // ----- Policies -----

  lemma {:induction false} SatisfiesExact(expected: seq<Claim>, claims: seq<Claim>)
    ensures Satisfies(expected, claims) <==>
      forall i :: 0 <= i < |expected| ==> Lookup(claims, expected[i].name) == Some(expected[i].value)
  {
    if expected != [] {
      SatisfiesExact(expected[1..], claims);
      assert forall i :: 0 < i < |expected| ==> expected[i] == expected[1..][i - 1];
    }
  }

  /** On any certificate a policy passes exactly when the certificate is accepted and has each claim of the policy. */
  lemma PolicyOnAny(p: Primitives, policy: seq<Claim>, cert: Certificate)
    requires p.Digests()
    ensures VerifyPolicy(p, policy, cert) == Ok(Passed) <==>
      && VerifyCert(p, cert).Ok?
      && forall i :: 0 <= i < |policy| ==> Lookup(VerifyCert(p, cert).value, policy[i].name) == Some(policy[i].value)
    ensures VerifyPolicy(p, policy, cert).Err? <==> VerifyCert(p, cert).Err?
  {
    hide VerifyCert, Lookup, Satisfies;
    if VerifyCert(p, cert).Ok? {
      SatisfiesExact(policy, VerifyCert(p, cert).value);
    }
  }

  /** A policy passes on a built certificate exactly when each of its claims is the expected one. */
  lemma PolicyExact(p: Primitives, policy: seq<Claim>, claims: Option<seq<Claim>>, subject: string,
      algo: HashAlgo, key: PrivateKey)
    requires p.Correct() && Buildable(p, claims, algo, key) && Build(p, claims, subject, algo, key).Ok?
    ensures var (cert, e) := Build(p, claims, subject, algo, key).value;
      && e.Valid()
      && VerifyPolicy(p, policy, cert) ==
         Ok(if forall c <- policy :: Expected(p, e, claims, algo, key, c.name) == Some(c.value) then Passed else Failed)
  {
    hide Build, VerifyCert, BuiltinClaims, PubkeyHashValue, Ascii, Lookup, Expected, Satisfies;
    CertificateComplete(p, claims, subject, algo, key);
    var (cert, e) := Build(p, claims, subject, algo, key).value;
    SatisfiesExact(policy, VerifyCert(p, cert).value);
    forall i | 0 <= i < |policy|
      ensures Lookup(VerifyCert(p, cert).value, policy[i].name) == Expected(p, e, claims, algo, key, policy[i].name)
    {
      VerifiedClaims(p, claims, subject, algo, key, policy[i].name);
    }
  }

  /**
   The caller's own claims as the policy: refused exactly when one of them tries to override a
   built-in claim, or the key hash, with a different value.
   */
  lemma OwnClaimsPolicy(p: Primitives, given: seq<Claim>, subject: string, algo: HashAlgo, key: PrivateKey)
    requires p.Correct() && Buildable(p, Some(given), algo, key) && Build(p, Some(given), subject, algo, key).Ok?
    ensures var (cert, e) := Build(p, Some(given), subject, algo, key).value;
      && e.Valid()
      && (VerifyPolicy(p, given, cert) == Ok(Failed) <==> exists i :: 0 <= i < |given| && Overrides(p, e, algo, key, given[i]))
      && (VerifyPolicy(p, given, cert) == Ok(Passed) <==> forall i :: 0 <= i < |given| ==> !Overrides(p, e, algo, key, given[i]))
  {
    hide Build, VerifyCert, BuiltinClaims, PubkeyHashValue, Ascii, Lookup;
    PolicyExact(p, given, Some(given), subject, algo, key);
    var (cert, e) := Build(p, Some(given), subject, algo, key).value;
    BuiltinDistinct(e);
    forall i | 0 <= i < |given|
      ensures Expected(p, e, Some(given), algo, key, given[i].name) == Some(given[i].value) <==> !Overrides(p, e, algo, key, given[i])
    {
      LookupAt(given, i);
    }
  }

  predicate Overrides(p: Primitives, e: Evidence, algo: HashAlgo, key: PrivateKey, c: Claim)
    requires e.Valid()
  {
    || (Lookup(BuiltinClaims(e), c.name).Some? && Lookup(BuiltinClaims(e), c.name).value != c.value)
    || (c.name == PUBKEY_HASH_NAME && c.value != PubkeyHashValue(p, algo, key))
  }

  // ----- What an accepted certificate binds, whoever made it -----

  /** No certificate, however made, passes off a claim of its own for a built-in one. */
  lemma BuiltinNeverOverridden(p: Primitives, cert: Certificate, name: seq<byte>)
    requires p.Digests() && VerifyCert(p, cert).Ok?
    ensures Extracted(cert).Ok?
    ensures var e := Extracted(cert).value.0;
      && BuiltinClaims(e) <= VerifyCert(p, cert).value
      && (Lookup(BuiltinClaims(e), name).Some? ==> Lookup(VerifyCert(p, cert).value, name) == Lookup(BuiltinClaims(e), name))
  {
    hide Extracted, BuiltinClaims, CheckedClaims, Lookup, Merge;
    var (e, claimsBuffer) := Extracted(cert).value;
    var custom := CheckedClaims(p, cert.tbs.spki, claimsBuffer).value;
    MergeLookup(BuiltinClaims(e), custom, name);
    BuiltinDistinct(e);
    MergeDistinct(BuiltinClaims(e), custom);
  }

  /**
   What stands behind an accepted certificate: the place of its evidence extension, the evidence, the
   claims buffer beside it, the claims in that buffer and the algorithm of the key hash among them.
   */
  datatype Attestation = Attestation(at: nat, evidence: Evidence, buffer: seq<byte>, custom: seq<Claim>, algo: HashAlgo)

  /** The first extension for evidence, and what it holds. */
  ghost predicate Carries(cert: Certificate, at: nat, e: Evidence, buffer: seq<byte>) {
    && cert.tbs.extensions.Some?
    && var extensions := cert.tbs.extensions.value;
    && at < |extensions| && extensions[at].oid == TaggedEvidence
    && (forall j :: 0 <= j < at ==> extensions[j].oid != TaggedEvidence)
    && ParseEvidenceBuffer(extensions[at].value) == Ok((60000, e.data, buffer))
    && e.Valid()
  }

  /**
   The certificate carries a quote and a claims buffer; the quote is trusted and its report data is
   the digest of the buffer and 32 zeros; the claims in the buffer name the hash of the
   certificate's key.
   */
  ghost predicate Attested(p: Primitives, cert: Certificate, a: Attestation) {
    && Carries(cert, a.at, a.evidence, a.buffer)
    && p.trusted(a.evidence.data)
    && |p.hash(Sha256, a.buffer)| == 32
    && a.evidence.ReportData() == p.hash(Sha256, a.buffer) + Zeros(32)
    && ParseClaimsBuffer(a.buffer) == Ok(a.custom)
    && Lookup(a.custom, Ascii("pubkey-hash")).Some?
    && ParsePubkeyHashBuffer(Lookup(a.custom, Ascii("pubkey-hash")).value) == Ok((a.algo, p.hash(a.algo, cert.tbs.spki)))
  }

  /** The certificate names itself as its issuer, and its signature verifies under its own key with a known algorithm. */
  ghost predicate SelfSigned(p: Primitives, cert: Certificate) {
    && cert.tbs.subject == cert.tbs.issuer
    && cert.algo in {RsaSha256, RsaSha384, RsaSha512, EcdsaSha256}
    && p.verifies(cert.algo, cert.tbs.spki, p.tbsDer(cert.tbs), cert.signature)
  }

  /** The extension looked for is the one at the least index with the identifier. */
  lemma {:induction false} FirstExtensionExact(extensions: seq<Extension>, oid: Oid, value: seq<byte>)
    ensures FirstExtension(extensions, oid) == Some(value) <==>
      exists k :: 0 <= k < |extensions| && extensions[k] == Extension(oid, value) && forall j :: 0 <= j < k ==> extensions[j].oid != oid
    ensures FirstExtension(extensions, oid) == None <==> forall j :: 0 <= j < |extensions| ==> extensions[j].oid != oid
  {
    if extensions != [] {
      var rest := extensions[1..];
      FirstExtensionExact(rest, oid, value);
      assert forall j :: 0 < j < |extensions| ==> extensions[j] == rest[j - 1];
      assert forall j :: 0 <= j < |rest| ==> rest[j] == extensions[j + 1];
      if extensions[0].oid == oid {
        assert extensions[0] == Extension(oid, extensions[0].value);
      } else {
        if k :| 0 <= k < |rest| && rest[k] == Extension(oid, value) && forall j :: 0 <= j < k ==> rest[j].oid != oid {
          assert extensions[k + 1] == Extension(oid, value);
        }
        if k :| 0 <= k < |extensions| && extensions[k] == Extension(oid, value) && forall j :: 0 <= j < k ==> extensions[j].oid != oid {
          assert rest[k - 1] == Extension(oid, value);
        }
      }
    }
  }

  lemma ExtractedAt(cert: Certificate, at: nat, e: Evidence, buffer: seq<byte>)
    requires Carries(cert, at, e, buffer)
    ensures Extracted(cert) == Ok((e, buffer))
  {
    hide ParseEvidenceBuffer, AutoEvidence;
    var extensions := cert.tbs.extensions.value;
    FirstExtensionExact(extensions, TaggedEvidence, extensions[at].value);
    assert extensions[at] == Extension(TaggedEvidence, extensions[at].value);
    ExtractedExact(cert, e, buffer);
  }

  lemma CarriedAt(cert: Certificate, e: Evidence, buffer: seq<byte>) returns (at: nat)
    requires Extracted(cert) == Ok((e, buffer))
    ensures Carries(cert, at, e, buffer)
  {
    hide ParseEvidenceBuffer, AutoEvidence;
    ExtractedExact(cert, e, buffer);
    var extensions := cert.tbs.extensions.value;
    var value := FirstExtension(extensions, TaggedEvidence).value;
    FirstExtensionExact(extensions, TaggedEvidence, value);
    at :| 0 <= at < |extensions| && extensions[at] == Extension(TaggedEvidence, value)
      && forall j :: 0 <= j < at ==> extensions[j].oid != TaggedEvidence;
  }

  /** The evidence taken from a certificate is that of the quote tag in its first evidence extension. */
  lemma ExtractedExact(cert: Certificate, e: Evidence, buffer: seq<byte>)
    ensures Extracted(cert) == Ok((e, buffer)) <==>
      && e.Valid() && ExtractExtension(cert, TaggedEvidence).Some?
      && ParseEvidenceBuffer(ExtractExtension(cert, TaggedEvidence).value) == Ok((TAG_INTEL_TEE_QUOTE, e.data, buffer))
  {
    hide ParseEvidenceBuffer, AutoEvidence;
    if ExtractExtension(cert, TaggedEvidence).Some? {
      var parsed := ParseEvidenceBuffer(ExtractExtension(cert, TaggedEvidence).value);
      if parsed.Ok? {
        DispatchExact(parsed.value.0, parsed.value.1, e);
      }
    }
  }

  /** Claims check out under a key exactly when they name its hash. */
  lemma CheckedExact(p: Primitives, spki: seq<byte>, buffer: seq<byte>, custom: seq<Claim>)
    ensures CheckedClaims(p, spki, buffer) == Ok(custom) <==>
      && ParseClaimsBuffer(buffer) == Ok(custom) && Lookup(custom, PUBKEY_HASH_NAME).Some?
      && exists algo :: ParsePubkeyHashBuffer(Lookup(custom, PUBKEY_HASH_NAME).value) == Ok((algo, p.hash(algo, spki)))
  {
    hide ParseClaimsBuffer, ParsePubkeyHashBuffer, Lookup, Ascii;
    if CheckedClaims(p, spki, buffer) == Ok(custom) {
      var (algo, pubkeyHash) := ParsePubkeyHashBuffer(Lookup(custom, PUBKEY_HASH_NAME).value).value;
      assert ParsePubkeyHashBuffer(Lookup(custom, PUBKEY_HASH_NAME).value) == Ok((algo, p.hash(algo, spki)));
    }
  }

  /**
   Exactly the self-signed certificates with an attestation are accepted, with the claims of that
   attestation: the built-in ones of its quote, and its custom ones where no built-in one has the name.
   */
  lemma AcceptedExactly(p: Primitives, cert: Certificate, claims: seq<Claim>)
    requires p.Digests()
    ensures VerifyCert(p, cert) == Ok(claims) <==>
      && SelfSigned(p, cert)
      && exists a :: Attested(p, cert, a) && claims == Merge(BuiltinClaims(a.evidence), a.custom)
  {
    hide Extracted, BuiltinClaims, CheckedClaims, Merge;
    hide ParseClaimsBuffer, ParsePubkeyHashBuffer, ParseEvidenceBuffer, Lookup, Ascii;
    if VerifyCert(p, cert) == Ok(claims) {
      var (e, buffer) := Extracted(cert).value;
      var custom := CheckedClaims(p, cert.tbs.spki, buffer).value;
      var at := CarriedAt(cert, e, buffer);
      CheckedExact(p, cert.tbs.spki, buffer, custom);
      var algo :| ParsePubkeyHashBuffer(Lookup(custom, PUBKEY_HASH_NAME).value) == Ok((algo, p.hash(algo, cert.tbs.spki)));
      assert |p.hash(Sha256, buffer)| == DigestSize(Sha256);
      assert Attested(p, cert, Attestation(at, e, buffer, custom, algo));
    }
    if SelfSigned(p, cert) {
      forall a | Attested(p, cert, a)
        ensures VerifyCert(p, cert) == Ok(Merge(BuiltinClaims(a.evidence), a.custom))
      {
        ExtractedAt(cert, a.at, a.evidence, a.buffer);
        CheckedExact(p, cert.tbs.spki, a.buffer, a.custom);
        assert |p.hash(Sha256, a.buffer)| == DigestSize(Sha256);
      }
    }
  }

  /**
   Why a certificate is refused: its signature comes first, then the extension, then the quote and
   its report data.
   */
  lemma RefusedExactly(p: Primitives, cert: Certificate)
    requires p.Digests()
    ensures VerifyCert(p, cert) == Err(SignatureFailed) <==> !SelfSigned(p, cert)
    ensures VerifyCert(p, cert) == Err(EvidenceExtensionMissing) <==>
      SelfSigned(p, cert) && forall x :: cert.tbs.extensions.Some? && x in cert.tbs.extensions.value ==> x.oid != TaggedEvidence
    ensures forall at, e, buffer :: SelfSigned(p, cert) && Carries(cert, at, e, buffer) ==>
      && (VerifyCert(p, cert) == Err(QuoteUntrusted) <==> !p.trusted(e.data))
      && (VerifyCert(p, cert) == Err(ReportDataMismatch) <==>
            p.trusted(e.data) && e.ReportData() != p.hash(Sha256, buffer) + Zeros(32))
  {
    hide BuiltinClaims, Merge, Lookup, Ascii, ParseClaimsBuffer, ParsePubkeyHashBuffer, ParseEvidenceBuffer, AutoEvidence;
    if cert.tbs.extensions.Some? {
      var extensions := cert.tbs.extensions.value;
      FirstExtensionExact(extensions, TaggedEvidence, []);
      assert forall j :: 0 <= j < |extensions| ==> extensions[j] in extensions;
    }
    forall at: nat, e, buffer | SelfSigned(p, cert) && Carries(cert, at, e, buffer)
      ensures Extracted(cert) == Ok((e, buffer)) && |p.hash(Sha256, buffer)| == 32
      ensures Padded(p.hash(Sha256, buffer)) == p.hash(Sha256, buffer) + Zeros(32)
    {
      ExtractedAt(cert, at, e, buffer);
      assert |p.hash(Sha256, buffer)| == DigestSize(Sha256);
    }
  }

  /** And behind a good quote, the key hash among the claims, which is missing or that of another key. */
  lemma KeyRefusedExactly(p: Primitives, cert: Certificate, at: nat, e: Evidence, buffer: seq<byte>, custom: seq<Claim>)
    requires p.Digests() && SelfSigned(p, cert) && Carries(cert, at, e, buffer)
    ensures p.trusted(e.data) && e.ReportData() == p.hash(Sha256, buffer) + Zeros(32) && ParseClaimsBuffer(buffer) == Ok(custom) ==>
      var value := Lookup(custom, Ascii("pubkey-hash"));
      && (VerifyCert(p, cert) == Err(PubkeyHashMissing) <==> value == None)
      && (VerifyCert(p, cert) == Err(PubkeyHashMismatch) <==>
            && value.Some? && ParsePubkeyHashBuffer(value.value).Ok?
            && var (algo, hash) := ParsePubkeyHashBuffer(value.value).value; hash != p.hash(algo, cert.tbs.spki))
  {
    hide BuiltinClaims, Merge, Lookup, Ascii, ParseClaimsBuffer, ParsePubkeyHashBuffer, ParseEvidenceBuffer, AutoEvidence;
    hide Extracted, Padded, Carries;
    ExtractedAt(cert, at, e, buffer);
    assert |p.hash(Sha256, buffer)| == DigestSize(Sha256);
    PaddedDigest(p.hash(Sha256, buffer));
  }

  ghost predicate Accepted(p: Primitives, cert: Certificate, a: Attestation)
    requires p.Digests()
  {
    VerifyCert(p, cert).Ok? && Attested(p, cert, a)
  }

  /** A certificate has at most one attestation. */
  lemma AttestationUnique(p: Primitives, cert: Certificate, a: Attestation, b: Attestation)
    requires Attested(p, cert, a) && Attested(p, cert, b)
    ensures a == b
  {
    assert a.at == b.at;
    hide ParseClaimsBuffer, ParsePubkeyHashBuffer, ParseEvidenceBuffer, Lookup, Ascii, Padded;
    KindsDisjoint(a.evidence.data);
  }

  /**
   What one quote can vouch for, in any two accepted certificates: their claims buffers have the same
   digest, and if they have the same claims buffer, they verify to the same claims and their keys have
   the same digest, under the algorithm that buffer names.
   */
  lemma QuoteBindsKeyAndClaims(p: Primitives, c1: Certificate, a1: Attestation, c2: Certificate, a2: Attestation)
    requires p.Digests()
    ensures Accepted(p, c1, a1) && Accepted(p, c2, a2) && a1.evidence == a2.evidence ==>
      && p.hash(Sha256, a1.buffer) == p.hash(Sha256, a2.buffer)
      && (a1.buffer == a2.buffer ==>
            && VerifyCert(p, c1) == VerifyCert(p, c2) == Ok(Merge(BuiltinClaims(a1.evidence), a1.custom))
            && a1.algo == a2.algo && p.hash(a1.algo, c1.tbs.spki) == p.hash(a1.algo, c2.tbs.spki))
  {
    hide ParseClaimsBuffer, ParsePubkeyHashBuffer, ParseEvidenceBuffer, Lookup, Ascii, Padded, BuiltinClaims, Merge;
    hide VerifyCert, VerifySignature, ExtractExtension;
    if Accepted(p, c1, a1) && Accepted(p, c2, a2) && a1.evidence == a2.evidence {
      SamePadded(p.hash(Sha256, a1.buffer), p.hash(Sha256, a2.buffer));
      VerifiesAsAttested(p, c1, a1);
      VerifiesAsAttested(p, c2, a2);
    }
  }

  lemma PaddedDigest(digest: seq<byte>)
    requires |digest| == 32
    ensures Padded(digest) == digest + Zeros(32)
  {
  }

  lemma SamePadded(a: seq<byte>, b: seq<byte>)
    requires |a| == |b| == 32 && a + Zeros(32) == b + Zeros(32)
    ensures a == b
  {
    assert a == (a + Zeros(32))[..32] == (b + Zeros(32))[..32] == b;
  }

  lemma VerifiesAsAttested(p: Primitives, cert: Certificate, a: Attestation)
    requires p.Digests()
    ensures Accepted(p, cert, a) ==> VerifyCert(p, cert) == Ok(Merge(BuiltinClaims(a.evidence), a.custom))
  {
    hide ParseClaimsBuffer, ParsePubkeyHashBuffer, ParseEvidenceBuffer, Lookup, Ascii, Padded, ExtractExtension;
    hide VerifyCert, VerifySignature, BuiltinClaims, Merge;
    if Accepted(p, cert, a) {
      AcceptedExactly(p, cert, VerifyCert(p, cert).value);
      AcceptedExactly(p, cert, Merge(BuiltinClaims(a.evidence), a.custom));
    }
  }

  /** A built certificate is attested by the quote the TEE gave, with the builder's claims and algorithm. */
  lemma BuiltAttested(p: Primitives, claims: Option<seq<Claim>>, subject: string, algo: HashAlgo, key: PrivateKey)
    requires p.Correct() && Buildable(p, claims, algo, key) && Build(p, claims, subject, algo, key).Ok?
    ensures var (cert, e) := Build(p, claims, subject, algo, key).value;
      var custom := CustomClaims(p, claims, algo, key);
      Attested(p, cert, Attestation(3, e, GenerateClaimsBuffer(custom), custom, algo)) && cert.tbs.spki == p.spki(key)
  {
    hide GenerateClaimsBuffer, GenerateEvidenceBuffer, ParseClaimsBuffer, ParsePubkeyHashBuffer, ParseEvidenceBuffer;
    hide CustomClaims, Lookup, Ascii, PubkeyHashValue;
    var (cert, e) := Build(p, claims, subject, algo, key).value;
    var buffer := GenerateClaimsBuffer(CustomClaims(p, claims, algo, key));
    assert |p.hash(Sha256, buffer)| == DigestSize(Sha256);
    CustomClaimsReadBack(p, claims, algo, key);
    PubkeyHashEncodable(p, algo, key);
    EvidenceRoundTrip(TAG_INTEL_TEE_QUOTE, e.data, buffer);
  }

  /**
   The quote in a built certificate is of no use to another: any accepted certificate around it has
   a claims buffer with the digest of the builder's, and with the builder's buffer it has the
   builder's claims and a key with the digest of the builder's key.
   */
  lemma QuoteNotReusable(p: Primitives, claims: Option<seq<Claim>>, subject: string, algo: HashAlgo, key: PrivateKey,
      other: Certificate, a: Attestation)
    requires p.Correct() && Buildable(p, claims, algo, key) && Build(p, claims, subject, algo, key).Ok?
    ensures var (cert, e) := Build(p, claims, subject, algo, key).value;
      var buffer := GenerateClaimsBuffer(CustomClaims(p, claims, algo, key));
      Accepted(p, other, a) && a.evidence == e ==>
        && p.hash(Sha256, a.buffer) == p.hash(Sha256, buffer)
        && (a.buffer == buffer ==>
              VerifyCert(p, other) == VerifyCert(p, cert) && p.hash(algo, other.tbs.spki) == p.hash(algo, p.spki(key)))
  {
    hide Attested, Build, VerifyCert, GenerateClaimsBuffer, CustomClaims;
    var (cert, e) := Build(p, claims, subject, algo, key).value;
    if Accepted(p, other, a) && a.evidence == e {
      var custom := CustomClaims(p, claims, algo, key);
      BuiltAttested(p, claims, subject, algo, key);
      CertificateComplete(p, claims, subject, algo, key);
      QuoteBindsKeyAndClaims(p, cert, Attestation(3, e, GenerateClaimsBuffer(custom), custom, algo), other, a);
    }
  }

  // ----- The assumptions can be met -----

  /** An SGX quote of version 3 with this report data and an empty signature. */
  function QuoteWith(reportData: seq<byte>): seq<byte> {
    Layout(3, 2, 0, Zeros(QUOTE_HEADER - 8), [], Zeros(SGX_REPORT_DATA_AT) + reportData, []).Serialized()
  }

  lemma QuoteWithIsAQuote(d: seq<byte>)
    requires |d| == REPORT_DATA
    ensures var e := Evidence(SgxDcap, QuoteWith(d)); e.Valid() && e.ReportData() == d && |e.data| == SGX_QUOTE3
  {
    hide FromLE, ToLE;
    var l := Layout(3, 2, 0, Zeros(QUOTE_HEADER - 8), [], Zeros(SGX_REPORT_DATA_AT) + d, []);
    SerializedFields(l);
    SgxExact(l.Serialized());
    assert SgxReportBody(QuoteWith(d))[SGX_REPORT_DATA_AT..] == d;
  }

  /** `Correct` holds of some primitives, with a TEE that quotes every report data. */
  lemma CorrectPrimitivesExist() returns (p: Primitives)
    ensures p.Correct() && forall d :: |d| == REPORT_DATA ==> p.quote(d).Some?
  {
    p := Primitives(
      (algo, m) => Zeros(DigestSize(algo)), key => [], (key, algo, m) => [], (algo, spki, m, signature) => true,
      tbs => [], (oid, spki) => [], q => true,
      d => if |d| == REPORT_DATA then Some(Evidence(SgxDcap, QuoteWith(d))) else None);
    forall d | |d| == REPORT_DATA
      ensures var e := Evidence(SgxDcap, QuoteWith(d)); e.Valid() && e.ReportData() == d && |e.data| == SGX_QUOTE3
    {
      QuoteWithIsAQuote(d);
    }
  }
}
