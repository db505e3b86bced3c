/**
 The buffers inside a DICE certificate: the tagged evidence, the claims map and the public-key hash.
 */
module DiceCbor {
  import opened Wrappers
  import opened Bytes
  import opened Cbor
  import opened Claims

  const TAG_INTEL_TEE_QUOTE: nat := 60000
  const TAG_INTEL_TEE_REPORT: nat := 60001

  datatype HashAlgo = Sha256 | Sha384 | Sha512

  datatype CborError = Malformed | UnsupportedHashAlgo(id: nat)

  function IanaId(algo: HashAlgo): nat {
    match algo
    case Sha256 => 1
    case Sha384 => 7
    case Sha512 => 8
  }

  function FromIanaId(id: nat): Result<HashAlgo, CborError> {
    if id == 1 then Ok(Sha256) else if id == 7 then Ok(Sha384) else if id == 8 then Ok(Sha512) else Err(UnsupportedHashAlgo(id))
  }

  // ----- Evidence -----

  function EvidenceItem(tag: nat, rawEvidence: seq<byte>, claimsBuffer: seq<byte>): Value {
    Tagged(tag, Array([ByteString(rawEvidence), ByteString(claimsBuffer)]))
  }

  function GenerateEvidenceBuffer(tag: nat, rawEvidence: seq<byte>, claimsBuffer: seq<byte>): seq<byte> {
    Encode(EvidenceItem(tag, rawEvidence, claimsBuffer))
  }

  function ParseEvidenceBuffer(buffer: seq<byte>): Result<(nat, seq<byte>, seq<byte>), CborError> {
    match FromReader(buffer)
    case Some(Tagged(tag, Array(a))) =>
      if |a| == 2 && a[0].ByteString? && a[1].ByteString? then Ok((tag, a[0].bytes, a[1].bytes)) else Err(Malformed)
    case _ => Err(Malformed)
  }

  /** Of all encoded items exactly the tagged pairs of byte strings are evidence, and they give back tag and parts. */
  lemma EvidenceExact(v: Value, tag: nat, rawEvidence: seq<byte>, claimsBuffer: seq<byte>)
    requires Encodable(v)
    ensures ParseEvidenceBuffer(Encode(v)) == Ok((tag, rawEvidence, claimsBuffer))
      <==> v == EvidenceItem(tag, rawEvidence, claimsBuffer)
  {
    hide Encode, FromReader;
    FromReaderEncode(v);
    if ParseEvidenceBuffer(Encode(v)) == Ok((tag, rawEvidence, claimsBuffer)) {
      assert v.item.items == [v.item.items[0], v.item.items[1]];
    }
  }

  lemma EvidenceRoundTrip(tag: nat, rawEvidence: seq<byte>, claimsBuffer: seq<byte>)
    requires tag < U64_LIMIT && |rawEvidence| < U64_LIMIT && |claimsBuffer| < U64_LIMIT
    ensures ParseEvidenceBuffer(GenerateEvidenceBuffer(tag, rawEvidence, claimsBuffer)) == Ok((tag, rawEvidence, claimsBuffer))
  {
    assert Encodable(Array([ByteString(rawEvidence), ByteString(claimsBuffer)]));
    EvidenceExact(EvidenceItem(tag, rawEvidence, claimsBuffer), tag, rawEvidence, claimsBuffer);
  }

  // ----- Byte vectors -----

  function Numbers(bs: seq<byte>): Value {
    Array(seq(|bs|, i requires 0 <= i < |bs| => Unsigned(bs[i])))
  }

  /** What is read into a vector of bytes: a byte string, or as many small numbers in an array. */
  function ByteVector(v: Value): Option<seq<byte>> {
    match v
    case ByteString(bytes) => Some(bytes)
    case Array(items) =>
      if forall i :: 0 <= i < |items| ==> items[i].Unsigned? && items[i].n < 256 then
        Some(seq(|items|, i requires 0 <= i < |items| => items[i].n as byte))
      else None
    case _ => None
  }

  /** The two forms of a vector of bytes, of which the program writes the first. */
  lemma ByteVectorExact(v: Value, bs: seq<byte>)
    ensures ByteVector(v) == Some(bs) <==> v == ByteString(bs) || v == Numbers(bs)
  {
    if ByteVector(v) == Some(bs) && v.Array? {
      assert v.items == Numbers(bs).items;
    }
    if v == Numbers(bs) {
      assert ByteVector(v).value == bs;
    }
  }

  // ----- Claims -----

  ghost predicate EncodableClaim(c: Claim) {
    |c.name| < U64_LIMIT && ValidUtf8(c.name) && |c.value| < U64_LIMIT
  }

  ghost predicate EncodableClaims(claims: seq<Claim>) {
    |claims| < U64_LIMIT && forall i :: 0 <= i < |claims| ==> EncodableClaim(claims[i])
  }

  function Entries(claims: seq<Claim>): (entries: seq<Value>)
    ensures |entries| == 2 * |claims|
  {
    if claims == [] then []
    else [TextString(claims[0].name), ByteString(claims[0].value)] + Entries(claims[1..])
  }

  function GenerateClaimsBuffer(claims: seq<Claim>): seq<byte> {
    Encode(Map(Entries(claims)))
  }

  /** Reads text-to-bytes entries into a map that already holds `claims`. */
  function InsertEntries(claims: seq<Claim>, entries: seq<Value>): Result<seq<Claim>, CborError>
    decreases |entries|
  {
    if entries == [] then Ok(claims)
    else if |entries| == 1 then Err(Malformed)
    else if entries[0].TextString? && ByteVector(entries[1]).Some? then
      InsertEntries(Insert(claims, entries[0].utf8, ByteVector(entries[1]).value), entries[2..])
    else Err(Malformed)
  }

  function ParseClaimsBuffer(buffer: seq<byte>): Result<seq<Claim>, CborError> {
    match FromReader(buffer)
    case Some(Map(entries)) => InsertEntries([], entries)
    case _ => Err(Malformed)
  }

  lemma {:induction false} EntriesEncodable(claims: seq<Claim>)
    requires forall i :: 0 <= i < |claims| ==> EncodableClaim(claims[i])
    ensures forall i :: 0 <= i < 2 * |claims| ==> Encodable(Entries(claims)[i])
  {
    if claims != [] {
      EntriesEncodable(claims[1..]);
    }
  }

  lemma NewName(before: seq<Claim>, claims: seq<Claim>)
    requires Distinct(before + claims) && claims != []
    ensures Lookup(before, claims[0].name).None?
  {
    LookupExact(before, claims[0].name);
    assert (before + claims)[|before|] == claims[0];
    assert forall i :: 0 <= i < |before| ==> (before + claims)[i] == before[i];
  }

  /** Entries that list these claims, each value in either form. */
  ghost predicate Spells(entries: seq<Value>, claims: seq<Claim>) {
    |entries| == 2 * |claims|
    && forall i :: 0 <= i < |claims| ==>
         entries[2 * i] == TextString(claims[i].name) && ByteVector(entries[2 * i + 1]) == Some(claims[i].value)
  }

  lemma {:induction false} EntriesSpell(claims: seq<Claim>)
    ensures Spells(Entries(claims), claims)
  {
    hide ByteVector;
    if claims != [] {
      var c := claims[0];
      EntriesSpell(claims[1..]);
      ByteVectorExact(ByteString(c.value), c.value);
      SpellsCons(Entries(claims), claims);
    }
  }

  /** Entries spell claims when their first pair spells the first claim and the others the others. */
  lemma SpellsCons(entries: seq<Value>, claims: seq<Claim>)
    requires |entries| >= 2 && claims != []
    ensures Spells(entries, claims) <==>
      && entries[0] == TextString(claims[0].name) && ByteVector(entries[1]) == Some(claims[0].value)
      && Spells(entries[2..], claims[1..])
  {
    hide ByteVector;
    var es, cs := entries[2..], claims[1..];
    if Spells(entries, claims) {
      assert entries[2 * 0] == TextString(claims[0].name);
      forall i | 0 <= i < |cs|
        ensures es[2 * i] == TextString(cs[i].name) && ByteVector(es[2 * i + 1]) == Some(cs[i].value)
      {
        assert entries[2 * (i + 1)] == es[2 * i] && claims[i + 1] == cs[i];
      }
    }
    if Spells(es, cs) && entries[0] == TextString(claims[0].name) && ByteVector(entries[1]) == Some(claims[0].value) {
      forall i | 0 <= i < |claims|
        ensures entries[2 * i] == TextString(claims[i].name) && ByteVector(entries[2 * i + 1]) == Some(claims[i].value)
      {
        if i > 0 {
          assert entries[2 * i] == es[2 * (i - 1)] && entries[2 * i + 1] == es[2 * (i - 1) + 1] && claims[i] == cs[i - 1];
        }
      }
    }
  }

  lemma {:induction false} InsertEntriesOfClaims(before: seq<Claim>, entries: seq<Value>, claims: seq<Claim>)
    requires Spells(entries, claims) && Distinct(before + claims)
    ensures InsertEntries(before, entries) == Ok(before + claims)
    decreases |claims|
  {
    hide Insert, Lookup, Distinct, Spells, ByteVector;
    if claims == [] {
      SpellsLength(entries, claims);
      assert entries == [];
      assert before + [] == before;
    } else {
      var c := claims[0];
      SpellsLength(entries, claims);
      SpellsCons(entries, claims);
      NewName(before, claims);
      InsertNew(before, c.name, c.value);
      assert before + [c] + claims[1..] == before + claims;
      InsertEntriesOfClaims(before + [c], entries[2..], claims[1..]);
    }
  }

  lemma SpellsLength(entries: seq<Value>, claims: seq<Claim>)
    requires Spells(entries, claims)
    ensures |entries| == 2 * |claims|
  {
  }

  /** Every ordered map of text to bytes reads back with its order, across all head widths. */
  lemma ClaimsRoundTrip(claims: seq<Claim>)
    requires EncodableClaims(claims) && Distinct(claims)
    ensures ParseClaimsBuffer(GenerateClaimsBuffer(claims)) == Ok(claims)
  {
    hide Encode, FromReader;
    EntriesEncodable(claims);
    FromReaderEncode(Map(Entries(claims)));
    assert [] + claims == claims;
    EntriesSpell(claims);
    InsertEntriesOfClaims([], Entries(claims), claims);
  }

  /** Hence different maps, or one map in two orders, have different buffers. */
  lemma ClaimsInjective(a: seq<Claim>, b: seq<Claim>)
    requires EncodableClaims(a) && Distinct(a) && EncodableClaims(b) && Distinct(b)
    requires GenerateClaimsBuffer(a) == GenerateClaimsBuffer(b)
    ensures a == b
  {
    ClaimsRoundTrip(a);
    ClaimsRoundTrip(b);
  }

  /** Whatever buffer is read, its claims have distinct names. */
  lemma ParsedClaimsDistinct(buffer: seq<byte>)
    requires ParseClaimsBuffer(buffer).Ok?
    ensures Distinct(ParseClaimsBuffer(buffer).value)
  {
    hide FromReader;
    InsertEntriesDistinct([], FromReader(buffer).value.entries);
  }

  lemma {:induction false} InsertEntriesDistinct(claims: seq<Claim>, entries: seq<Value>)
    requires Distinct(claims) && InsertEntries(claims, entries).Ok?
    ensures Distinct(InsertEntries(claims, entries).value)
    decreases |entries|
  {
    if entries != [] {
      var value := ByteVector(entries[1]).value;
      InsertDistinct(claims, entries[0].utf8, value);
      InsertEntriesDistinct(Insert(claims, entries[0].utf8, value), entries[2..]);
    }
  }

  /**
   Of all encoded items exactly the maps from text to vectors of bytes are read as claims, and
   distinct ones are read as they stand, whichever form their values have.
   */
  lemma ClaimsAcceptedExactly(v: Value)
    requires Encodable(v)
    ensures ParseClaimsBuffer(Encode(v)).Ok? <==> v.Map? && exists claims :: Spells(v.entries, claims)
    ensures v.Map? ==>
      forall claims :: Spells(v.entries, claims) && Distinct(claims) ==> ParseClaimsBuffer(Encode(v)) == Ok(claims)
  {
    hide Encode, FromReader, Spells, Distinct;
    FromReaderEncode(v);
    if v.Map? {
      InsertEntriesAccepts([], v.entries);
      forall claims | Spells(v.entries, claims) && Distinct(claims)
        ensures ParseClaimsBuffer(Encode(v)) == Ok(claims)
      {
        assert [] + claims == claims;
        InsertEntriesOfClaims([], v.entries, claims);
      }
    }
  }

  lemma {:induction false} InsertEntriesAccepts(before: seq<Claim>, entries: seq<Value>)
    ensures InsertEntries(before, entries).Ok? <==> exists claims :: Spells(entries, claims)
    decreases |entries|
  {
    hide Insert, Spells, ByteVector;
    if entries == [] {
      EntriesSpell([]);
    } else if |entries| == 1 {
      forall claims | Spells(entries, claims) ensures false {
        SpellsLength(entries, claims);
      }
    } else {
      var rest := entries[2..];
      if InsertEntries(before, entries).Ok? {
        var c := Claim(entries[0].utf8, ByteVector(entries[1]).value);
        InsertEntriesAccepts(Insert(before, c.name, c.value), rest);
        var claims :| Spells(rest, claims);
        assert ([c] + claims)[1..] == claims;
        SpellsCons(entries, [c] + claims);
      }
      if claims: seq<Claim> :| Spells(entries, claims) {
        SpellsLength(entries, claims);
        SpellsCons(entries, claims);
        InsertEntriesAccepts(Insert(before, claims[0].name, claims[0].value), rest);
      }
    }
  }

  // ----- Public-key hash -----

  function PubkeyHashItem(algo: HashAlgo, hash: seq<byte>): Value {
    Array([Unsigned(IanaId(algo)), ByteString(hash)])
  }

  function GeneratePubkeyHashBuffer(algo: HashAlgo, hash: seq<byte>): seq<byte> {
    Encode(PubkeyHashItem(algo, hash))
  }

  function ParsePubkeyHashBuffer(buffer: seq<byte>): Result<(HashAlgo, seq<byte>), CborError> {
    match FromReader(buffer)
    case Some(Array(a)) =>
      if |a| == 2 && a[0].Unsigned? && a[0].n < 256 && ByteVector(a[1]).Some? then
        var algo :- FromIanaId(a[0].n);
        Ok((algo, ByteVector(a[1]).value))
      else Err(Malformed)
    case _ => Err(Malformed)
  }

  /** Exactly the pairs of a supported algorithm's number and a vector of bytes are public-key hashes. */
  lemma PubkeyHashExact(v: Value, algo: HashAlgo, hash: seq<byte>)
    requires Encodable(v)
    ensures ParsePubkeyHashBuffer(Encode(v)) == Ok((algo, hash)) <==>
      v == PubkeyHashItem(algo, hash) || v == Array([Unsigned(IanaId(algo)), Numbers(hash)])
  {
    hide Encode, FromReader, ByteVector, Numbers;
    FromReaderEncode(v);
    if v.Array? && |v.items| == 2 {
      assert v.items == [v.items[0], v.items[1]];
      ByteVectorExact(v.items[1], hash);
    }
  }

  lemma PubkeyHashRoundTrip(algo: HashAlgo, hash: seq<byte>)
    requires |hash| < U64_LIMIT
    ensures ParsePubkeyHashBuffer(GeneratePubkeyHashBuffer(algo, hash)) == Ok((algo, hash))
  {
    PubkeyHashExact(PubkeyHashItem(algo, hash), algo, hash);
  }

  // ----- The documented encodings -----

  lemma VectorHeads()
    ensures EncodeHead(6, 60000) == [0xd9, 0xea, 0x60]
    ensures EncodeHead(4, 2) == [0x82] && EncodeHead(2, 4) == [0x44]
  {
    assert ToBE(60000, 2) == ToBE(234, 1) + [0x60] == [0xea, 0x60];
  }

  /** 60000([h'01020304', h'05060708']). */
  lemma EvidenceVector()
    ensures GenerateEvidenceBuffer(TAG_INTEL_TEE_QUOTE, [1, 2, 3, 4], [5, 6, 7, 8])
      == [0xd9, 0xea, 0x60, 0x82, 0x44, 1, 2, 3, 4, 0x44, 5, 6, 7, 8]
  {
    hide EncodeHead;
    VectorHeads();
    var a, b := ByteString([1, 2, 3, 4]), ByteString([5, 6, 7, 8]);
    assert Encode(a) == [0x44, 1, 2, 3, 4] && Encode(b) == [0x44, 5, 6, 7, 8];
    assert EncodeAll([b]) == Encode(b) + EncodeAll([]);
    assert EncodeAll([a, b]) == Encode(a) + EncodeAll([b]);
    assert Encode(Array([a, b])) == [0x82] + EncodeAll([a, b]);
  }

  /** {"key1": h'76616c756531', "key2": h'76616c756532'}, for any names and values of these lengths. */
  lemma ClaimsVector(key1: seq<byte>, value1: seq<byte>, key2: seq<byte>, value2: seq<byte>)
    requires |key1| == |key2| == 4 && |value1| == |value2| == 6
    ensures GenerateClaimsBuffer([Claim(key1, value1), Claim(key2, value2)])
      == [0xa2] + (([0x64] + key1) + (([0x46] + value1) + (([0x64] + key2) + (([0x46] + value2) + []))))
  {
    var c1, c2 := Claim(key1, value1), Claim(key2, value2);
    var k1, v1, k2, v2 := TextString(key1), ByteString(value1), TextString(key2), ByteString(value2);
    assert Entries([c2]) == [k2, v2] + Entries([]);
    assert Entries([c1, c2]) == [k1, v1] + Entries([c2]) == [k1, v1, k2, v2];
    assert EncodeAll([v2]) == Encode(v2) + EncodeAll([]);
    assert EncodeAll([k2, v2]) == Encode(k2) + EncodeAll([v2]);
    assert EncodeAll([v1, k2, v2]) == Encode(v1) + EncodeAll([k2, v2]);
    assert EncodeAll([k1, v1, k2, v2]) == Encode(k1) + EncodeAll([v1, k2, v2]);
  }

  /** [1, h'00010203'], and the layout under each algorithm for digests of its size. */
  lemma PubkeyHashVector(hash: seq<byte>)
    ensures GeneratePubkeyHashBuffer(Sha256, [0, 1, 2, 3]) == [0x82, 0x01, 0x44, 0, 1, 2, 3]
    ensures |hash| == 32 ==> GeneratePubkeyHashBuffer(Sha256, hash) == [0x82, 0x01, 0x58, 0x20] + hash
    ensures |hash| == 48 ==> GeneratePubkeyHashBuffer(Sha384, hash) == [0x82, 0x07, 0x58, 0x30] + hash
    ensures |hash| == 64 ==> GeneratePubkeyHashBuffer(Sha512, hash) == [0x82, 0x08, 0x58, 0x40] + hash
  {
    hide Encode, EncodeHead;
    PairBytes(1, [0, 1, 2, 3]);
    PairBytes(1, hash);
    PairBytes(7, hash);
    PairBytes(8, hash);
    DigestHeads();
  }

  lemma DigestHeads()
    ensures EncodeHead(2, 4) == [0x44] && EncodeHead(2, 32) == [0x58, 0x20]
    ensures EncodeHead(2, 48) == [0x58, 0x30] && EncodeHead(2, 64) == [0x58, 0x40]
  {
  }

  lemma PairBytes(n: nat, bytes: seq<byte>)
    requires n < 24
    ensures Encode(Array([Unsigned(n), ByteString(bytes)])) == [0x82, n] + EncodeHead(2, |bytes|) + bytes
  {
    var a, b := Unsigned(n), ByteString(bytes);
    assert EncodeAll([b]) == Encode(b) + EncodeAll([]);
    assert EncodeAll([a, b]) == Encode(a) + EncodeAll([b]);
  }

  /** Another small number in place of the algorithm's is refused as such. */
  lemma UnsupportedAlgo(n: nat, hash: seq<byte>)
    requires n < 256 && |hash| < U64_LIMIT
    ensures ParsePubkeyHashBuffer(Encode(Array([Unsigned(n), ByteString(hash)]))) == Err(UnsupportedHashAlgo(n))
      <==> n !in {1, 7, 8}
  {
    hide Encode, FromReader;
    FromReaderEncode(Array([Unsigned(n), ByteString(hash)]));
  }
}
