# A verified model of rats-rs

rats-rs carries a TEE's attestation evidence inside X.509 certificates and runs an SPDM secure session
over a byte stream. This project models, in Dafny 4.11, the three parts of it with the most state and the
most arithmetic, and proves what they promise.

**The byte transport** (`Framing`, `FramedStreams`, `TransportEncap`, `SecureHalf`, `Tunnel`, `TunnelRuns`,
`Session`). `FramedStream` reassembles length-prefixed packets in place in one fixed buffer, from whatever
fragments, ends of stream and errors the socket produces, and remembers what is left over. The class is proved
against a function on byte strings; runs of that function are proved to conserve every byte, to return exactly
the packets of the reference `Split` whatever the fragmentation, and to stop for good exactly at an oversized
header. On top stand encapsulation, sealing, the two halves and the two loops of the tunnel example. One
direction of the tunnel is also a transition system, in which every interleaving of the two loops and the
network is a run: at every moment what the far end has written is a prefix of what the near end has read, and a
far end that has drained the wire has written all of it. The two loops, however they end, are such runs. A
responder that is split in mid-stream goes on reading where it stopped, whatever is sent in between.

**The attested certificate** (`Cbor`, `DiceCbor`, `Claims`, `Certificates`, `CertificateProofs`, `Measurements`).
The CBOR encoder and decoder round-trip for every nested item; the evidence, claims and key-hash buffers are read
back exactly; a built certificate verifies to exactly the claims it should, a policy passes on it exactly when it
should. Which certificates are accepted, whoever made them, is characterised exactly, and two accepted ones around
one quote have claims buffers with one digest and, with one buffer, the same claims and keys with one digest. SPDM
measurements carry the same claims.

**The quotes** (`Quotes`, `QuoteClaims`, `ReportBodies`). The SGX and TDX validators accept exactly the serialized forms of the
layouts they stand for, the unchecked readers behind them agree with them and stay inside the data, the two kinds
are disjoint, every claim is the field of the report body it is named for, and the TDX claims tile the report body.

Helper modules: `Bytes` (fixed-width integers, concatenation), `Buffers` (in-place copies), `Wrappers`.

## Assumptions

- The `u32` codec of the SPDM library is little-endian and the host is too, so that `to_be` swaps the four bytes;
  the frame header is then big-endian on the wire. Its source is not part of this model.
- Buffer sizes configured in the SPDM library (`RECEIVER_BUFFER_SIZE`, `SENDER_BUFFER_SIZE`, measurement sizes) are
  parameters; the tunnel assumes that the sender's is below 2^32.
- Record protection is a pair of functions of the message number with `open(i, seal(i, m)) == Some(m)`. The SPDM
  library's `encode_secured_message` and `decode_secured_message` nest packets as
  docs/architecture-of-the-project.md:198-237 says, refuse an unsecured packet, use buffers as large as the
  transport buffer, and count a message when it is sealed or opened.
- Hash, signature, DER and TEE are the function fields of `Certificates.Primitives`. The theorems assume that
  digests have their sizes, that signatures verify when the algorithm suits the key, and that the TEE's quotes are accepted, trusted and carry the
  report data; `CorrectPrimitivesExist` shows that these can hold together.
- Structure sizes and offsets are those of Intel's quote headers, as named constants and, field by field, as the
  records of `ReportBodies`.
- `hide` statements only keep definitions away from the solver; they assume nothing.

## Where the code differs from its documentation

- `decap_app` is documented to accept Secured and App messages; the code accepts Spdm and App
  (rats-rs/src/transport/spdm/transport.rs:157-179). The model follows the code.
- The comments on the two halves' `device_io` fields are swapped: the read half receives and the write half sends
  (rats-rs/src/transport/spdm/half.rs:20, rats-rs/src/transport/spdm/half.rs:28).
- The tunnel's receiving loop treats a received length of zero as the peer's orderly close. The sending loop never
  sends an empty message, and at the end of the stream `receive` fails instead of returning zero, so the orderly
  branch, with its `shutdown` of the plain socket, is never taken (`Tunnel.PumpSafe`).
- `SgxDcapEvidence` is documented as a version 3 quote; versions 4 and 5 with TEE type 0 are accepted too, with the
  version 3 layout (rats-rs/src/tee/sgx_dcap/evidence.rs:38-52).

## Model

| member | source | states |
|---|---|---|
| Framing.HeaderRoundTrip | rats-rs/src/transport/spdm/io/framed_stream.rs:140-143 | the swap in `send` and the swap in `receive` cancel: the reader finds the payload length modulo 32 bits, and the header is big-endian on the wire |
| Framing.NextFrameExact | rats-rs/src/transport/spdm/io/framed_stream.rs:71-80 | a buffer is taken to start with a packet exactly when that packet's frame is its prefix |
| Framing.ReceiveConserves | rats-rs/src/transport/spdm/io/framed_stream.rs:62-132 | over one call, however it ends, the bytes buffered and to come equal the frame returned, the bytes buffered after and the bytes to come after; a failed call keeps all it had; a returned payload fits the caller's buffer |
| Framing.ReceiveReadsNothingWhenComplete | rats-rs/src/transport/spdm/io/framed_stream.rs:71-80 | a call returns the head frame without touching the socket exactly when the buffer already holds it whole |
| Framing.RunConserves | rats-rs/src/transport/spdm/io/framed_stream.rs:67-132 | over any number of calls, through ends of stream, errors and full buffers, nothing is lost, repeated or reordered |
| Framing.RunRefinesSplit | rats-rs/src/transport/spdm/io/framed_stream.rs:67-132 | after any run the payloads returned are the first ones of the reference split of the whole stream, and the split of what is left gives the rest |
| Framing.RunDrains | rats-rs/src/transport/spdm/io/framed_stream.rs:67-132 | enough calls return every payload of the reference split, whatever failed in between |
| Framing.FragmentationIndependence | rats-rs/src/transport/spdm/io/framed_stream.rs:62-133 | two sockets handing over the same bytes, cut and interrupted in any two ways, yield the same payloads |
| Framing.ReceiveFifo | rats-rs/src/transport/spdm/io/framed_stream.rs:62-157 | the n-th call returns the n-th payload sent, for any non-empty fragments |
| Framing.DeliveredExactly | rats-rs/src/transport/spdm/io/framed_stream.rs:71-86 | a framed payload is returned if and only if it is no longer than the receiver's capacity and its length fits 32 bits |
| Framing.BufferFullIffStuck | rats-rs/src/transport/spdm/io/framed_stream.rs:82-86 | giving up on a full buffer leaves a reader whose header announces more than the capacity; such a reader gives up at once, reads nothing and changes nothing |
| Framing.StuckForever | rats-rs/src/transport/spdm/io/framed_stream.rs:129-132 | from then on every call fails and the state stays as it is |
| Framing.OversizeExactly | rats-rs/src/transport/spdm/io/framed_stream.rs:71-86 | on a stream that does not fail and holds a buffer's worth, the call gives up if and only if the pending header announces more than the capacity |
| Framing.OversizeRun | rats-rs/src/transport/spdm/io/framed_stream.rs:67-132 | whatever fails in between, enough calls return the reference split and end holding the head of what it leaves; the reader ends stuck if and only if that remainder fills the buffer and announces more than the capacity |
| FramedStreams.FramedStream.constructor | rats-rs/src/transport/spdm/io/framed_stream.rs:48-53 | a new stream has an empty buffer with room for a header and a full payload |
| FramedStreams.FramedStream.AwaitFrame | rats-rs/src/transport/spdm/io/framed_stream.rs:67-108 | the in-place read loop terminates and ends in the state and with the bytes that the function on values gives |
| FramedStreams.FramedStream.Receive | rats-rs/src/transport/spdm/io/framed_stream.rs:62-133 | the caller's buffer gets the payload and nothing beyond it changes, the rest is shifted down, a failed call leaves the caller's buffer alone, and conservation of consumed bytes is kept |
| FramedStreams.FramedStream.Send | rats-rs/src/transport/spdm/io/framed_stream.rs:135-157 | fails exactly when the socket does; success appends exactly one frame to the wire, failure a prefix of it; the read side is not touched |
| FramedStreams.ByteStream.Read | rats-rs/src/transport/spdm/io/framed_stream.rs:90-97 | a read puts what arrived behind the bytes already there, leaves the others alone, and keeps what did not fit for later |
| Buffers.ShiftDown | rats-rs/src/transport/spdm/io/framed_stream.rs:125-127 | the leftover stretch is moved to the front of the buffer intact, though source and target overlap |
| TransportEncap.DecapExact | rats-rs/src/transport/spdm/transport.rs:89-125 | `decap` accepts exactly the byte 0 or 1 with a payload that the buffer holds, and gives back payload and flag |
| TransportEncap.DecapAppExact | rats-rs/src/transport/spdm/transport.rs:160-190 | `decap_app` accepts exactly the byte 0 or 2 with a payload that the buffer holds |
| TransportEncap.LayersDisjoint | rats-rs/src/transport/spdm/transport.rs:97-114 | the only packets both readers accept are plain SPDM ones |
| TransportEncap.Encap | rats-rs/src/transport/spdm/transport.rs:58-84 | the buffer after success and after failure: the type byte is written before the room is checked, and bytes beyond the packet stay |
| TransportEncap.EncapApp | rats-rs/src/transport/spdm/transport.rs:127-155 | the same for the application layer |
| TransportEncap.Decap | rats-rs/src/transport/spdm/transport.rs:89-125 | the payload at the front of the caller's buffer, the rest of the buffer untouched; a refused packet changes nothing |
| TransportEncap.DecapApp | rats-rs/src/transport/spdm/transport.rs:160-190 | the same for the application layer |
| SecureHalf.UnprotectedExact | docs/architecture-of-the-project.md:198-237 | exactly the documented nestings are legal: byte 1 and a ciphertext that opens to byte 2 or 0 and the message, of sizes the buffers hold |
| SecureHalf.OutgoingExact | rats-rs/src/transport/spdm/half.rs:44-66 | a message goes out exactly within the negotiated limit and the buffers, and as byte 1 and the sealed byte 2 and message |
| SecureHalf.HalfReceiveExact | rats-rs/src/transport/spdm/half.rs:98-139 | a receive returns a message exactly when a frame arrives whole and nests it as an application message |
| SecureHalf.UnprotectProtect | rats-rs/src/transport/spdm/half.rs:117-130 | the reader with the same message number gets the message the writer sealed |
| SecureHalf.SpdmContext.EncodeSecuredMessage | rats-rs/src/transport/spdm/half.rs:56-66 | the transport buffer holds the protected message exactly when it fits, and a message number is used exactly when the message got as far as being sealed |
| SecureHalf.SpdmContext.DecodeSecuredMessage | rats-rs/src/transport/spdm/half.rs:117-129 | the caller's buffer holds the plaintext of a legal packet and is untouched by any other |
| SecureHalf.WriteHalf.Send | rats-rs/src/transport/spdm/half.rs:33-77 | succeeds exactly when the message is within the limits and the socket does not fail; then one frame with the nested, sealed message is on the wire, otherwise none, or a prefix if the socket failed; which of these use a message number |
| SecureHalf.ReadHalf.Receive | rats-rs/src/transport/spdm/half.rs:98-139 | framing, opening and the application check put together, on the very stream object it was given |
| SecureHalf.HalfFifo | rats-rs/src/transport/spdm/half.rs:98-139 | the n-th call returns the n-th message the peer sealed, for any non-empty fragments, and leaves the frames of the later ones on the stream |
| SecureHalf.HalfRunTakesFrames | rats-rs/src/transport/spdm/half.rs:98-116 | a run of the half takes exactly the frames off the stream that as many bare receive calls take, whether the packets open or not |
| Tunnel.PulledExact | examples/spdm/src/tunnel/mod.rs:33-37 | the chunks of at most 1024 bytes that reads give are the bytes of the plain socket in order, and all of them up to its end if no read fails |
| Tunnel.ForwardIntoTunnel | examples/spdm/src/tunnel/mod.rs:30-46 | the loop forwards every chunk of the plain socket up to its end, where it shuts down the write side, or to its first failed read, unless a send fails, and a send fails only at a limit or when the secure socket does; what is on the wire in each ending, down to the part of the last frame |
| Tunnel.ForwardOutOfTunnel | examples/spdm/src/tunnel/mod.rs:89-103 | what is written is what the receiving loop on values gives, or a prefix exactly when the plain socket failed |
| Tunnel.PumpSafe | examples/spdm/src/tunnel/mod.rs:89-103 | for any fragmentation and any failures, the output is a prefix of the chunks sent, and the zero-length branch is never taken |
| Tunnel.PumpComplete | examples/spdm/src/tunnel/mod.rs:89-103 | when every frame arrives, in any fragments, the output is all of the chunks |
| TunnelRuns.StepKeepsInv | examples/spdm/src/tunnel/mod.rs:80-128 | every step of either loop or the network keeps the invariant that ties both ends' bytes to the chunks |
| TunnelRuns.TunnelSafe | examples/spdm/src/tunnel/mod.rs:17-78 | at every moment of every interleaving, the bytes written at the far end are a prefix of the bytes read at the near end |
| TunnelRuns.TunnelComplete | examples/spdm/src/tunnel/mod.rs:17-78 | they are equal once everything on the wire is taken and no send has failed |
| TunnelRuns.FarNeverStuck | examples/spdm/src/tunnel/mod.rs:92-101 | until then the far loop can always read or forward, if its buffer is no smaller than the sender's |
| TunnelRuns.SendingLoopIsARun | examples/spdm/src/tunnel/mod.rs:33-44 | all that the sending loop guarantees, however it ends, is a run of the transition system, with its last step the failure or the end of the input |
| TunnelRuns.ReceivingLoopIsARun | examples/spdm/src/tunnel/mod.rs:92-101 | all that the receiving loop guarantees, however it ends, a write that fails part-way included, is what a run of the transition system writes |
| TunnelRuns.RunNearEnd | examples/spdm/src/tunnel/mod.rs:30-46 | the sending loop itself, from a fresh session, leaves what it read and wrote as the near end of a reachable state, and has read the whole plain socket if no read or send failed |
| TunnelRuns.RunFarEnd | examples/spdm/src/tunnel/mod.rs:89-103 | the receiving loop itself, from the far end of any reachable state, ends in another, so that all it ever wrote is a prefix of what the near end read; it never closes the plain socket in order |
| Session.LeadingIdExact | rats-rs/src/transport/spdm/responder.rs:269-279 | the session id is the first four bytes of the packet, little-endian; shorter packets have none |
| Session.NegotiationExact | rats-rs/src/transport/spdm/responder.rs:253-308 | every result of a negotiation, if and only if: the first message that does not leave it waiting has an established session of its table in front, or is too short, or failed; or all messages leave it waiting |
| Session.SessionOnlyByNegotiation | rats-rs/src/transport/spdm/responder.rs:253-308 | after any negotiations the session id is the one of the last that agreed, and there is none if none agreed |
| Session.SplitFresh | rats-rs/src/transport/spdm/responder.rs:223-248 | a fresh responder, after any negotiations, can be split if and only if one of them was the last to agree on an id |
| Session.Responder.Negotiate | rats-rs/src/transport/spdm/responder.rs:253-308 | the loop's result and the stored id; a failed negotiation leaves the id alone |
| Session.Responder.IntoSplit | rats-rs/src/transport/spdm/responder.rs:223-248 | succeeds exactly with a session id; the read half gets the same stream object with its buffer, the write half an empty one over the same socket |
| Session.UseHalves | rats-rs/src/transport/spdm/half.rs:33-139 | in any interleaving of sends and receives the messages returned are those of the receives alone, and the bytes written are the sends' frames in order, whole, or in part where the socket failed |
| Session.UseAfterSplit | rats-rs/src/transport/spdm/responder.rs:229-247 | after any number of packets taken before the split, the read half goes on with the buffer and stream they left, through any interleaving with sends; the split fails exactly without a session id |
| Session.HandoverFifo | rats-rs/src/transport/spdm/responder.rs:229-234 | a reader split off after any of the peer's packets, even when it had read part of the next one, returns the peer's messages one by one from there |
| Cbor.HeadRoundTrip | rats-rs/src/cert/dice/cbor.rs:135-137 | heads of all five widths read back |
| Cbor.HeadAnyWidth | rats-rs/src/cert/dice/cbor.rs:145-149 | arguments spelled in more bytes than they need are read too |
| Cbor.HeadShortest | rats-rs/src/cert/dice/cbor.rs:220-223 | no head the decoder accepts says the same in fewer bytes |
| Cbor.RoundTrip | rats-rs/src/cert/dice/cbor.rs:125-149 | every encodable item, however nested, reads back and what follows is left alone |
| Cbor.PrefixFree | rats-rs/src/cert/dice/cbor.rs:125-149 | items are told apart by their encodings and no encoding starts another |
| Cbor.DecodeSound | rats-rs/src/cert/dice/cbor.rs:140-149 | whatever is read is an item the program can hold, with valid text, from a string of bytes no shorter than its encoding, and the rest is the end of the input |
| Cbor.Utf8Exact | rats-rs/src/tee/claims.rs:3 | the text accepted is exactly the UTF-8 encodings of strings of Unicode characters |
| Cbor.StandardVectors | rats-rs/src/cert/dice/cbor.rs:125-138 | examples of RFC 8949 at every width |
| DiceCbor.EvidenceExact | rats-rs/src/cert/dice/cbor.rs:82-123 | of all encoded items exactly the tagged pairs of byte strings are evidence |
| DiceCbor.EvidenceRoundTrip | rats-rs/src/cert/dice/cbor.rs:125-149 | tag and both parts read back, for every 64-bit tag |
| DiceCbor.EvidenceVector | rats-rs/src/cert/dice/cbor.rs:205-223 | the documented encoding of an evidence buffer |
| DiceCbor.ClaimsRoundTrip | rats-rs/src/cert/dice/cbor.rs:154-177 | every ordered map of text to bytes reads back, in order, at every head width |
| DiceCbor.ClaimsInjective | rats-rs/src/cert/dice/cbor.rs:168-172 | different maps, or one map in two orders, have different buffers |
| DiceCbor.ByteVectorExact | rats-rs/src/cert/dice/cbor.rs:153-154 | what is read into a vector of bytes is a byte string or an array of numbers below 256 |
| DiceCbor.ClaimsAcceptedExactly | rats-rs/src/cert/dice/cbor.rs:174-177 | of all encoded items exactly the maps from text to byte vectors, in either form, are claims, and distinct ones are read in order |
| DiceCbor.ParsedClaimsDistinct | rats-rs/src/cert/dice/cbor.rs:174-177 | whatever buffer is read, the claims have distinct names |
| DiceCbor.ClaimsVector | rats-rs/src/cert/dice/cbor.rs:233-244 | the documented encoding of a claims buffer |
| DiceCbor.PubkeyHashExact | rats-rs/src/cert/dice/cbor.rs:191-197 | of all encoded items exactly the pairs of a supported algorithm's number and a byte vector, in either form, are key hashes |
| DiceCbor.PubkeyHashRoundTrip | rats-rs/src/cert/dice/cbor.rs:179-197 | algorithm and hash read back |
| DiceCbor.PubkeyHashVector | rats-rs/src/cert/dice/cbor.rs:252-261 | the documented encoding of a key-hash buffer, and the layout under each of the three algorithm numbers |
| DiceCbor.UnsupportedAlgo | rats-rs/src/cert/dice/cbor.rs:28-41 | exactly the numbers other than 1, 7 and 8 are refused as unsupported |
| Claims.LookupInsert | rats-rs/src/tee/claims.rs:3 | an insert changes the value under its own name only |
| Claims.InsertKnown | rats-rs/src/tee/claims.rs:3 | inserting under a known name keeps every name in its place |
| Claims.MergeLookup | rats-rs/src/cert/verify.rs:134-143 | a merged map answers with the built-in claim where there is one and with the custom one elsewhere |
| Claims.MergeDistinct | rats-rs/src/cert/verify.rs:134-143 | the built-in claims stay in front, unchanged, and names stay distinct |
| Claims.ClaimsMap.Put | rats-rs/src/cert/create.rs:113 | the in-place insert is the ordered map's |
| Claims.ClaimsMap.MergeFrom | rats-rs/src/cert/verify.rs:136-143 | the item-by-item merge in place is the merge on values |
| Certificates.BuildCertificate | rats-rs/src/cert/create.rs:100-137 | the builder's steps on its own copy of the claims give the certificate of the function on values |
| Certificates.VerifyCertificate | rats-rs/src/cert/verify.rs:72-146 | the verifier's steps, with the built-in map updated in place, give the result of the function on values, errors included |
| CertificateProofs.CertificateComplete | rats-rs/src/cert/create.rs:100-137 | a certificate is built exactly when the TEE quotes the digest of its claims, and then verifies to the built-in claims merged with the custom ones and the key hash |
| CertificateProofs.BuiltShape | rats-rs/src/cert/dice/mod.rs:68-128 | names, key, extensions in order and signature algorithm of a built certificate, for every kind of key |
| CertificateProofs.VerifiedClaims | rats-rs/src/cert/verify.rs:134-145 | name by name what a verifier finds in a built certificate, with the built-in claims first |
| CertificateProofs.PubkeyHashSurvives | rats-rs/src/cert/create.rs:104-113 | `pubkey-hash` is found in the verified claims, whatever the caller's, and reads as the algorithm and the hash of the builder's key |
| CertificateProofs.PolicyOnAny | rats-rs/src/cert/verify.rs:41-69 | on any certificate a policy passes exactly when the certificate is accepted and each claim of the policy is among its claims |
| CertificateProofs.BuiltCertificateExtracts | rats-rs/src/cert/dice/mod.rs:68-103 | the evidence extension of a built certificate is found behind the standard ones and reads back as the evidence and the claims buffer |
| CertificateProofs.PolicyExact | rats-rs/src/cert/verify.rs:41-69 | a `Contains` policy passes on a built certificate exactly when each of its claims is the expected one |
| CertificateProofs.OwnClaimsPolicy | rats-rs/src/cert/verify.rs:314-340 | the caller's own claims as the policy fail exactly when one of them differs from a built-in claim or the key hash under its name |
| CertificateProofs.BuiltinNeverOverridden | rats-rs/src/cert/verify.rs:134-143 | in any accepted certificate, whoever made it, the built-in claims are those of its quote |
| CertificateProofs.AcceptedExactly | rats-rs/src/cert/verify.rs:72-146 | a certificate is accepted with certain claims if and only if it names itself as issuer, its signature verifies under its own key with a known algorithm, and its first evidence extension carries a trusted quote of the zero-padded SHA-256 digest of a claims buffer, in which `pubkey-hash` names the hash of its key, and the claims are the quote's merged with those in the buffer |
| CertificateProofs.FirstExtensionExact | rats-rs/src/cert/verify.rs:202-215 | the extension found is the one at the least index with the identifier |
| CertificateProofs.RefusedExactly | rats-rs/src/cert/verify.rs:72-107 | the first of these to fail decides the error: signature, extension, trust in the quote, report data |
| CertificateProofs.KeyRefusedExactly | rats-rs/src/cert/verify.rs:111-132 | behind a good quote the key hash is refused exactly when it is missing or that of another key |
| CertificateProofs.QuoteBindsKeyAndClaims | rats-rs/src/cert/verify.rs:101-132 | in two accepted certificates around one quote the claims buffers have one SHA-256 digest; if they are one buffer, the certificates verify to the same claims and their keys have one digest under the algorithm named in it |
| CertificateProofs.BuiltAttested | rats-rs/src/cert/create.rs:100-137 | a built certificate is attested by the TEE's quote, the builder's claims and the builder's hash algorithm |
| CertificateProofs.QuoteNotReusable | rats-rs/src/cert/verify.rs:101-132 | any accepted certificate around the quote of a built one has a claims buffer with the digest of the builder's; with the builder's buffer it has the builder's claims and a key with the digest of the builder's key |
| Quotes.SgxExact | rats-rs/src/tee/sgx_dcap/evidence.rs:26-81 | the SGX validator accepts exactly the serialized SGX layouts |
| Quotes.TdxExact | rats-rs/src/tee/tdx/evidence.rs:39-164 | the TDX validator accepts exactly the serialized layouts of its three variants; that no read goes past the end is checked where the reads stand |
| Quotes.ReaderAgrees | rats-rs/src/tee/tdx/evidence.rs:166-198 | on every accepted layout `as_quote` gives the variant and the body it was serialized from |
| Quotes.ReaderSucceeds | rats-rs/src/tee/tdx/evidence.rs:166-211 | `as_quote` never fails on an accepted quote, and the body it views has its full size inside the data |
| Quotes.DispatchExact | rats-rs/src/tee/mod.rs:76-95 | the order of the tries does not matter; evidence is made exactly for the quote tag and bytes one validator accepts, under that validator's TEE type |
| Quotes.KindsDisjoint | rats-rs/src/tee/sgx_dcap/evidence.rs:38-40 | no bytes are both an SGX and a TDX quote |
| Quotes.PaddedExact | rats-rs/src/tee/sgx_dcap/attester.rs:38-39 | padding forgets exactly trailing zeros, so it is injective on strings of one length |
| QuoteClaims.FieldsInside | rats-rs/src/tee/tdx/claims.rs:58-115 | every field a claim is read from lies inside the report body and before the report data |
| QuoteClaims.TdxClaimsTileTheBody | rats-rs/src/tee/tdx/claims.rs:58-187 | the TDX claims, put together with the report data, are the report body byte for byte |
| ReportBodies.SgxClaims | rats-rs/src/tee/sgx_dcap/claims.rs:29-106 | name by name, the claims of an SGX quote are the fields of its report body, the whole quote, rebuilt through the embedded signature length, and the type `sgx_dcap` |
| ReportBodies.TdxClaims | rats-rs/src/tee/tdx/claims.rs:58-219 | the same for the three kinds of TDX quote, with the two fields of TDX 1.5 and the type `tdx` |
| ReportBodies.SgxEvidenceParts | rats-rs/src/tee/sgx_dcap/evidence.rs:26-81 | every accepted SGX quote is a layout around such a report body |
| ReportBodies.TdxEvidenceParts | rats-rs/src/tee/tdx/evidence.rs:39-164 | every accepted TDX quote is a layout around such a report body |
| QuoteClaims.BuiltinDistinct | rats-rs/src/tee/tdx/claims.rs:10-40 | the built-in names are distinct and none is the name of the key hash, so no insert replaces another |
| QuoteClaims.AppendClaims | rats-rs/src/tee/tdx/claims.rs:58-115 | the in-place inserts append the field claims in order |
| QuoteClaims.GenClaims | rats-rs/src/tee/tdx/claims.rs:191-219 | the claims map built in place is the list of built-in claims |
| Measurements.BlockRoundTrip | rats-rs/src/transport/spdm/secret/measurement.rs:50-60 | a block reads back and what follows it is left alone |
| Measurements.CollectBlocks | rats-rs/src/transport/spdm/requester.rs:306-314 | the requester's loop finds all the blocks of a record |
| Measurements.Provider.WriteBlockData | rats-rs/src/transport/spdm/secret/measurement.rs:98-120 | the record holds the encoded block and zeros behind it, or is refused for its size |
| Measurements.RecordFidelity | rats-rs/src/transport/spdm/secret/measurement.rs:124-166 | what is served for every specification, index and algorithm: nothing, a count of one, or the block byte for byte when what is measured fits, which the requester reads back with its index, size and kind |
| Measurements.MeasurementFidelity | rats-rs/src/transport/spdm/secret/measurement.rs:33-197 | for every evidence and algorithm the record is the block of the claims or of their digest, byte for byte; a raw one reads back as the claims; the summary hash is the hash of that record |

## Left out

- Quotes.DispatchExact: covers `create_evidence_from_dice`; the downcasts in the verifier are replaced by the TEE type stored beside the bytes.
- CertificateProofs.CertificateComplete: assumes that the claims buffer and the quote are shorter than 2^64 bytes.
- Measurements.MeasurementFidelity: a value over the library's limit, where the program stops, is a refused record here.
- TunnelRuns.TunnelSafe: one direction of one connection; the two directions share no state but the session's two counters.
- Calls on the two halves that overlap in time: `Session.UseHalves` interleaves whole calls.
- `shutdown` of a half, thread creation, locks and the async variants.
- Error messages; error kinds are kept only where a caller can tell them apart in one call.
- The SPDM handshake, `SpdmRequester::negotiate` up to the measurements, capability tables and builders' setters.
- `EmptyMeasurementProvider` and the endorsement extension's content, which nothing reads.
- DER, PEM, PKCS#8 and key generation: a certificate is a record, parsed already.
- DiceCbor.ClaimsAcceptedExactly: speaks of the data items modelled; the CBOR library may read further forms, such as tags in front of an item, big numbers for small ones or elements after the second of a pair.
- DiceCbor.PubkeyHashExact: likewise.
- CBOR of major type 7 and of indefinite length, and bytes after the first item.
- Intel's quote verification and the generation of quotes.
- The OpenSSL and rustls transports and the openssl hook.
