# Sigstore bundle content: signature and verification content

A Dafny model of the two families of content in a sigstore bundle (`pkg/bundle`),
each of which decides one half of bundle verification:

- **Signature content** says what was signed. It is either a `MessageSignature`
  (a digest, its algorithm name and a signature) or an `Envelope`, a DSSE envelope
  whose base64 payload is the signed file itself. It answers the integrity question
  (`EnsureFileMatchesDigest`). It also yields the raw signature and the in-toto
  statement, and a pair of views tells the two shapes apart.
- **Verification content** says who signed. It is either a `CertificateChain` (the
  signer's short-lived leaf first) or a `PublicKey` hint that the trusted material
  resolves. It answers the trust question (`Verify`). For a chain this means:
  1. check the signature against the leaf's key;
  2. try the trusted Fulcio certificate authorities in list order, skipping any
     whose validity window does not hold the leaf's whole validity;
  3. for each remaining authority, build a path evaluated at the leaf's `notBefore`
     rather than at the current time, so the bundle stays verifiable after the
     leaf expires. The first authority with a path wins.

Every input is an immutable value; only the certificate pools that `Verify` builds
are mutable. The cryptographic and parsing collaborators are
total functions that the model leaves uninterpreted:
- `Crypto.loadVerifier` (signature.LoadVerifier with SHA-256);
- `Crypto.checkSignature` (the content's CheckSignature);
- `Crypto.buildPath` (x509 `Certificate.Verify`);
- the `sha256` and `unmarshal` parameters;
- `TrustedMaterial.publicKeyVerifier`.

Times are integers, with 0 standing for Go's zero `time.Time`, that is, an unset
authority bound. Go strings are Dafny strings, and `string(bytes)` maps each byte
to the character with the same code.

Files:
- `wrappers.dfy`: Option, Result and Outcome.
- `bundle_types.dfy`: the data model, plus `CertPool`, the pool that Verify fills
  in place.
- `base64.dfy`: standard padded base64 (section 4 of RFC 4648), with Go's decoding
  rules and the round-trip and injectivity proofs.
- `signature_content.dfy`: the `MessageSignatureContent` and `EnvelopeContent`
  modules.
- `verification_content.dfy`: the `CertificateChainContent` and `PublicKeyContent`
  modules.

The bundle's own intermediates, the certificates after the leaf, are never given
to the path builder. Only the authority's intermediates go into the intermediate
pool (pkg/bundle/verification_content.go:68-71). `BundleIntermediatesIgnored`
states the consequence.

## Model

| member | source | states |
|---|---|---|
| `CertificateChainContent.CompareKey` | pkg/bundle/verification_content.go:32-39 | true exactly when the candidate is a certificate whose encoding equals the leaf's; every other kind of key gives false |
| `CertificateChainContent.ValidAtTime` | pkg/bundle/verification_content.go:41-43 | true exactly when `notBefore <= t <= notAfter` of the leaf, both ends included |
| `CertificateChainContent.FirstTrustedAuthority` | pkg/bundle/verification_content.go:58-89 | the first authority in list order that passes the window check and has a path, with no earlier one doing both; None when no authority does |
| `CertificateChainContent.Verify` | pkg/bundle/verification_content.go:45-92 | the loop returns the specified verdict; it succeeds exactly when it stops at an authority, and that authority is the first trusting one in list order |
| `CertificateChainContent.VerifyOutcome` | pkg/bundle/verification_content.go:45-92 | the verdict as a function: the key-load error, else the signature error, else success exactly when `FirstTrustedAuthority` finds an authority; its properties are the lemmas below, and `Verify` is proved equal to it |
| `CertificateChainContent.VerifySucceedsIff` | pkg/bundle/verification_content.go:45-92 | success iff the key loads, the signature checks, and some authority passes both the window check and the path build |
| `CertificateChainContent.SignatureCheckedBeforeAuthorities` | pkg/bundle/verification_content.go:46-54 | a key-load or signature failure is returned whatever the authorities and path builder, and it is never the chain-failure error |
| `CertificateChainContent.NoAuthorityNoTrust` | pkg/bundle/verification_content.go:58-91 | with an empty authority list, a correctly signed chain fails with "certificate verification failed" |
| `CertificateChainContent.WindowContainsLeafValidity` | pkg/bundle/verification_content.go:58-64 | an authority is tried iff its window (unset bounds open) holds every instant of the leaf's validity; partial overlap is skipped |
| `CertificateChainContent.FirstTrustedPinned` | pkg/bundle/verification_content.go:73-85 | the first trusting authority depends only on path builds at the leaf's notBefore with code signing |
| `CertificateChainContent.EvaluatedAtLeafNotBefore` | pkg/bundle/verification_content.go:73-85 | two path builders that agree at the leaf's notBefore with code signing give the same verdict, however they judge later instants such as after expiry |
| `CertificateChainContent.BundleIntermediatesIgnored` | pkg/bundle/verification_content.go:66-85 | the verdict is the same with the bundle's intermediates dropped: only the leaf and the authority's own certificates are used |
| `CertificateChainContent.GetIssuer` | pkg/bundle/verification_content.go:94-101 | the value of the first leaf extension with OID 1.3.6.1.4.1.57264.1.1, as text; empty when none has it |
| `CertificateChainContent.GetSAN` | pkg/bundle/verification_content.go:103-109 | the leaf's first URI SAN, or empty when it has none |
| `PublicKeyContent.CompareKey` | pkg/bundle/verification_content.go:111-124 | true exactly when the hint resolves, its key is available, the candidate supports key equality, and the keys are equal |
| `PublicKeyContent.ValidAtTime` | pkg/bundle/verification_content.go:126-132 | false when the hint does not resolve, otherwise the resolved key's own validity at `t` |
| `PublicKeyContent.Verify` | pkg/bundle/verification_content.go:134-146 | the resolver's error unchanged, else the signature check's error unchanged, else success |
| `PublicKeyContent.GetIssuer` | pkg/bundle/verification_content.go:148-150 | always empty |
| `PublicKeyContent.GetSAN` | pkg/bundle/verification_content.go:152-154 | always empty |
| `PublicKeyContent.UnresolvedHintFailsClosed` | pkg/bundle/verification_content.go:111-146 | an unresolvable hint makes CompareKey and ValidAtTime false and Verify fail |
| `PublicKeyContent.KeyVerifyIgnoresAuthorities` | pkg/bundle/verification_content.go:134-146 | a registered key's verdict depends on neither the authorities nor the path builder |
| `MessageSignatureContent.GetDigest` | pkg/bundle/signature_content.go:21-23 | the stored digest, unchanged |
| `MessageSignatureContent.GetDigestAlgorithm` | pkg/bundle/signature_content.go:25-27 | the stored algorithm name, unchanged |
| `MessageSignatureContent.GetSignature` | pkg/bundle/signature_content.go:89-91 | the stored signature, unchanged |
| `MessageSignatureContent.HasEnvelope` | pkg/bundle/signature_content.go:58-60 | a message signature has no envelope view |
| `MessageSignatureContent.HasMessage` | pkg/bundle/signature_content.go:66-68 | a message signature is its own message view |
| `MessageSignatureContent.EnsureFileMatchesDigest` | pkg/bundle/signature_content.go:70-80 | any algorithm other than "SHA2_256" fails with the unsupported-algorithm error; with it, success iff the digest equals SHA-256 of the file byte for byte |
| `MessageSignatureContent.UnsupportedAlgorithmRejectsEveryFile` | pkg/bundle/signature_content.go:70-73 | an unsupported algorithm rejects every file, whatever the digest |
| `MessageSignatureContent.MalformedDigestRejectsEveryFile` | pkg/bundle/signature_content.go:75-79 | a stored digest that is not 32 bytes matches no file |
| `MessageSignatureContent.SignedDigestAcceptsFile` | pkg/bundle/signature_content.go:70-80 | a SHA2_256 message signature over SHA-256 of a file accepts that file |
| `EnvelopeContent.DecodeB64Payload` | pkg/bundle/signature_content.go:39 | the payload decoded as standard base64, None when malformed; `GetStatement` states how it decides the result |
| `EnvelopeContent.GetStatement` | pkg/bundle/signature_content.go:33-48 | wrong media type iff ErrIncorrectMediaType; else bad base64 iff ErrDecodingB64; else bad JSON iff ErrDecodingJSON; success carries the parsed statement |
| `EnvelopeContent.GetStatementOfEncodedPayload` | pkg/bundle/signature_content.go:33-48 | an in-toto envelope whose payload encodes a statement's bytes yields that statement |
| `EnvelopeContent.HasEnvelope` | pkg/bundle/signature_content.go:50-52 | an envelope is its own envelope view |
| `EnvelopeContent.GetRawEnvelope` | pkg/bundle/signature_content.go:54-56 | the wrapped DSSE envelope; wrapping it again gives the same envelope |
| `EnvelopeContent.HasMessage` | pkg/bundle/signature_content.go:62-64 | an envelope has no message view |
| `EnvelopeContent.ExactlyOneView` | pkg/bundle/signature_content.go:50-68 | each shape of signature content has exactly one of the two views |
| `EnvelopeContent.EnsureFileMatchesDigest` | pkg/bundle/signature_content.go:82-87 | success iff the payload equals the padded standard base64 encoding of the file |
| `EnvelopeContent.AcceptsExactlyEncodedFile` | pkg/bundle/signature_content.go:82-87 | an envelope whose payload encodes `f` accepts `f` and no other file |
| `EnvelopeContent.GetSignature` | pkg/bundle/signature_content.go:93-104 | empty with no signatures or a malformed first `sig`, otherwise the decoding of the first `sig` |
| `EnvelopeContent.GetSignatureDecodesFirst` | pkg/bundle/signature_content.go:93-104 | a first signature stored as the encoding of `s` reads back as `s`, whatever follows |
| `Base64.Encode` | pkg/bundle/signature_content.go:83 | `EncodeToString` of the standard encoding; the lemmas below state its length, alphabet, known answers and inverse |
| `Base64.EncodeTestVectors` | pkg/bundle/signature_content.go:83 | the known answers of section 10 of RFC 4648 ("", "Zg==", "Zm8=", "Zm9v", "Zm9vYg==", "Zm9vYmFy") and "+/8=" for the last two alphabet characters |
| `Base64.EncodeLength` | pkg/bundle/signature_content.go:83 | the encoding has 4 characters per started 3-byte group |
| `Base64.EncodeAlphabet` | pkg/bundle/signature_content.go:83 | every character of the encoding is from the standard alphabet or is the pad |
| `Base64.Decode` | pkg/bundle/signature_content.go:98 | `DecodeString` of the standard encoding, None for Go's corrupt-input error; the lemmas below state its rules |
| `Base64.DecodeTestVector` | pkg/bundle/signature_content.go:98 | "Zm9v" decodes to "foo" |
| `Base64.DecodeSkipsLineBreak` | pkg/bundle/signature_content.go:98 | inserting a carriage return or line feed anywhere does not change the decoding |
| `Base64.DecodeRejectsMissingPad` | pkg/bundle/signature_content.go:98 | an unpadded final quantum is malformed |
| `Base64.DecodeRejectsInnerPad` | pkg/bundle/signature_content.go:98 | padding before the last quantum is malformed |
| `Base64.DecodeRejectsOtherAlphabet` | pkg/bundle/signature_content.go:98 | a URL-safe character such as '-' is malformed |
| `Base64.DecodeIgnoresUnusedBits` | pkg/bundle/signature_content.go:98 | the unused low bits of a padded quantum are ignored: "Zh==" and "Zg==" both decode to "f" |
| `Base64.DecodeEncode` | pkg/bundle/signature_content.go:98 | decoding the encoding of any bytes gives those bytes back |
| `Base64.EncodeInjective` | pkg/bundle/signature_content.go:83 | distinct byte strings have distinct encodings |
| `BundleTypes.CertPool.AddCert` | pkg/bundle/verification_content.go:66-71 | the pool afterwards holds what it held plus the added certificate |

## Left out

- Signature math (`signature.LoadVerifier`, `CheckSignature`), X.509 path building, SHA-256 and `json.Unmarshal` are uninterpreted functions. Nothing about their internals is proved, and no collision resistance is assumed for SHA-256.
- `DecodeB64Payload` belongs to the DSSE library, which is not part of this model. It is modelled as standard base64 decoding. The library retries with URL-safe base64 when standard decoding fails, so for a payload that uses `-` or `_`, `EnvelopeContent.GetStatement` returns `ErrDecodingB64` in the model while the program decodes it.
- `IntotoMediaType` and the three statement errors are defined in another file of the package, which is not part of this model. The media type is taken to be "application/vnd.in-toto+json".
- The in-toto statement schema: `GetStatement` is generic in the statement type.
- `url.URL.String()`: URI SANs are stored already rendered as text.
- Certificate equality compares the raw encodings; public-key `Equal` is value equality of the modelled key.
- Certificate pools deduplicate by certificate value rather than by a hash of the raw bytes.
- Nil receivers and nil certificates are not modelled. `Certificates[0]` must exist: every chain operation requires a non-empty chain.
- Go `time.Time` precision and the monotonic clock are not modelled: instants are integers, and a bound at instant 0 is read as unset.
- x509 path building uses the wall clock when the requested time is the zero time. A leaf whose `notBefore` is instant 0 is therefore evaluated at the current time in the program; in the model the path builder receives 0 like any other instant.
- The concrete text of the errors that `fmt.Errorf` wraps: `InvalidKey` and `Propagated` carry the cause unchanged.
