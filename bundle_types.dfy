/**
 * The values that bundle verification works on: certificates and certificate
 * authorities, the two shapes of signature content, trusted material, and the
 * cryptographic collaborators that the core calls but does not implement.
 * Every entity is an immutable value; collaborators are total functions that
 * the model leaves uninterpreted.
 */
module BundleTypes {
  import opened Wrappers

  newtype byte = x: int | 0 <= x < 256

  /** Go's `string(b)`: each byte becomes the character with the same code. */
  function BytesToString(b: seq<byte>): (s: string)
    ensures |s| == |b|
    ensures forall i | 0 <= i < |b| :: s[i] as int == b[i] as int
  {
    seq(|b|, i requires 0 <= i < |b| => b[i] as int as char)
  }

  // ---------------------------------------------------------------- X.509

  /** A certificate extension: its object identifier and raw value. */
  datatype Extension = Extension(id: seq<int>, value: seq<byte>)

  /** A public key, as an opaque algorithm name and encoding. */
  datatype PublicKeyValue = PublicKeyValue(algorithm: string, encoded: seq<byte>)

  /**
   * The parts of an X.509 certificate the core reads. Times are instants as
   * integers; `uris` are the URI subject alternative names already rendered
   * as text.
   */
  datatype Certificate = Certificate(
    raw: seq<byte>,
    notBefore: int,
    notAfter: int,
    publicKey: PublicKeyValue,
    extensions: seq<Extension>,
    uris: seq<string>)

  /** Go's zero `time.Time`: a validity bound that is not set. */
  const ZeroTime: int := 0

  /** A trusted Fulcio certificate authority with an optional validity window. */
  datatype CertificateAuthority = CertificateAuthority(
    root: Certificate,
    intermediates: seq<Certificate>,
    validityPeriodStart: int,
    validityPeriodEnd: int)

  datatype ExtKeyUsage = ExtKeyUsageCodeSigning | ExtKeyUsageOther(code: int)

  /**
   * One call of the X.509 path builder: the leaf, the root and intermediate
   * pools, the instant at which validity is evaluated and the required
   * extended key usages.
   */
  datatype PathRequest = PathRequest(
    leaf: Certificate,
    roots: set<Certificate>,
    intermediates: set<Certificate>,
    currentTime: int,
    keyUsages: seq<ExtKeyUsage>)

  /** A certificate pool that is filled in place, one certificate at a time. */
  class CertPool {
    var certs: set<Certificate>

    constructor ()
      ensures certs == {}
    {
      certs := {};
    }

    /** Adding a certificate the pool already holds leaves it unchanged. */
    method AddCert(c: Certificate)
      modifies this
      ensures certs == old(certs) + {c}
    {
      certs := certs + {c};
    }
  }

  // ------------------------------------------------------ signature content

  /** A detached signature over a message digest. */
  datatype MessageSignature = MessageSignature(
    digest: seq<byte>,
    digestAlgorithm: string,
    signature: seq<byte>)

  /** One signature of a DSSE envelope; `sig` is base64 text. */
  datatype DsseSignature = DsseSignature(keyId: string, sig: string)

  /** A DSSE envelope; `payload` is base64 text. */
  datatype DsseEnvelope = DsseEnvelope(
    payloadType: string,
    payload: string,
    signatures: seq<DsseSignature>)

  /** The bundle's envelope content: a wrapper around the DSSE envelope. */
  datatype Envelope = Envelope(raw: DsseEnvelope)

  /** What was signed: one of the two shapes. */
  datatype SignatureContent =
    | Message(message: MessageSignature)
    | Dsse(envelope: Envelope)

  // ------------------------------------------------- trust and collaborators

  /** A signature verifier: its public key (or the error fetching it) and its own validity policy. */
  datatype Verifier = Verifier(
    publicKey: Result<PublicKeyValue, string>,
    validAtTime: int -> bool)

  /** The trust store: Fulcio authorities in order, and the resolver of public-key hints. */
  datatype TrustedMaterial = TrustedMaterial(
    fulcioCertificateAuthorities: seq<CertificateAuthority>,
    publicKeyVerifier: string -> Result<Verifier, string>)

  /**
   * The cryptographic collaborators: loading a SHA-256 verifier for a key,
   * checking a signature content against a verifier, and building an X.509
   * path (true when a chain is found).
   */
  datatype Crypto = Crypto(
    loadVerifier: PublicKeyValue -> Result<Verifier, string>,
    checkSignature: (SignatureContent, Verifier) -> Outcome<string>,
    buildPath: PathRequest -> bool)

  /** The dynamic type of the `key` argument of CompareKey. */
  datatype CandidateKey =
    | CertificateKey(certificate: Certificate)  // *x509.Certificate
    | EqualableKey(key: PublicKeyValue)         // a key with Equal(crypto.PublicKey) bool
    | OtherKey                                  // anything else

  /** The errors Verify returns. */
  datatype VerifyError =
    | InvalidKey(cause: string)        // "invalid key: %w"
    | Propagated(cause: string)        // a collaborator's error, returned unchanged
    | CertificateVerificationFailed    // "certificate verification failed"
}
