/**
 * The message-signature variant of a bundle's signature content: a digest, the
 * name of the algorithm that produced it, and a signature over it.
 */
module MessageSignatureContent {
  import opened Wrappers
  import opened BundleTypes

  /** The only digest algorithm name the integrity check accepts. */
  const Sha2_256: string := "SHA2_256"

  const UnsupportedAlgorithmError: string := "Message has unsupported hash algorithm"
  const DigestMismatchError: string := "Message signature does not match supplied file"

  /** A SHA-256 digest is 32 bytes. */
  type Sha256Digest = d: seq<byte> | |d| == 32 witness seq(32, _ => 0)

  function GetDigest(m: MessageSignature): (d: seq<byte>)
    ensures d == m.digest
  {
    m.digest
  }

  function GetDigestAlgorithm(m: MessageSignature): (a: string)
    ensures a == m.digestAlgorithm
  {
    m.digestAlgorithm
  }

  function GetSignature(m: MessageSignature): (s: seq<byte>)
    ensures s == m.signature
  {
    m.signature
  }

  /** A message signature has no envelope view. */
  function HasEnvelope(m: MessageSignature): (view: Option<Envelope>)
    ensures view.None?
  {
    None
  }

  /** A message signature is its own message view. */
  function HasMessage(m: MessageSignature): (view: Option<MessageSignature>)
    ensures view == Some(m)
  {
    Some(m)
  }

  /**
   * Checks that the file is the one whose digest was signed. `sha256` is the
   * hash function, left uninterpreted.
   */
  function EnsureFileMatchesDigest(m: MessageSignature, fileBytes: seq<byte>, sha256: seq<byte> -> Sha256Digest): (r: Outcome<string>)
    ensures m.digestAlgorithm != Sha2_256 ==> r == Fail(UnsupportedAlgorithmError)
    ensures m.digestAlgorithm == Sha2_256 ==> (r.Pass? <==> m.digest == sha256(fileBytes))
    ensures m.digestAlgorithm == Sha2_256 && r.Fail? ==> r.error == DigestMismatchError
  {
    if m.digestAlgorithm != Sha2_256 then Fail(UnsupportedAlgorithmError)
    else
      var fileDigest := sha256(fileBytes);
      if m.digest != fileDigest then Fail(DigestMismatchError)
      else Pass
  }

  /** The algorithm check comes first: any other name rejects every file, whatever the digest. */
  lemma UnsupportedAlgorithmRejectsEveryFile(m: MessageSignature, sha256: seq<byte> -> Sha256Digest)
    requires m.digestAlgorithm != Sha2_256
    ensures forall f :: EnsureFileMatchesDigest(m, f, sha256) == Fail(UnsupportedAlgorithmError)
  {
  }

  /** A stored digest that is not 32 bytes long matches no file. */
  lemma MalformedDigestRejectsEveryFile(m: MessageSignature, sha256: seq<byte> -> Sha256Digest)
    requires |m.digest| != 32
    ensures forall f :: EnsureFileMatchesDigest(m, f, sha256).Fail?
  {
  }

  /** A message signature made over a file's SHA-256 digest accepts that file. */
  lemma SignedDigestAcceptsFile(f: seq<byte>, sig: seq<byte>, sha256: seq<byte> -> Sha256Digest)
    ensures EnsureFileMatchesDigest(MessageSignature(sha256(f), Sha2_256, sig), f, sha256) == Pass
  {
  }
}

/**
 * The envelope variant of a bundle's signature content: a DSSE envelope whose
 * payload is the whole signed file, base64-encoded.
 */
module EnvelopeContent {
  import opened Wrappers
  import opened BundleTypes
  import Base64
  import MessageSignatureContent

  /** The payload type of an in-toto statement. */
  const IntotoMediaType: string := "application/vnd.in-toto+json"

  const PayloadMismatchError: string := "Envelope payload does not match supplied file"

  datatype StatementError = ErrIncorrectMediaType | ErrDecodingB64 | ErrDecodingJSON

  /** The envelope's payload as bytes, or None when it is not valid base64. */
  function DecodeB64Payload(e: Envelope): Option<seq<byte>> {
    Base64.Decode(e.raw.payload)
  }

  /**
   * The in-toto statement carried by the envelope. `unmarshal` is the JSON
   * parser, left uninterpreted: None when the bytes are not a statement.
   * The media type is checked first, then base64, then JSON.
   */
  function GetStatement<S>(e: Envelope, unmarshal: seq<byte> -> Option<S>): (r: Result<S, StatementError>)
    ensures r == Failure(ErrIncorrectMediaType) <==> e.raw.payloadType != IntotoMediaType
    ensures r == Failure(ErrDecodingB64) <==> e.raw.payloadType == IntotoMediaType && DecodeB64Payload(e).None?
    ensures r == Failure(ErrDecodingJSON) <==>
      e.raw.payloadType == IntotoMediaType && DecodeB64Payload(e).Some? && unmarshal(DecodeB64Payload(e).value).None?
    ensures r.Success? ==> DecodeB64Payload(e).Some? && unmarshal(DecodeB64Payload(e).value) == Some(r.value)
  {
    if e.raw.payloadType != IntotoMediaType then Failure(ErrIncorrectMediaType)
    else
      match DecodeB64Payload(e)
      case None => Failure(ErrDecodingB64)
      case Some(raw) =>
        match unmarshal(raw)
        case None => Failure(ErrDecodingJSON)
        case Some(statement) => Success(statement)
  }

  /** An envelope is its own envelope view. */
  function HasEnvelope(e: Envelope): (view: Option<Envelope>)
    ensures view == Some(e)
  {
    Some(e)
  }

  /** An envelope has no message view. */
  function HasMessage(e: Envelope): (view: Option<MessageSignature>)
    ensures view.None?
  {
    None
  }

  /** The wrapped DSSE envelope; wrapping it again gives back the same envelope. */
  function GetRawEnvelope(e: Envelope): (raw: DsseEnvelope)
    ensures Envelope(raw) == e
  {
    e.raw
  }

  /** Checks that the payload is exactly the padded standard base64 encoding of the file. */
  function EnsureFileMatchesDigest(e: Envelope, fileBytes: seq<byte>): (r: Outcome<string>)
    ensures r.Pass? <==> e.raw.payload == Base64.Encode(fileBytes)
    ensures r.Fail? ==> r.error == PayloadMismatchError
  {
    if e.raw.payload != Base64.Encode(fileBytes) then Fail(PayloadMismatchError) else Pass
  }

  /**
   * The decoded first signature; empty when there is none or it is not valid
   * base64. Later signatures are not looked at.
   */
  function GetSignature(e: Envelope): (sig: seq<byte>)
    ensures |e.raw.signatures| == 0 ==> sig == []
    ensures |e.raw.signatures| > 0 && Base64.Decode(e.raw.signatures[0].sig).None? ==> sig == []
    ensures |e.raw.signatures| > 0 && Base64.Decode(e.raw.signatures[0].sig).Some? ==>
      sig == Base64.Decode(e.raw.signatures[0].sig).value
  {
    if |e.raw.signatures| == 0 then []
    else
      match Base64.Decode(e.raw.signatures[0].sig)
      case None => []
      case Some(sigBytes) => sigBytes
  }

  /** An envelope whose payload is the encoding of `f` accepts `f` and no other file. */
  lemma AcceptsExactlyEncodedFile(e: Envelope, f: seq<byte>, g: seq<byte>)
    requires e.raw.payload == Base64.Encode(f)
    ensures EnsureFileMatchesDigest(e, g).Pass? <==> g == f
  {
    if EnsureFileMatchesDigest(e, g).Pass? {
      Base64.EncodeInjective(f, g);
    }
  }

  /** A signature stored as the encoding of `s` in first place reads back as `s`, whatever follows it. */
  lemma GetSignatureDecodesFirst(e: Envelope, s: seq<byte>)
    requires |e.raw.signatures| > 0 && e.raw.signatures[0].sig == Base64.Encode(s)
    ensures GetSignature(e) == s
  {
    Base64.DecodeEncode(s);
  }

  /** An in-toto envelope whose payload encodes the bytes of a statement yields that statement. */
  lemma GetStatementOfEncodedPayload<S>(e: Envelope, unmarshal: seq<byte> -> Option<S>, raw: seq<byte>, statement: S)
    requires e.raw.payloadType == IntotoMediaType
    requires e.raw.payload == Base64.Encode(raw)
    requires unmarshal(raw) == Some(statement)
    ensures GetStatement(e, unmarshal) == Success(statement)
  {
    Base64.DecodeEncode(raw);
  }

  /** Each shape of signature content has exactly one of the two views. */
  lemma ExactlyOneView(sc: SignatureContent)
    ensures match sc
      case Message(m) => MessageSignatureContent.HasMessage(m).Some? && MessageSignatureContent.HasEnvelope(m).None?
      case Dsse(e) => HasEnvelope(e).Some? && HasMessage(e).None?
  {
  }
}
