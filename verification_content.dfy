/**
 * The certificate-chain variant of a bundle's verification content: the
 * signer's short-lived leaf certificate first, then any intermediates the
 * bundle carries. It decides whether the signer is trusted by finding a
 * trusted Fulcio authority that issued the leaf.
 */
module CertificateChainContent {
  import opened Wrappers
  import opened BundleTypes

  /** Leaf-first; every operation reads the leaf, so a chain must not be empty. */
  datatype CertificateChain = CertificateChain(certificates: seq<Certificate>)

  /** The object identifier of the Fulcio issuer extension, 1.3.6.1.4.1.57264.1.1. */
  const IssuerOid: seq<int> := [1, 3, 6, 1, 4, 1, 57264, 1, 1]

  function Leaf(cc: CertificateChain): Certificate
    requires |cc.certificates| > 0
  {
    cc.certificates[0]
  }

  /** A candidate key matches when it is a certificate with the leaf's encoding; any other kind of key never does. */
  function CompareKey(cc: CertificateChain, key: CandidateKey, tm: TrustedMaterial): (same: bool)
    requires |cc.certificates| > 0
    ensures same <==> key.CertificateKey? && key.certificate.raw == Leaf(cc).raw
  {
    match key
    case CertificateKey(c) => Leaf(cc).raw == c.raw
    case _ => false
  }

  /** The leaf is valid at `t`, both ends of its validity included. */
  function ValidAtTime(cc: CertificateChain, t: int, tm: TrustedMaterial): (valid: bool)
    requires |cc.certificates| > 0
    ensures valid <==> Leaf(cc).notBefore <= t <= Leaf(cc).notAfter
  {
    !(Leaf(cc).notAfter < t || Leaf(cc).notBefore > t)
  }

  // ------------------------------------------------------------- trust check

  /** The authority is not skipped: no set bound of its window cuts into the leaf's validity. */
  predicate WithinAuthorityWindow(ca: CertificateAuthority, leaf: Certificate) {
    && !(ca.validityPeriodStart != ZeroTime && leaf.notBefore < ca.validityPeriodStart)
    && !(ca.validityPeriodEnd != ZeroTime && leaf.notAfter > ca.validityPeriodEnd)
  }

  /** The authority's window includes instant `t`; an unset bound does not constrain. */
  predicate AuthorityValidAt(ca: CertificateAuthority, t: int) {
    && (ca.validityPeriodStart == ZeroTime || ca.validityPeriodStart <= t)
    && (ca.validityPeriodEnd == ZeroTime || t <= ca.validityPeriodEnd)
  }

  /**
   * The path-builder call made for one authority: its root as the only root,
   * its own intermediates (not the bundle's), code signing, and the leaf's
   * notBefore as the evaluation instant.
   */
  function PathRequestFor(leaf: Certificate, ca: CertificateAuthority): PathRequest {
    PathRequest(leaf, {ca.root}, (set c | c in ca.intermediates), leaf.notBefore, [ExtKeyUsageCodeSigning])
  }

  /** The authority passes the window check and a path from the leaf to its root is found. */
  predicate Trusts(buildPath: PathRequest -> bool, leaf: Certificate, ca: CertificateAuthority) {
    WithinAuthorityWindow(ca, leaf) && buildPath(PathRequestFor(leaf, ca))
  }

  /** The position of the first authority, in list order, that trusts the leaf. */
  function FirstTrustedAuthority(buildPath: PathRequest -> bool, leaf: Certificate, cas: seq<CertificateAuthority>): (r: Option<nat>)
    ensures r.Some? ==> r.value < |cas| && Trusts(buildPath, leaf, cas[r.value])
    ensures r.Some? ==> forall j | 0 <= j < r.value :: !Trusts(buildPath, leaf, cas[j])
    ensures r.None? ==> forall j | 0 <= j < |cas| :: !Trusts(buildPath, leaf, cas[j])
  {
    if |cas| == 0 then None
    else if Trusts(buildPath, leaf, cas[0]) then Some(0)
    else
      match FirstTrustedAuthority(buildPath, leaf, cas[1..])
      case None => None
      case Some(i) => Some(i + 1)
  }

  /** What Verify returns: the key and signature checks first, then the search for a trusting authority. */
  function VerifyOutcome(cc: CertificateChain, sc: SignatureContent, tm: TrustedMaterial, crypto: Crypto): Outcome<VerifyError>
    requires |cc.certificates| > 0
  {
    var leaf := Leaf(cc);
    match crypto.loadVerifier(leaf.publicKey)
    case Failure(err) => Fail(InvalidKey(err))
    case Success(verifier) =>
      match crypto.checkSignature(sc, verifier)
      case Fail(err) => Fail(Propagated(err))
      case Pass =>
        if FirstTrustedAuthority(crypto.buildPath, leaf, tm.fulcioCertificateAuthorities).Some? then Pass
        else Fail(CertificateVerificationFailed)
  }

  /**
   * The trust decision. The signature is checked against the leaf's key; then
   * the authorities are tried in order, skipping those whose window does not
   * hold the leaf's validity, and the first one with a path ends the search.
   * `anchor` is the position of that authority.
   */
  method Verify(cc: CertificateChain, sc: SignatureContent, tm: TrustedMaterial, crypto: Crypto)
      returns (r: Outcome<VerifyError>, ghost anchor: Option<nat>)
    requires |cc.certificates| > 0
    ensures r == VerifyOutcome(cc, sc, tm, crypto)
    ensures r.Pass? <==> anchor.Some?
    ensures anchor.Some? ==> anchor == FirstTrustedAuthority(crypto.buildPath, Leaf(cc), tm.fulcioCertificateAuthorities)
  {
    var loaded := crypto.loadVerifier(cc.certificates[0].publicKey);
    if loaded.Failure? {
      return Fail(InvalidKey(loaded.error)), None;
    }
    var checked := crypto.checkSignature(sc, loaded.value);
    if checked.Fail? {
      return Fail(Propagated(checked.error)), None;
    }

    var leaf := cc.certificates[0];
    var cas := tm.fulcioCertificateAuthorities;
    var i := 0;
    while i < |cas|
      invariant 0 <= i <= |cas|
      invariant forall j | 0 <= j < i :: !Trusts(crypto.buildPath, leaf, cas[j])
    {
      var ca := cas[i];
      if ca.validityPeriodStart != ZeroTime && leaf.notBefore < ca.validityPeriodStart {
        i := i + 1;
        continue;
      }
      if ca.validityPeriodEnd != ZeroTime && leaf.notAfter > ca.validityPeriodEnd {
        i := i + 1;
        continue;
      }

      var rootPool := new CertPool();
      rootPool.AddCert(ca.root);
      var intermediatePool := new CertPool();
      var k := 0;
      while k < |ca.intermediates|
        invariant 0 <= k <= |ca.intermediates|
        invariant rootPool.certs == {ca.root}
        invariant intermediatePool.certs == (set c | c in ca.intermediates[..k])
      {
        assert ca.intermediates[..k + 1] == ca.intermediates[..k] + [ca.intermediates[k]];
        intermediatePool.AddCert(ca.intermediates[k]);
        k := k + 1;
      }
      assert ca.intermediates[..k] == ca.intermediates;

      var opts := PathRequest(leaf, rootPool.certs, intermediatePool.certs, leaf.notBefore, [ExtKeyUsageCodeSigning]);
      assert opts == PathRequestFor(leaf, ca);
      if crypto.buildPath(opts) {
        return Pass, Some(i);
      }
      i := i + 1;
    }
    return Fail(CertificateVerificationFailed), None;
  }

  // ---------------------------------------------------- properties of Verify

  /** Verify succeeds exactly when the key loads, the signature checks, and some authority trusts the leaf. */
  lemma VerifySucceedsIff(cc: CertificateChain, sc: SignatureContent, tm: TrustedMaterial, crypto: Crypto)
    requires |cc.certificates| > 0
    ensures VerifyOutcome(cc, sc, tm, crypto) == Pass <==>
      && crypto.loadVerifier(Leaf(cc).publicKey).Success?
      && crypto.checkSignature(sc, crypto.loadVerifier(Leaf(cc).publicKey).value) == Pass
      && exists i | 0 <= i < |tm.fulcioCertificateAuthorities| ::
           Trusts(crypto.buildPath, Leaf(cc), tm.fulcioCertificateAuthorities[i])
  {
    var cas := tm.fulcioCertificateAuthorities;
    var first := FirstTrustedAuthority(crypto.buildPath, Leaf(cc), cas);
    if first.Some? {
      assert Trusts(crypto.buildPath, Leaf(cc), cas[first.value]);
    }
  }

  /**
   * A key that does not load or a signature that does not check decides the
   * outcome before any authority is consulted: the authorities and the path
   * builder make no difference.
   */
  lemma SignatureCheckedBeforeAuthorities(
      cc: CertificateChain, sc: SignatureContent, tm: TrustedMaterial, crypto: Crypto,
      otherAuthorities: seq<CertificateAuthority>, otherBuildPath: PathRequest -> bool)
    requires |cc.certificates| > 0
    requires || crypto.loadVerifier(Leaf(cc).publicKey).Failure?
             || crypto.checkSignature(sc, crypto.loadVerifier(Leaf(cc).publicKey).value).Fail?
    ensures VerifyOutcome(cc, sc, tm, crypto) ==
      VerifyOutcome(cc, sc, tm.(fulcioCertificateAuthorities := otherAuthorities), crypto.(buildPath := otherBuildPath))
    ensures VerifyOutcome(cc, sc, tm, crypto).Fail?
    ensures VerifyOutcome(cc, sc, tm, crypto).error != CertificateVerificationFailed
  {
  }

  /** With no authority configured, a chain whose signature checks still fails. */
  lemma NoAuthorityNoTrust(cc: CertificateChain, sc: SignatureContent, tm: TrustedMaterial, crypto: Crypto)
    requires |cc.certificates| > 0
    requires tm.fulcioCertificateAuthorities == []
    requires crypto.loadVerifier(Leaf(cc).publicKey).Success?
    requires crypto.checkSignature(sc, crypto.loadVerifier(Leaf(cc).publicKey).value) == Pass
    ensures VerifyOutcome(cc, sc, tm, crypto) == Fail(CertificateVerificationFailed)
  {
  }

  /**
   * The window check admits an authority exactly when its window holds every
   * instant of the leaf's validity: an authority whose window only overlaps
   * the leaf's is skipped.
   */
  lemma WindowContainsLeafValidity(ca: CertificateAuthority, leaf: Certificate)
    requires leaf.notBefore <= leaf.notAfter
    ensures WithinAuthorityWindow(ca, leaf) <==>
      forall t | leaf.notBefore <= t <= leaf.notAfter :: AuthorityValidAt(ca, t)
  {
    if !WithinAuthorityWindow(ca, leaf) {
      if ca.validityPeriodStart != ZeroTime && leaf.notBefore < ca.validityPeriodStart {
        assert !AuthorityValidAt(ca, leaf.notBefore);
      } else {
        assert !AuthorityValidAt(ca, leaf.notAfter);
      }
    }
  }

  /**
   * The first trusting authority depends on the path builder only through
   * requests at the leaf's notBefore with code signing.
   */
  lemma {:induction false} FirstTrustedPinned(
      b1: PathRequest -> bool, b2: PathRequest -> bool, leaf: Certificate, cas: seq<CertificateAuthority>)
    requires forall q: PathRequest | q.currentTime == leaf.notBefore && q.keyUsages == [ExtKeyUsageCodeSigning] :: b1(q) == b2(q)
    ensures FirstTrustedAuthority(b1, leaf, cas) == FirstTrustedAuthority(b2, leaf, cas)
  {
    if |cas| > 0 {
      var q := PathRequestFor(leaf, cas[0]);
      assert b1(q) == b2(q);
      FirstTrustedPinned(b1, b2, leaf, cas[1..]);
    }
  }

  /**
   * Every path is evaluated at the leaf's notBefore with code signing: two
   * path builders that agree on such requests give the same verdict, however
   * they judge any other instant (for instance, after the leaf has expired).
   */
  lemma EvaluatedAtLeafNotBefore(
      cc: CertificateChain, sc: SignatureContent, tm: TrustedMaterial, crypto: Crypto, otherBuildPath: PathRequest -> bool)
    requires |cc.certificates| > 0
    requires forall q: PathRequest | q.currentTime == Leaf(cc).notBefore && q.keyUsages == [ExtKeyUsageCodeSigning] ::
      crypto.buildPath(q) == otherBuildPath(q)
    ensures VerifyOutcome(cc, sc, tm, crypto) == VerifyOutcome(cc, sc, tm, crypto.(buildPath := otherBuildPath))
  {
    FirstTrustedPinned(crypto.buildPath, otherBuildPath, Leaf(cc), tm.fulcioCertificateAuthorities);
  }

  /** The intermediates the bundle carries after the leaf play no part in the decision. */
  lemma BundleIntermediatesIgnored(cc: CertificateChain, sc: SignatureContent, tm: TrustedMaterial, crypto: Crypto)
    requires |cc.certificates| > 0
    ensures VerifyOutcome(cc, sc, tm, crypto) == VerifyOutcome(CertificateChain([Leaf(cc)]), sc, tm, crypto)
  {
  }

  // ------------------------------------------------------------- identity

  /** The extension at `i` is the first one with the issuer identifier. */
  predicate IsFirstIssuerExtension(extensions: seq<Extension>, i: int) {
    && 0 <= i < |extensions|
    && extensions[i].id == IssuerOid
    && forall j | 0 <= j < i :: extensions[j].id != IssuerOid
  }

  /** The value of the leaf's first issuer extension as text; empty when there is none. */
  method GetIssuer(cc: CertificateChain) returns (issuer: string)
    requires |cc.certificates| > 0
    ensures (forall i | 0 <= i < |Leaf(cc).extensions| :: Leaf(cc).extensions[i].id != IssuerOid) ==> issuer == ""
    ensures forall i | IsFirstIssuerExtension(Leaf(cc).extensions, i) :: issuer == BytesToString(Leaf(cc).extensions[i].value)
  {
    var extensions := cc.certificates[0].extensions;
    var i := 0;
    while i < |extensions|
      invariant 0 <= i <= |extensions|
      invariant forall j | 0 <= j < i :: extensions[j].id != IssuerOid
    {
      if extensions[i].id == IssuerOid {
        assert IsFirstIssuerExtension(Leaf(cc).extensions, i);
        return BytesToString(extensions[i].value);
      }
      i := i + 1;
    }
    return "";
  }

  /** The leaf's first URI subject alternative name; empty when it has none. */
  function GetSAN(cc: CertificateChain): (san: string)
    requires |cc.certificates| > 0
    ensures |Leaf(cc).uris| == 0 ==> san == ""
    ensures |Leaf(cc).uris| > 0 ==> san == Leaf(cc).uris[0]
  {
    if |Leaf(cc).uris| == 0 then "" else Leaf(cc).uris[0]
  }
}

/**
 * The public-key variant of a bundle's verification content: a hint naming a
 * key registered in the trusted material. Every operation resolves the hint
 * and fails closed when it does not resolve.
 */
module PublicKeyContent {
  import opened Wrappers
  import opened BundleTypes

  datatype PublicKey = PublicKey(hint: string)

  /** The candidate equals the resolved key; false if the hint or the key does not resolve or the candidate cannot compare keys. */
  function CompareKey(pk: PublicKey, key: CandidateKey, tm: TrustedMaterial): (same: bool)
    ensures same <==>
      && tm.publicKeyVerifier(pk.hint).Success?
      && tm.publicKeyVerifier(pk.hint).value.publicKey.Success?
      && key.EqualableKey?
      && key.key == tm.publicKeyVerifier(pk.hint).value.publicKey.value
  {
    match tm.publicKeyVerifier(pk.hint)
    case Failure(_) => false
    case Success(verifier) =>
      match verifier.publicKey
      case Failure(_) => false
      case Success(pubKey) =>
        match key
        case EqualableKey(k) => k == pubKey
        case _ => false
  }

  /** The resolved key's own validity policy at `t`; false if the hint does not resolve. */
  function ValidAtTime(pk: PublicKey, t: int, tm: TrustedMaterial): (valid: bool)
    ensures valid <==> tm.publicKeyVerifier(pk.hint).Success? && tm.publicKeyVerifier(pk.hint).value.validAtTime(t)
  {
    match tm.publicKeyVerifier(pk.hint)
    case Failure(_) => false
    case Success(verifier) => verifier.validAtTime(t)
  }

  /**
   * The trust decision for a registered key: the resolver's error or the
   * signature check's error, unchanged, or success. No authority is consulted.
   */
  function Verify(pk: PublicKey, sc: SignatureContent, tm: TrustedMaterial, crypto: Crypto): (r: Outcome<VerifyError>)
    ensures tm.publicKeyVerifier(pk.hint).Failure? ==> r == Fail(Propagated(tm.publicKeyVerifier(pk.hint).error))
    ensures tm.publicKeyVerifier(pk.hint).Success? ==>
      (r.Pass? <==> crypto.checkSignature(sc, tm.publicKeyVerifier(pk.hint).value).Pass?)
    ensures r.Fail? ==> r.error.Propagated?
    ensures r.Fail? && tm.publicKeyVerifier(pk.hint).Success? ==>
      r.error.cause == crypto.checkSignature(sc, tm.publicKeyVerifier(pk.hint).value).error
  {
    match tm.publicKeyVerifier(pk.hint)
    case Failure(err) => Fail(Propagated(err))
    case Success(verifier) =>
      match crypto.checkSignature(sc, verifier)
      case Fail(err) => Fail(Propagated(err))
      case Pass => Pass
  }

  /** A public key carries no issuer. */
  function GetIssuer(pk: PublicKey): (issuer: string)
    ensures issuer == ""
  {
    ""
  }

  /** A public key carries no subject alternative name. */
  function GetSAN(pk: PublicKey): (san: string)
    ensures san == ""
  {
    ""
  }

  /** An unresolvable hint fails closed in every operation. */
  lemma UnresolvedHintFailsClosed(
      pk: PublicKey, tm: TrustedMaterial, key: CandidateKey, t: int, sc: SignatureContent, crypto: Crypto)
    requires tm.publicKeyVerifier(pk.hint).Failure?
    ensures !CompareKey(pk, key, tm)
    ensures !ValidAtTime(pk, t, tm)
    ensures Verify(pk, sc, tm, crypto).Fail?
  {
  }

  /** Verify for a registered key depends neither on the authorities nor on the path builder. */
  lemma KeyVerifyIgnoresAuthorities(
      pk: PublicKey, sc: SignatureContent, tm: TrustedMaterial, crypto: Crypto,
      otherAuthorities: seq<CertificateAuthority>, otherBuildPath: PathRequest -> bool)
    ensures Verify(pk, sc, tm, crypto) ==
      Verify(pk, sc, tm.(fulcioCertificateAuthorities := otherAuthorities), crypto.(buildPath := otherBuildPath))
  {
  }
}
