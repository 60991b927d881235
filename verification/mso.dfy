/** Issuer data authentication: the signed object, its signer's certificate and its window. */
module IssuerAuthentication {
  import opened Basics
  import opened CborSyntax
  import opened Codec
  import opened Primitives
  import opened Cose
  import opened CoseSign1
  import opened CoseKey
  import opened Wire

  /** The trust boundary: chain and claimed signing time to the document signer's key. A failed
      resolution and a nil key are both None. */
  type Trust = (seq<bytes>, Time) -> Option<PublicKey>

  datatype Authenticated = Authenticated(mso: MobileSecurityObject, deviceKey: PublicKey)

  /** The object inside a payload element, its signature not yet checked. */
  function MsoOfElement(env: Env, element: bytes): Result<MobileSecurityObject> {
    var x :- Decode(element);
    var payload :- OrMalformed(AsBlob(x));
    DecodeMso(env, payload)
  }

  function ClaimedSigningTime(env: Env, element: bytes): Result<Time> {
    var mso :- MsoOfElement(env, element);
    if mso.validityInfo.signed == ZERO_TIME then Err(ErrMalformed) else Ok(mso.validityInfo.signed)
  }

  /** The leaf certificate covered the instant, both ends included. */
  function CheckSignerWindow(env: Env, chain: seq<bytes>, signed: Time): Result<()> {
    if chain == [] then Err(ErrIssuerAuth)
    else
      match env.certWindow(chain[0])
      case None => Err(ErrIssuerAuth)
      case Some(w) => if signed < w.notBefore || signed > w.notAfter then Err(ErrIssuerCertValidity) else Ok(())
  }

  function CheckValidity(v: ValidityInfo, at: Time): Result<()> {
    if v.validFrom == ZERO_TIME || v.validUntil == ZERO_TIME then Err(ErrMalformed)
    else if v.validFrom >= v.validUntil then Err(ErrMalformed)
    else if at < v.validFrom || at > v.validUntil then Err(ErrValidity)
    else Ok(())
  }

  /** The re-assertion of the signing time, then the checks on authenticated content. */
  function CheckMso(env: Env, mso: MobileSecurityObject, claimed: Time, at: Time): Result<Authenticated> {
    if mso.validityInfo.signed != claimed then Err(ErrIssuerAuth)
    else if !AllowedDigestAlg(mso.digestAlgorithm) then Err(ErrDigestAlg)
    else
      var _ :- CheckValidity(mso.validityInfo, at);
      match ParseCOSEKey(env, mso.deviceKey)
      case Err(_) => Err(ErrMalformed)
      case Ok(deviceKey) => Ok(Authenticated(mso, deviceKey))
  }

  /** The payload, if the signature over the reassembled message holds. */
  function AuthenticPayload(env: Env, p: Parts, key: PublicKey): Result<bytes> {
    match CoseAssemble(p)
    case Err(_) => Err(ErrIssuerAuth)
    case Ok(tagged) =>
      match VerifyCOSESign1(env, tagged, key)
      case None => Err(ErrIssuerAuth)
      case Some(payload) => Ok(payload)
  }

  function VerifyIssuerAuth(env: Env, issuerAuth: bytes, trust: Trust, at: Time): Result<Authenticated> {
    match CoseParts(issuerAuth)
    case Err(_) => Err(ErrIssuerAuth)
    case Ok(p) =>
      var chain :- X5ChainFrom(p);
      var claimed :- ClaimedSigningTime(env, p.payload);
      var _ :- CheckSignerWindow(env, chain, claimed);
      match trust(chain, claimed)
      case None => Err(ErrIssuerAuth)
      case Some(key) =>
        var payload :- AuthenticPayload(env, p, key);
        var mso :- DecodeMso(env, payload);
        CheckMso(env, mso, claimed, at)
  }

  // ----- the signing time handed to the trust boundary is the authenticated one -----

  lemma ElementBlob(element: bytes)
    requires Decode(element).Ok? && BlobOf(element).Some?
    ensures AsBlob(Decode(element).value) == BlobOf(element)
  {
  }

  lemma AuthenticPayloadIs(env: Env, issuerAuth: bytes, key: PublicKey)
    requires CoseParts(issuerAuth).Ok?
    ensures var p := CoseParts(issuerAuth).value;
            AuthenticPayload(env, p, key) ==
            match VerifyParts(env, p, key) case None => Err(ErrIssuerAuth) case Some(b) => Ok(b)
  {
    hide CoseParts, CoseAssemble, VerifyCOSESign1, VerifyParts, Elements;
    PartsAreElements(issuerAuth);
    VerifyAssembled(env, CoseParts(issuerAuth).value, key);
  }

  /** Whatever key verifies the message, the object it authenticates is the object the claimed
      time was read from. */
  lemma ClaimIsAuthentic(env: Env, issuerAuth: bytes, key: PublicKey)
    requires CoseParts(issuerAuth).Ok?
    requires var p := CoseParts(issuerAuth).value;
             ClaimedSigningTime(env, p.payload).Ok? && AuthenticPayload(env, p, key).Ok?
    ensures var p := CoseParts(issuerAuth).value;
            MsoOfElement(env, p.payload) == DecodeMso(env, AuthenticPayload(env, p, key).value)
  {
    hide CoseParts, AuthenticPayload, DecodeMso, Decode, AsBlob;
    var p := CoseParts(issuerAuth).value;
    AuthenticPayloadIs(env, issuerAuth, key);
    assert VerifyParts(env, p, key).Some?;
    hide BlobOf, ToBeSigned;
    assert BlobOf(p.payload) == VerifyParts(env, p, key);
    ElementBlob(p.payload);
  }

  /** The verdict without the re-assertion. */
  function VerifyIssuerAuthUnasserted(env: Env, issuerAuth: bytes, trust: Trust, at: Time): Result<Authenticated> {
    match CoseParts(issuerAuth)
    case Err(_) => Err(ErrIssuerAuth)
    case Ok(p) =>
      var chain :- X5ChainFrom(p);
      var claimed :- ClaimedSigningTime(env, p.payload);
      var _ :- CheckSignerWindow(env, chain, claimed);
      match trust(chain, claimed)
      case None => Err(ErrIssuerAuth)
      case Some(key) =>
        var payload :- AuthenticPayload(env, p, key);
        var mso :- DecodeMso(env, payload);
        CheckMso(env, mso, mso.validityInfo.signed, at)
  }

  /** The re-assertion never rejects: it changes no verdict on any input. */
  lemma ReassertionNeverRejects(env: Env, issuerAuth: bytes, trust: Trust, at: Time)
    ensures VerifyIssuerAuth(env, issuerAuth, trust, at) == VerifyIssuerAuthUnasserted(env, issuerAuth, trust, at)
  {
    hide CoseParts, AuthenticPayload, DecodeMso, MsoOfElement, X5ChainFrom, CheckMso, CheckSignerWindow;
    if CoseParts(issuerAuth).Ok? {
      var p := CoseParts(issuerAuth).value;
      if X5ChainFrom(p).Ok? && ClaimedSigningTime(env, p.payload).Ok? {
        var key := trust(X5ChainFrom(p).value, ClaimedSigningTime(env, p.payload).value);
        if key.Some? && AuthenticPayload(env, p, key.value).Ok? {
          ClaimIsAuthentic(env, issuerAuth, key.value);
        }
      }
    }
  }

  /** Everything acceptance means: the key came from the trust boundary, asked about the
      presented chain at the authenticated signing time, which lies in the leaf's window. */
  ghost predicate AuthenticatedBy(env: Env, p: Parts, chain: seq<bytes>, key: PublicKey, trust: Trust, at: Time,
      a: Authenticated) {
    X5ChainFrom(p) == Ok(chain) && chain != [] &&
    a.mso.validityInfo.signed != ZERO_TIME &&
    (match env.certWindow(chain[0])
     case None => false
     case Some(w) => w.notBefore <= a.mso.validityInfo.signed <= w.notAfter) &&
    trust(chain, a.mso.validityInfo.signed) == Some(key) &&
    (match VerifyParts(env, p, key)
     case None => false
     case Some(payload) => DecodeMso(env, payload) == Ok(a.mso)) &&
    AllowedDigestAlg(a.mso.digestAlgorithm) &&
    a.mso.validityInfo.validFrom != ZERO_TIME && a.mso.validityInfo.validUntil != ZERO_TIME &&
    a.mso.validityInfo.validFrom < a.mso.validityInfo.validUntil &&
    a.mso.validityInfo.validFrom <= at <= a.mso.validityInfo.validUntil &&
    ParseCOSEKey(env, a.mso.deviceKey) == Ok(a.deviceKey)
  }

  lemma CheckMsoExact(env: Env, mso: MobileSecurityObject, claimed: Time, at: Time)
    requires CheckMso(env, mso, claimed, at).Ok?
    ensures CheckMso(env, mso, claimed, at).value.mso == mso && mso.validityInfo.signed == claimed
    ensures AllowedDigestAlg(mso.digestAlgorithm) && CheckValidity(mso.validityInfo, at).Ok?
    ensures ParseCOSEKey(env, mso.deviceKey) == Ok(CheckMso(env, mso, claimed, at).value.deviceKey)
  {
    hide AllowedDigestAlg, CheckValidity, ParseCOSEKey;
  }

  lemma AcceptedIssuerAuth(env: Env, issuerAuth: bytes, trust: Trust, at: Time)
      returns (p: Parts, chain: seq<bytes>, key: PublicKey)
    requires VerifyIssuerAuth(env, issuerAuth, trust, at).Ok?
    ensures CoseParts(issuerAuth) == Ok(p)
    ensures AuthenticatedBy(env, p, chain, key, trust, at, VerifyIssuerAuth(env, issuerAuth, trust, at).value)
  {
    hide CoseParts, AuthenticPayload, DecodeMso, MsoOfElement, X5ChainFrom, CheckMso, AllowedDigestAlg,
         ParseCOSEKey, VerifyParts;
    p := CoseParts(issuerAuth).value;
    chain := X5ChainFrom(p).value;
    var claimed := ClaimedSigningTime(env, p.payload).value;
    key := trust(chain, claimed).value;
    AuthenticPayloadIs(env, issuerAuth, key);
    var mso := DecodeMso(env, AuthenticPayload(env, p, key).value).value;
    CheckMsoExact(env, mso, claimed, at);
  }

  /** Conversely, a message with these properties is accepted. */
  lemma IssuerAuthAccepts(env: Env, issuerAuth: bytes, chain: seq<bytes>, key: PublicKey, trust: Trust, at: Time,
      a: Authenticated)
    requires CoseParts(issuerAuth).Ok?
    requires MsoOfElement(env, CoseParts(issuerAuth).value.payload) == Ok(a.mso)
    requires AuthenticatedBy(env, CoseParts(issuerAuth).value, chain, key, trust, at, a)
    ensures VerifyIssuerAuth(env, issuerAuth, trust, at) == Ok(a)
  {
    hide CoseParts, AuthenticPayload, DecodeMso, MsoOfElement, X5ChainFrom, AllowedDigestAlg, ParseCOSEKey,
         VerifyParts;
    AuthenticPayloadIs(env, issuerAuth, key);
  }
}
