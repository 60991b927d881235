/** The finished credential: what the wallet decodes and what the verifier authenticates. */
module Credentials {
  import opened Basics
  import opened CborSyntax
  import opened Codec
  import opened Structs
  import opened Primitives
  import opened GoValues
  import opened Cose
  import opened CoseSign1
  import opened CoseKey
  import opened Wire
  import opened Responses
  import opened StatusRefs
  import opened Issuing
  import opened IssuerAuthentication
  import opened IssuedCredentials

  // ----- issuing, unfolded -----

  ghost function SealedAuth(env: Env, issuer: Issuer, e: Issuance): Result<bytes>
    requires Ran(env, e) && SealedMso(env, e).Ok?
  {
    SignCOSEWithX5Chain(issuer.signer, issuer.x5chain, SealedMso(env, e).value)
  }

  lemma IssueUnfolds(env: Env, issuer: Issuer, e: Issuance)
    requires ValidChoices(e.t, e.ch) && ChoicesInTemplate(e.t, e.ch)
    requires Issue(env, issuer, e.t, e.deviceKey, e.ch).Ok?
    ensures Ran(env, e) && SealedMso(env, e).Ok? && SealedAuth(env, issuer, e).Ok?
    ensures Issue(env, issuer, e.t, e.deviceKey, e.ch) == EncodeIssuerSigned(IssuerSigned(Stored(env, e),
            SealedAuth(env, issuer, e).value))
  {
    hide ValidChoices, ChoicesInTemplate, AllEncodable, SealedKey, IssuedMsoBytes, SignCOSEWithX5Chain,
         EncodeIssuerSigned;
    hide BuiltNameSpaces, DigestTables, TemplateAlg;
  }

  // ----- issuerAuth -----

  lemma ChainBlobsFit(chain: seq<bytes>)
    requires ChainFits(chain) && WF(ChainItem(chain))
    ensures forall c | c in chain :: |c| < MAX_LENGTH
  {
    var items := ChainItem(chain).items;
    forall c | c in chain ensures |c| < MAX_LENGTH {
      var i :| 0 <= i < |chain| && chain[i] == c;
      assert items[i] == MkBlob(c) && items[i] in items;
      BlobFits(c);
    }
  }

  lemma ChainHeaderFits(chain: seq<bytes>)
    requires WF(ChainHeader(chain))
    ensures WF(ChainItem(chain))
  {
    hide WF, ChainItem, MkMap;
    var m := map[KInt(X5CHAIN_LABEL) := ChainItem(chain)];
    MkMapWF(m);
    assert KInt(X5CHAIN_LABEL) in m;
  }

  lemma SignedWithChain(signer: Signer, chain: seq<bytes>, payload: bytes)
    requires ChainFits(chain) && SignCOSEWithX5Chain(signer, chain, payload).Ok?
    ensures SignCOSESign1(signer, payload).Ok? && forall c | c in chain :: |c| < MAX_LENGTH
  {
    hide SignCOSESign1, CoseParts, CoseAssemble, WF, ChainHeader, ChainItem, Print;
    ChainHeaderFits(chain);
    ChainBlobsFit(chain);
  }

  /** The parts of a signed message with the chain in place. */
  function ChainedParts(signer: Signer, chain: seq<bytes>, payload: bytes): Parts {
    SignedParts(signer, payload).(unprotected := Print(ChainHeader(chain)))
  }

  lemma FlatElement(b: bytes)
    requires |b| < MAX_LENGTH
    ensures InLimits(Embed(Print(MkBlob(b))), 2)
  {
    StringWF(b);
    EmbedPrint(MkBlob(b));
  }

  lemma HeaderElement(chain: seq<bytes>)
    requires ChainFits(chain) && forall c | c in chain :: |c| < MAX_LENGTH
    ensures InLimits(Embed(Print(ChainHeader(chain))), 2)
  {
    hide WF, ChainItem, MkMap, Print, Embed;
    ChainFromHeader(chain);
    EmbedPrint(ChainHeader(chain));
    var m := map[KInt(X5CHAIN_LABEL) := ChainItem(chain)];
    ChainItemFlat(chain);
    hide InLimits;
    MkMapInLimits(m, 2);
    assert |m| == 1;
  }

  lemma ChainItemFlat(chain: seq<bytes>)
    requires ChainFits(chain)
    ensures InLimits(ChainItem(chain), 1)
  {
    var x := ChainItem(chain);
    forall c | c in x.items ensures InLimits(c, 0) {
      var i :| 0 <= i < |x.items| && x.items[i] == c;
      assert c == MkBlob(chain[i]);
    }
  }

  lemma MessageFlat(a: Item, b: Item, c: Item, d: Item)
    requires InLimits(a, 2) && InLimits(b, 2) && InLimits(c, 2) && InLimits(d, 2)
    ensures InLimits(Message(a, b, c, d), 3)
  {
    var items := [a, b, c, d];
    assert InLimits(Array(0, items), 3);
  }

  /** issuerAuth nests three levels deep. */
  lemma AuthIsFlat(signer: Signer, chain: seq<bytes>, payload: bytes)
    requires ChainFits(chain) && SignCOSEWithX5Chain(signer, chain, payload).Ok?
    requires SignCOSEWithX5Chain(signer, chain, payload) == CoseAssemble(ChainedParts(signer, chain, payload))
    requires Cose.Elements(ChainedParts(signer, chain, payload), 15)
    ensures var raw := SignCOSEWithX5Chain(signer, chain, payload).value;
            raw != [] && RawOk(raw) && InLimits(Embed(raw), 3)
  {
    hide SignCOSESign1, Print, WF, InLimits, ChainHeader, MkBlob, Embed, RawOk, CoseAssemble,
         SignCOSEWithX5Chain, Element, ToBeSigned;
    SignedWithChain(signer, chain, payload);
    PartsOfSigned(signer, payload);
    var p := ChainedParts(signer, chain, payload);
    FlatElement(signer.protected);
    FlatElement(payload);
    FlatElement(signer.sign(ToBeSigned(signer.protected, payload)));
    HeaderElement(chain);
    ElementFacts(p.protected, 15);
    ElementFacts(p.unprotected, 15);
    ElementFacts(p.payload, 15);
    ElementFacts(p.signature, 15);
    AssembleIsMessage(p);
    var a, b, c, d := Embed(p.protected), Embed(p.unprotected), Embed(p.payload), Embed(p.signature);
    ArrayOfFour(a, b, c, d);
    MessageFlat(a, b, c, d);
    EmbedPrint(Message(a, b, c, d));
  }

  /** The shape of a freshly signed issuerAuth, whether or not its signature holds. */
  lemma SealedAuthShape(env: Env, signer: Signer, chain: seq<bytes>, payload: bytes)
    requires ChainFits(chain) && SignCOSEWithX5Chain(signer, chain, payload).Ok?
    ensures var raw, p := SignCOSEWithX5Chain(signer, chain, payload).value, ChainedParts(signer, chain, payload);
            raw != [] && RawOk(raw) && InLimits(Embed(raw), 3) &&
            CoseParts(raw) == Ok(p) && X5ChainFrom(p) == Ok(chain) &&
            p.payload == Print(MkBlob(payload)) && |payload| < MAX_LENGTH
  {
    hide SignCOSESign1, Print, WF, InLimits, ChainHeader, MkBlob, Embed, RawOk, CoseAssemble, CoseParts,
         SignCOSEWithX5Chain, Element;
    hide ToBeSigned, X5ChainFrom, BlobOf, VerifyCOSESign1, VerifyParts;
    SignedWithChain(signer, chain, payload);
    HeaderInjection(env, signer, chain, payload, signer.pub);
    AuthIsFlat(signer, chain, payload);
    PartsOfSigned(signer, payload);
  }

  /** What the verifier finds in a freshly signed issuerAuth. */
  lemma AuthFacts(env: Env, signer: Signer, chain: seq<bytes>, payload: bytes)
    requires ChainFits(chain) && SignCOSEWithX5Chain(signer, chain, payload).Ok?
    requires Vouches(env, signer, ToBeSigned(signer.protected, payload))
    ensures var raw, p := SignCOSEWithX5Chain(signer, chain, payload).value, ChainedParts(signer, chain, payload);
            raw != [] && RawOk(raw) && InLimits(Embed(raw), 3) &&
            CoseParts(raw) == Ok(p) && X5ChainFrom(p) == Ok(chain) &&
            VerifyParts(env, p, signer.pub) == Some(payload) &&
            p.payload == Print(MkBlob(payload)) && |payload| < MAX_LENGTH
  {
    hide SignCOSESign1, Print, WF, InLimits, ChainHeader, MkBlob, Embed, RawOk, CoseAssemble, CoseParts,
         SignCOSEWithX5Chain, Element;
    hide ToBeSigned, X5ChainFrom, BlobOf, Vouches, VerifyCOSESign1;
    SignedWithChain(signer, chain, payload);
    HeaderInjection(env, signer, chain, payload, signer.pub);
    AuthIsFlat(signer, chain, payload);
    SignedVerifies(env, signer, payload);
    PartsOfSigned(signer, payload);
  }

  lemma PayloadElement(env: Env, payload: bytes)
    requires |payload| < MAX_LENGTH
    ensures MsoOfElement(env, Print(MkBlob(payload))) == DecodeMso(env, payload)
  {
    hide DecodeMso, Print, Decode, WF;
    var x := MkBlob(payload);
    StringWF(payload);
    assert InLimits(x, MAX_NESTED_LEVELS) && AsBlob(x) == Some(payload);
    DecodeEncode(x);
  }

  /** The issuer's signature on the sealed object verifies. */
  ghost predicate IssuerVouches(env: Env, issuer: Issuer, e: Issuance) {
    Ran(env, e) && SealedMso(env, e).Ok? ==>
      Vouches(env, issuer.signer, ToBeSigned(issuer.signer.protected, SealedMso(env, e).value))
  }

  /** What must hold in the world for an issued credential to be accepted, given the times on the
      wire: a signing second inside the leaf's window, and an instant inside a coherent validity
      window. */
  ghost predicate Timely(env: Env, issuer: Issuer, v: ValidityInfo, at: Time) {
    v.signed != ZERO_TIME && CheckSignerWindow(env, issuer.x5chain, v.signed).Ok? && CheckValidity(v, at).Ok?
  }

  /** The trust boundary resolves the issuer's chain, at the signing second, to the issuer's key. */
  ghost predicate Resolves(env: Env, issuer: Issuer, t: DocumentTemplate, trust: Trust) {
    ObjectReads(env, t) ==> trust(issuer.x5chain, WireTimes(env, t).signed) == Some(issuer.signer.pub)
  }

  ghost function ReadMsoOf(env: Env, e: Issuance): MobileSecurityObject
    requires Ran(env, e) && SealedMso(env, e).Ok? && ObjectReads(env, e.t)
  {
    MsoOf(env, e).(validityInfo := WireTimes(env, e.t))
  }

  lemma MsoOfFields(env: Env, e: Issuance)
    requires Ran(env, e) && SealedMso(env, e).Ok? && ObjectReads(env, e.t)
    ensures var m := ReadMsoOf(env, e);
            m.docType == e.t.docType && m.digestAlgorithm == TemplateAlg(e.t) && m.valueDigests == Tables(env, e) &&
            m.validityInfo == WireTimes(env, e.t) && ParseCOSEKey(env, m.deviceKey) == Ok(e.deviceKey) &&
            AllowedDigestAlg(m.digestAlgorithm) && EncodeStatus(e.t.status) == Ok(m.status) && m.docType != []
  {
    hide SealedMso, SealedKey, EncodeStatus, Tables, Ran, TemplateAlg, AllowedDigestAlg, ParseCOSEKey,
         WireTimes, ObjectReads, RawOk, Embed, InLimits;
    SealedMsoParts(env, e);
    SealedKeyFacts(env, e.t, e.deviceKey);
  }

  lemma IssuedMsoDecodes(env: Env, e: Issuance)
    requires Ran(env, e) && SealedMso(env, e).Ok?
    ensures DecodeMso(env, SealedMso(env, e).value) ==
            if ObjectReads(env, e.t) then Ok(ReadMsoOf(env, e)) else Err(ErrMalformed)
  {
    hide SealedMso, ObjectReads, Ran, DecodeMso, MsoOf, WireTimes;
    SealedVerdict(env, e);
  }

  /** The exact verdict on an issued credential whose chain resolves to the issuer's key, error
      for error: the object must read, and only its times on the wire decide - the signing time
      first, then the leaf's window, then the validity window. */
  lemma IssuedAuthVerdict(env: Env, issuer: Issuer, e: Issuance, trust: Trust, at: Time)
    requires Ran(env, e) && SealedMso(env, e).Ok? && SealedAuth(env, issuer, e).Ok?
    requires IssuerVouches(env, issuer, e) && ChainFits(issuer.x5chain) && Resolves(env, issuer, e.t, trust)
    ensures VerifyIssuerAuth(env, SealedAuth(env, issuer, e).value, trust, at) ==
            if !ObjectReads(env, e.t) then Err(ErrMalformed)
            else
              var v := WireTimes(env, e.t);
              var window, validity := CheckSignerWindow(env, issuer.x5chain, v.signed), CheckValidity(v, at);
              if v.signed == ZERO_TIME then Err(ErrMalformed)
              else if window.Err? then Err(window.error)
              else if validity.Err? then Err(validity.error)
              else Ok(Authenticated(ReadMsoOf(env, e), e.deviceKey))
  {
    hide SealedMso, ObjectReads, Ran, SignCOSEWithX5Chain, CoseParts, ChainedParts, X5ChainFrom,
         VerifyParts, DecodeMso, MsoOfElement;
    hide ReadMsoOf, ParseCOSEKey, AllowedDigestAlg, Print, MkBlob, Embed, RawOk, InLimits, WireTimes,
         Vouches, ToBeSigned, TemplateAlg, Tables, EncodeStatus;
    hide CheckSignerWindow, CheckValidity, AuthenticPayload;
    var payload := SealedMso(env, e).value;
    AuthFacts(env, issuer.signer, issuer.x5chain, payload);
    PayloadElement(env, payload);
    IssuedMsoDecodes(env, e);
    if ObjectReads(env, e.t) {
      MsoOfFields(env, e);
      AuthenticPayloadIs(env, SealedAuth(env, issuer, e).value, issuer.signer.pub);
    }
  }

  /** An issued credential passes issuer authentication exactly when its object reads and the
      instant is timely, and then to the template's object and the device key it was issued for. */
  lemma IssuedAuthVerifies(env: Env, issuer: Issuer, e: Issuance, trust: Trust, at: Time)
    requires Ran(env, e) && SealedMso(env, e).Ok? && SealedAuth(env, issuer, e).Ok?
    requires IssuerVouches(env, issuer, e) && ChainFits(issuer.x5chain) && Resolves(env, issuer, e.t, trust)
    ensures VerifyIssuerAuth(env, SealedAuth(env, issuer, e).value, trust, at).ToOption() ==
            if ObjectReads(env, e.t) && Timely(env, issuer, WireTimes(env, e.t), at)
            then Some(Authenticated(ReadMsoOf(env, e), e.deviceKey)) else None
  {
    hide VerifyIssuerAuth, SealedMso, ObjectReads, Ran, SignCOSEWithX5Chain, ReadMsoOf, WireTimes, IssuerVouches,
         CheckSignerWindow, CheckValidity, Resolves;
    IssuedAuthVerdict(env, issuer, e, trust, at);
  }

  // ----- times lose their fraction of a second -----

  /** The leaf admits the signing second exactly when it admits the signing instant, except where
      one of its bounds falls between the two. */
  lemma SignerWindowOnTheWire(w: Window, signed: Time)
    ensures (w.notBefore <= TruncateToSecond(signed) <= w.notAfter) == (w.notBefore <= signed <= w.notAfter) <==>
            !(TruncateToSecond(signed) < w.notBefore <= signed && signed <= w.notAfter) &&
            !(TruncateToSecond(signed) <= w.notAfter < signed && w.notBefore <= TruncateToSecond(signed))
  {
  }

  /** Certificates carry whole seconds: a signing instant inside such a leaf's window is admitted
      on the wire, and one past its end by less than a second is too. */
  lemma WholeSecondLeaf(env: Env, chain: seq<bytes>, signed: Time)
    requires chain != [] && env.certWindow(chain[0]).Some?
    requires env.certWindow(chain[0]).value.notBefore % SECOND == 0
    ensures var w := env.certWindow(chain[0]).value;
            CheckSignerWindow(env, chain, TruncateToSecond(signed)).Ok? <==>
            w.notBefore <= signed && TruncateToSecond(signed) <= w.notAfter
  {
  }

  /** A window whose two ends are set and in order. */
  predicate Coherent(v: ValidityInfo) {
    v.validFrom != ZERO_TIME && v.validUntil != ZERO_TIME && v.validFrom < v.validUntil
  }

  /** The verdict on the wire is the issuer's own exactly when the window was incoherent anyway, or
      stays coherent with the instant neither in the fraction before validFrom (accepted on the
      wire, too early for the issuer) nor in the fraction before validUntil (refused on the wire,
      still valid for the issuer). */
  lemma ValidityOnTheWire(v: ValidityInfo, at: Time)
    ensures CheckValidity(Truncated(v), at) == CheckValidity(v, at) <==>
            !Coherent(v) ||
            (Coherent(Truncated(v)) &&
             !(TruncateToSecond(v.validFrom) <= at < v.validFrom) &&
             !(TruncateToSecond(v.validUntil) < at <= v.validUntil))
  {
    TruncationOrder(v.validFrom, v.validUntil);
  }

  lemma TruncationOrder(a: Time, b: Time)
    ensures TruncateToSecond(a) <= a < TruncateToSecond(a) + SECOND
    ensures a <= b ==> TruncateToSecond(a) <= TruncateToSecond(b)
    ensures TruncateToSecond(a) < TruncateToSecond(b) ==> TruncateToSecond(a) + SECOND <= TruncateToSecond(b)
    ensures TruncateToSecond(ZERO_TIME) == ZERO_TIME
  {
  }

  /** Two instants on which the verdicts differ, for a window from 10.5 s to 20.5 s: 10.2 s is
      accepted early, 20.3 s refused early. */
  lemma ValidityDiffers()
    ensures var half := SECOND / 2;
            var v := ValidityInfo(SECOND, 10 * SECOND + half, 20 * SECOND + half, None);
            var early, late := 10 * SECOND + SECOND / 5, 20 * SECOND + 3 * (SECOND / 10);
            CheckValidity(v, early) == Err(ErrValidity) && CheckValidity(Truncated(v), early) == Ok(()) &&
            CheckValidity(v, late) == Ok(()) && CheckValidity(Truncated(v), late) == Err(ErrValidity)
  {
  }

  // ----- the credential as the wallet decodes it -----

  lemma StoredItems(env: Env, e: Issuance)
    requires Ran(env, e)
    ensures NameSpacesOk(Stored(env, e)) && FlatItems(Stored(env, e))
  {
    hide BuildItem, RawOk, Embed, InLimits, ValidPicks;
    forall ns, r | ns in Stored(env, e) && r in Stored(env, e)[ns]
      ensures r != [] && RawOk(r) && InLimits(Embed(r), 0)
    {
      var picks, elems := e.ch[ns], e.t.namespaces[ns];
      var k :| 0 <= k < |picks| && BuiltItems(env, elems, picks)[k] == r;
      BuiltItemIsFlat(env, k, picks[k], elems[picks[k].id]);
    }
  }

  lemma StoredFits(env: Env, e: Issuance)
    requires Ran(env, e) && ObjectReads(env, e.t)
    ensures ItemsInLimits(Stored(env, e)) && NamesReadable(Stored(env, e))
  {
    hide Utf8, WireValidity, Stored, Ran, Tables;
    TableSizes(env, e);
  }

  lemma IssuerSignedDecodes(s: IssuerSigned)
    requires IssuerSignedOk(s) && NamesReadable(s.nameSpaces) && ItemsInLimits(s.nameSpaces) && FlatItems(s.nameSpaces)
    requires InLimits(Embed(s.issuerAuth), 3) && EncodeIssuerSigned(s).Ok?
    ensures DecodeIssuerSigned(EncodeIssuerSigned(s).value) == Ok(s)
  {
    hide IssuerSignedOk, NamesReadable, ItemsInLimits, FlatItems, InLimits, Embed, Decode, MkStruct,
         IssuerSignedFields, ReadIssuerSigned, IssuerSignedRawOk, WF, Print;
    var x := MkStruct(IssuerSignedFields(s));
    InLimitsMonotone(Embed(s.issuerAuth), 3, MAX_NESTED_LEVELS - 1);
    IssuerSignedInLimits(s, MAX_NESTED_LEVELS);
    DecodeEncode(x);
    ReadIssuerSignedFields(s);
  }

  /** What decodes at all decodes to what was encoded. */
  lemma IssuerSignedFaithful(s: IssuerSigned)
    requires IssuerSignedOk(s) && EncodeIssuerSigned(s).Ok?
    ensures DecodeIssuerSigned(EncodeIssuerSigned(s).value).Ok? ==>
            DecodeIssuerSigned(EncodeIssuerSigned(s).value) == Ok(s)
  {
    hide IssuerSignedOk, NamesReadable, InLimits, Decode, MkStruct, IssuerSignedFields, ReadIssuerSigned,
         IssuerSignedRawOk, WF, Print;
    DecodeEncode(MkStruct(IssuerSignedFields(s)));
    ReadIssuerSignedFields(s);
  }

  /** The wallet decodes exactly the namespaces and the issuerAuth that were put in, always when
      the object reads. */
  lemma CredentialDecodes(env: Env, issuer: Issuer, e: Issuance)
    requires ValidChoices(e.t, e.ch) && ChoicesInTemplate(e.t, e.ch)
    requires Issue(env, issuer, e.t, e.deviceKey, e.ch).Ok? && ChainFits(issuer.x5chain)
    ensures Ran(env, e) && SealedMso(env, e).Ok? && SealedAuth(env, issuer, e).Ok?
    ensures var s := DecodeIssuerSigned(Issue(env, issuer, e.t, e.deviceKey, e.ch).value);
            (s.Ok? ==> s.value == IssuerSigned(Stored(env, e), SealedAuth(env, issuer, e).value)) &&
            (ObjectReads(env, e.t) ==> s.Ok?)
    ensures var auth := SealedAuth(env, issuer, e).value; auth != [] && RawOk(auth) && InLimits(Embed(auth), 3)
  {
    hide ObjectReads, Issue, SealedMso, Stored, SignCOSEWithX5Chain, EncodeIssuerSigned, ToBeSigned,
         DecodeIssuerSigned, Ran, ValidChoices, ChoicesInTemplate;
    hide ChainedParts, CoseParts, X5ChainFrom, VerifyParts, InLimits, Embed, RawOk, NameSpacesOk,
         FlatItems, ItemsInLimits, NamesReadable, Print, MkBlob;
    IssueUnfolds(env, issuer, e);
    SealedAuthShape(env, issuer.signer, issuer.x5chain, SealedMso(env, e).value);
    StoredItems(env, e);
    var s := IssuerSigned(Stored(env, e), SealedAuth(env, issuer, e).value);
    IssuerSignedFaithful(s);
    if ObjectReads(env, e.t) {
      StoredFits(env, e);
      IssuerSignedDecodes(s);
    }
  }
}
