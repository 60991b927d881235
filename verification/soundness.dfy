/**
 Whatever happened before - any number of issuings and presentations, in any order, by keys
 that may even play both roles - a response that verifies is a part of something really
 issued, presented by the key it was issued for, in this very session.

 Signatures of honest keys are ideal: what such a key accepts was signed in the run. Other keys
 are unconstrained. Hashing is arbitrary: a digest collision is named where it is the only
 alternative.
 */
module Soundness {
  import opened Basics
  import opened CborSyntax
  import opened Codec
  import opened Structs
  import opened Primitives
  import opened GoValues
  import opened Cose
  import opened CoseSign1
  import opened CoseKey
  import opened Wire
  import opened Responses
  import opened StatusRefs
  import opened Issuing
  import opened IssuerAuthentication
  import opened IssuerIntegrity
  import opened IssuedCredentials
  import opened DeviceAuthentication
  import opened Verification

  // ----- runs and ideal signatures -----

  /** One presentation: the transcript and the document type the device signed for. */
  datatype Session = Session(st: bytes, docType: bytes)

  /** What an honest key does: seal an object it issues, or sign a session it presents in. */
  datatype Event =
    | Sealed(key: PublicKey, e: Issuance)
    | Presented(key: PublicKey, s: Session)

  ghost function SessionBytes(s: Session): Result<bytes> {
    var nameSpaces :- EmptyDeviceNameSpaces();
    DeviceAuthenticationBytes(s.st, s.docType, nameSpaces)
  }

  /** The payload an event hands to the signing call. */
  ghost predicate Payload(env: Env, ev: Event, payload: bytes) {
    match ev
    case Sealed(_, e) => Ran(env, e) && SealedMso(env, e) == Ok(payload)
    case Presented(_, s) => SessionBytes(s) == Ok(payload)
  }

  ghost predicate Signs(env: Env, ev: Event, tbs: bytes, protected: bytes, payload: bytes) {
    Payload(env, ev, payload) && |protected| < MAX_LENGTH && |payload| < MAX_LENGTH &&
      tbs == ToBeSigned(protected, payload)
  }

  /** A signature an honest key accepts was made by that key, in some event of the run. */
  ghost predicate Unforgeable(env: Env, run: seq<Event>, honest: iset<PublicKey>) {
    forall key, tbs, sig | key in honest && env.sigOk(key, tbs, sig) ::
      exists ev, protected, payload :: ev in run && ev.key == key && Signs(env, ev, tbs, protected, payload)
  }

  /** The trust boundary resolves to honest issuers only. */
  ghost predicate TrustsHonest(trust: Trust, honest: iset<PublicKey>) {
    forall chain, signed | trust(chain, signed).Some? :: trust(chain, signed).value in honest
  }

  /** Who signed a payload. */
  lemma WhoSigned(env: Env, run: seq<Event>, honest: iset<PublicKey>, key: PublicKey, protected: bytes,
      payload: bytes, sig: bytes)
    returns (ev: Event)
    requires Unforgeable(env, run, honest) && key in honest
    requires |protected| < MAX_LENGTH && |payload| < MAX_LENGTH && env.sigOk(key, ToBeSigned(protected, payload), sig)
    ensures ev in run && ev.key == key && Payload(env, ev, payload)
  {
    hide ToBeSigned, Payload;
    var who, p, m :| who in run && who.key == key && Signs(env, who, ToBeSigned(protected, payload), p, m);
    ToBeSignedInjective(protected, payload, p, m);
    ev := who;
  }

  // ----- the two kinds of payload never meet -----

  lemma StructIsNoArray(f: Fields, items: seq<Item>)
    ensures MkStruct(f) != MkArray(items)
  {
  }

  /** The bytes an issuer seals are never the bytes of a session, so one key may play both roles. */
  lemma SealedIsNoSession(env: Env, e: Issuance, st: bytes, docType: bytes, nameSpaces: bytes)
    requires Ran(env, e) && SealedMso(env, e).Ok?
    ensures SealedMso(env, e) != DeviceAuthenticationBytes(st, docType, nameSpaces)
  {
    hide Ran, SealedMso, MkStruct, MkArray, EncodeTagged24, MsoFields, RawOk, Embed, MkText, Ascii;
    SealedMsoParts(env, e);
    var m := MsoOf(env, e);
    if SealedMso(env, e) == DeviceAuthenticationBytes(st, docType, nameSpaces) {
      var items := [MkText(Ascii("DeviceAuthentication")), Embed(st), MkText(docType), Embed(nameSpaces)];
      Tagged24Injective(MkStruct(MsoFields(env, m)), MkArray(items));
      StructIsNoArray(MsoFields(env, m), items);
    }
  }

  lemma ArrayIsNoStruct(env: Env, items: seq<Item>)
    ensures ReadMso(env, MkArray(items)) == None
  {
    assert FieldsOf(MkArray(items)) == None;
  }

  lemma NotAnMso(env: Env, x: Item)
    requires EncodeTagged24(x).Ok? && ReadMso(env, x) == None
    ensures DecodeMso(env, EncodeTagged24(x).value) == Err(ErrMalformed)
  {
    hide EncodeTagged24, DecodeTagged24, Print, WF, InLimits, ParseWhole, Untag24, ReadMso, MkBlob;
    Tagged24RoundTrip(x);
  }

  /** A session's bytes never decode as a signed object. */
  lemma SessionIsNoMso(env: Env, s: Session)
    requires SessionBytes(s).Ok?
    ensures DecodeMso(env, SessionBytes(s).value) == Err(ErrMalformed)
  {
    hide EmptyDeviceNameSpaces, RawOk, Embed, MkText, EncodeTagged24, MkArray, ReadMso, DecodeMso, Ascii;
    var nameSpaces := EmptyDeviceNameSpaces().value;
    ArrayIsNoStruct(env, [MkText(Ascii("DeviceAuthentication")), Embed(s.st), MkText(s.docType), Embed(nameSpaces)]);
    NotAnMso(env, DeviceAuthArray(s.st, s.docType, nameSpaces));
  }

  // ----- issuer authentication -----

  lemma VerifiedPayload(env: Env, p: Parts, key: PublicKey) returns (protected: bytes, sig: bytes)
    requires VerifyParts(env, p, key).Some?
    ensures |protected| < MAX_LENGTH && |VerifyParts(env, p, key).value| < MAX_LENGTH
    ensures env.sigOk(key, ToBeSigned(protected, VerifyParts(env, p, key).value), sig)
  {
    hide BlobOf, ToBeSigned;
    protected, sig := BlobOf(p.protected).value, BlobOf(p.signature).value;
    BlobOfFits(p.protected);
    BlobOfFits(p.payload);
  }

  /** An object that verifies under an honest key was sealed by that key in the run. */
  lemma ObjectWasSealed(env: Env, p: Parts, key: PublicKey, run: seq<Event>, honest: iset<PublicKey>)
      returns (e: Issuance)
    requires VerifyParts(env, p, key).Some? && DecodeMso(env, VerifyParts(env, p, key).value).Ok?
    requires Unforgeable(env, run, honest) && key in honest
    ensures Sealed(key, e) in run && Ran(env, e) && SealedMso(env, e) == Ok(VerifyParts(env, p, key).value)
  {
    hide VerifyParts, ToBeSigned, Ran, SealedMso, DecodeMso, SessionBytes, Unforgeable;
    var payload := VerifyParts(env, p, key).value;
    var protected, sig := VerifiedPayload(env, p, key);
    var ev := WhoSigned(env, run, honest, key, protected, payload, sig);
    if ev.Presented? {
      SessionIsNoMso(env, ev.s);
    } else {
      e := ev.e;
    }
  }

  /** The object and the device key are those of the run. */
  ghost predicate AuthenticatedFrom(env: Env, e: Issuance, a: Authenticated) {
    Ran(env, e) && SealedMso(env, e).Ok? && a.deviceKey == e.deviceKey &&
    a.mso.docType == e.t.docType && a.mso.digestAlgorithm == TemplateAlg(e.t) && a.mso.valueDigests == Tables(env, e) &&
    Some(a.mso.validityInfo) == WireValidity(env, e.t.validityInfo) && EncodeStatus(e.t.status) == Ok(a.mso.status)
  }

  lemma SealedContent(env: Env, e: Issuance, a: Authenticated)
    requires Ran(env, e) && SealedMso(env, e).Ok? && DecodeMso(env, SealedMso(env, e).value) == Ok(a.mso)
    requires ParseCOSEKey(env, a.mso.deviceKey) == Ok(a.deviceKey)
    ensures AuthenticatedFrom(env, e, a)
  {
    hide SealedMso, SealedKey, EncodeStatus, Tables, Ran, TemplateAlg, AllowedDigestAlg, ParseCOSEKey,
         WireValidity, MsoReadable, InLimits, MkStruct, MsoFields, DecodeMso;
    SealedMsoReads(env, e);
    SealedMsoParts(env, e);
    SealedKeyFacts(env, e.t, e.deviceKey);
  }

  lemma AuthenticationIsSound(env: Env, issuerAuth: bytes, trust: Trust, at: Time, run: seq<Event>,
      honest: iset<PublicKey>)
    returns (ev: Event)
    requires VerifyIssuerAuth(env, issuerAuth, trust, at).Ok?
    requires Unforgeable(env, run, honest) && TrustsHonest(trust, honest)
    ensures ev in run && ev.Sealed? && ev.key in honest
    ensures AuthenticatedFrom(env, ev.e, VerifyIssuerAuth(env, issuerAuth, trust, at).value)
  {
    hide VerifyIssuerAuth, CoseParts, X5ChainFrom, VerifyParts, DecodeMso, ParseCOSEKey, AllowedDigestAlg,
         Unforgeable, AuthenticatedFrom, Ran, SealedMso;
    var p, chain, key := AcceptedIssuerAuth(env, issuerAuth, trust, at);
    var e := ObjectWasSealed(env, p, key, run, honest);
    SealedContent(env, e, VerifyIssuerAuth(env, issuerAuth, trust, at).value);
    ev := Sealed(key, e);
  }

  // ----- integrity -----

  /** Two different byte strings with one digest. */
  predicate Collision(env: Env, alg: bytes, a: bytes, b: bytes) {
    a != b && env.hash(alg, a) == env.hash(alg, b)
  }

  /** The element is one of the template's, with the value that encoding and decoding give. */
  predicate ElementIssued(env: Env, t: DocumentTemplate, ns: bytes, id: bytes, v: GoVal) {
    ns in t.namespaces && id in t.namespaces[ns] && Received(env, t.namespaces[ns][id]) == Some(v)
  }

  /** Some presented item collides with some issued item of the same namespace. */
  ghost predicate ForgedDigest(env: Env, e: Issuance, ns: bytes, items: seq<bytes>)
    requires Ran(env, e)
  {
    ns in Stored(env, e) &&
    exists a, b :: a in items && b in Stored(env, e)[ns] && Collision(env, TemplateAlg(e.t), a, b)
  }

  lemma ListedItem(env: Env, alg: bytes, stored: seq<bytes>, raw: bytes) returns (k: nat)
    requires Matches(env, alg, DigestsOf(env, alg, stored), raw)
    ensures k < |stored| && env.hash(alg, stored[k]) == env.hash(alg, raw)
  {
    hide DecodeIssuerSignedItem, ReadItem;
    k := DecodeIssuerSignedItem(raw).value.digestID;
  }

  lemma ItemIsSound(env: Env, e: Issuance, ns: bytes, items: seq<bytes>, i: nat)
    requires Ran(env, e) && ns in Stored(env, e) && i < |items| &&
             Matches(env, TemplateAlg(e.t), Tables(env, e)[ns], items[i])
    requires !ForgedDigest(env, e, ns, items)
    ensures ElementIssued(env, e.t, ns, ReadItem(env, items[i]).value.id, ReadItem(env, items[i]).value.value)
  {
    hide BuildItem, ReadItem, Listed, Utf8, ValueFits, Received, ValueItem, TemplateAlg, ValidPicks, DigestsOf, Ran,
           Stored,
         Tables, BuiltItems, Encodable, DecodeIssuerSignedItem;
    assert ReadItem(env, items[i]).Some?;
    TableSizes(env, e);
    StoredAt(env, e, ns);
    var elems, picks := e.t.namespaces[ns], e.ch[ns];
    var stored := Stored(env, e)[ns];
    var k := ListedItem(env, TemplateAlg(e.t), stored, items[i]);
    hide Matches;
    assert items[i] in items && stored[k] in stored;
    assert items[i] == stored[k];
    BuiltItemReads(env, k, picks[k], elems[picks[k].id]);
  }

  /** Every element of the verified map was issued, unless an explicit collision is at hand. */
  ghost predicate NameSpaceIssued(env: Env, e: Issuance, ns: bytes, items: seq<bytes>, out: map<bytes, GoVal>)
    requires Ran(env, e)
  {
    ns in e.t.namespaces &&
    (ForgedDigest(env, e, ns, items) || forall id | id in out :: ElementIssued(env, e.t, ns, id, out[id]))
  }

  lemma NameSpaceIsSound(env: Env, e: Issuance, mso: MobileSecurityObject, ns: bytes, items: seq<bytes>,
      out: map<bytes, GoVal>)
    requires Ran(env, e) && mso.digestAlgorithm == TemplateAlg(e.t) && mso.valueDigests == Tables(env, e)
    requires NameSpaceMatches(env, mso, ns, items) && LastOccurrences(env, items, out)
    ensures NameSpaceIssued(env, e, ns, items, out)
  {
    hide ReadItem, Matches, ElementIssued, ForgedDigest, Ran, Tables, Stored, TemplateAlg;
    assert ns in Stored(env, e) && ns in e.t.namespaces by { TableSizes(env, e); }
    if !ForgedDigest(env, e, ns, items) {
      forall id | id in out ensures ElementIssued(env, e.t, ns, id, out[id]) {
        var i: nat :| LastAt(env, items, i, Checked(id, out[id]));
        ItemIsSound(env, e, ns, items, i);
      }
    }
  }

  // ----- a verified document -----

  /** What a verified document owes to the run that backs it. */
  ghost predicate BackedBy(env: Env, e: Issuance, doc: Document, vd: VerifiedDocument) {
    Ran(env, e) && vd.docType == e.t.docType && vd.deviceKey == e.deviceKey && vd.msoDigestAlg == TemplateAlg(e.t) &&
    WireValidity(env, e.t.validityInfo) == Some(vd.validityInfo) && WireStatus(e.t.status) == Ok(vd.status) &&
    vd.namespaces.Keys == doc.issuerSigned.nameSpaces.Keys &&
    forall ns | ns in vd.namespaces ::
      NameSpaceIssued(env, e, ns, doc.issuerSigned.nameSpaces[ns], vd.namespaces[ns])
  }

  lemma VerifiedParts(env: Env, doc: Document, st: bytes, trust: Trust, at: Time)
    requires VerifyDocument(env, doc, st, trust, at).Some?
    ensures VerifyIssuerAuth(env, doc.issuerSigned.issuerAuth, trust, at).Ok?
    ensures var a := VerifyIssuerAuth(env, doc.issuerSigned.issuerAuth, trust, at).value;
            var vd := VerifyDocument(env, doc, st, trust, at).value;
            a.mso.docType == doc.docType == vd.docType &&
            Integrity(env, a.mso, doc.issuerSigned.nameSpaces) == Some(vd.namespaces) &&
            VerifyDeviceAuth(env, doc, a.deviceKey, st).Ok? && vd.deviceKey == a.deviceKey &&
            ParseMSOStatus(env, a.mso.status) == Ok(vd.status) &&
            vd.validityInfo == a.mso.validityInfo && vd.msoDigestAlg == a.mso.digestAlgorithm
  {
    hide VerifyIssuerAuth, Integrity, VerifyDeviceAuth, ParseMSOStatus;
  }

  lemma IntegrityIsSound(env: Env, e: Issuance, mso: MobileSecurityObject, ns: NameSpaceItems)
    requires Ran(env, e) && mso.digestAlgorithm == TemplateAlg(e.t) && mso.valueDigests == Tables(env, e)
    requires Integrity(env, mso, ns).Some?
    ensures Integrity(env, mso, ns).value.Keys == ns.Keys
    ensures forall n | n in ns :: NameSpaceIssued(env, e, n, ns[n], Integrity(env, mso, ns).value[n])
  {
    hide Integrity, Ran, Tables, TemplateAlg, NameSpaceMatches, LastOccurrences, NameSpaceIssued,
         AllowedDigestAlg;
    IntegrityExact(env, mso, ns);
    forall n | n in ns ensures NameSpaceIssued(env, e, n, ns[n], Integrity(env, mso, ns).value[n]) {
      NameSpaceIsSound(env, e, mso, n, ns[n], Integrity(env, mso, ns).value[n]);
    }
  }

  /** Some run sealed by an honest issuer backs the document. */
  ghost predicate Issued(env: Env, run: seq<Event>, honest: iset<PublicKey>, doc: Document, vd: VerifiedDocument) {
    exists key, e :: key in honest && Sealed(key, e) in run && BackedBy(env, e, doc, vd)
  }

  lemma DocumentIsSound(env: Env, doc: Document, st: bytes, trust: Trust, at: Time, run: seq<Event>,
      honest: iset<PublicKey>)
    requires VerifyDocument(env, doc, st, trust, at).Some?
    requires Unforgeable(env, run, honest) && TrustsHonest(trust, honest)
    ensures Issued(env, run, honest, doc, VerifyDocument(env, doc, st, trust, at).value)
  {
    hide VerifyIssuerAuth, Integrity, VerifyDeviceAuth, ParseMSOStatus, VerifyDocument, Unforgeable,
         TrustsHonest, Ran, Tables, TemplateAlg, WireValidity;
    hide WireStatus, NameSpaceIssued, EncodeStatus, SealedMso, InLimits, RawOk, Embed;
    VerifiedParts(env, doc, st, trust, at);
    var a := VerifyIssuerAuth(env, doc.issuerSigned.issuerAuth, trust, at).value;
    var ev := AuthenticationIsSound(env, doc.issuerSigned.issuerAuth, trust, at, run, honest);
    IntegrityIsSound(env, ev.e, a.mso, doc.issuerSigned.nameSpaces);
    StatusReadBack(env, ev.e.t.status);
    assert ev == Sealed(ev.key, ev.e) && BackedBy(env, ev.e, doc, VerifyDocument(env, doc, st, trust, at).value);
  }

  /** Soundness. Whatever bytes are presented, after whatever run: if they verify, each document
      returned is a part of one credential an honest issuer sealed in the run. Its document
      type, algorithm, validity, status and device key are the ones sealed there, and every
      element carries the template's value as encoding and decoding give it, or a digest
      collision is exhibited. */
  lemma VerifiedIsIssued(env: Env, input: VerifyInput, at: Time, run: seq<Event>, honest: iset<PublicKey>)
    requires Verified(env, input, at).Some?
    requires Unforgeable(env, run, honest) && TrustsHonest(input.issuerTrust.value, honest)
    ensures DecodeDeviceResponse(input.deviceResponse).Ok?
    ensures var docs, out := DecodeDeviceResponse(input.deviceResponse).value.documents, Verified(env, input, at).value;
            |out| == |docs| && forall i | 0 <= i < |out| :: Issued(env, run, honest, docs[i], out[i])
  {
    hide DecodeDeviceResponse, VerifyDocument, Unforgeable, TrustsHonest, Verified, DocTypeExpected, Issued;
    VerifiedNeeds(env, input, at);
    var docs, out := DecodeDeviceResponse(input.deviceResponse).value.documents, Verified(env, input, at).value;
    forall i | 0 <= i < |out| ensures Issued(env, run, honest, docs[i], out[i]) {
      DocumentIsSound(env, docs[i], input.sessionTranscript, input.issuerTrust.value, at, run, honest);
    }
  }

  /** No two byte strings share a digest. */
  ghost predicate CollisionFree(env: Env) {
    forall alg, a, b | env.hash(alg, a) == env.hash(alg, b) :: a == b
  }

  /** Under an injective hash every element returned was issued. */
  lemma InjectiveHashElements(env: Env, e: Issuance, doc: Document, vd: VerifiedDocument)
    requires CollisionFree(env) && BackedBy(env, e, doc, vd)
    ensures forall ns, id | ns in vd.namespaces && id in vd.namespaces[ns] ::
            ElementIssued(env, e.t, ns, id, vd.namespaces[ns][id])
  {
    hide ElementIssued, Ran, Stored, TemplateAlg, WireValidity, WireStatus;
    forall ns, id | ns in vd.namespaces && id in vd.namespaces[ns] ensures ElementIssued(env, e.t, ns, id,
      vd.namespaces[ns][id]) {
      assert NameSpaceIssued(env, e, ns, doc.issuerSigned.nameSpaces[ns], vd.namespaces[ns]);
    }
  }

  // ----- the session -----

  lemma SignedSession(env: Env, run: seq<Event>, honest: iset<PublicKey>, key: PublicKey, st: bytes, docType: bytes,
      nameSpaces: bytes)
    returns (s: Session)
    requires Unforgeable(env, run, honest) && key in honest
    requires var payload := DeviceAuthenticationBytes(st, docType, nameSpaces);
             payload.Ok? && |payload.value| < MAX_LENGTH && DeviceSignedOff(env, key, payload.value)
    ensures Presented(key, s) in run && SessionBytes(s) == DeviceAuthenticationBytes(st, docType, nameSpaces)
  {
    hide ToBeSigned, DeviceAuthenticationBytes, SessionBytes, Unforgeable, Ran, SealedMso;
    var payload := DeviceAuthenticationBytes(st, docType, nameSpaces).value;
    var protected, sig :| |protected| < MAX_LENGTH && env.sigOk(key, ToBeSigned(protected, payload), sig);
    var ev := WhoSigned(env, run, honest, key, protected, payload, sig);
    if ev.Sealed? {
      SealedIsNoSession(env, ev.e, st, docType, nameSpaces);
    } else {
      s := ev.s;
    }
  }

  lemma WireFormGiven(raw: bytes)
    requires raw != []
    ensures WireForm(raw) == raw
  {
  }

  lemma NoNameSpacesIsNotNull()
    ensures EmptyDeviceNameSpaces().Ok? ==>
              EmptyDeviceNameSpaces().value != [] && EmptyDeviceNameSpaces().value != Print(Null)
  {
    var x := MkTag(24, MkBlob(Print(NO_NAMESPACES)));
    assert Print(x)[0] == HeadBytes(6, 1, 24)[0] == 216;
    assert Print(Null)[0] == HeadBytes(7, 0, 22)[0] == 246;
  }

  /** The key presented this document type over this transcript. A transcript of CBOR null also
      stands for an empty one, which signs as null. */
  ghost predicate InSession(run: seq<Event>, key: PublicKey, st: bytes, docType: bytes) {
    exists s :: Presented(key, s) in run && WireForm(s.st) == st && s.docType == docType
  }

  /** An accepted document belongs to a session its device key presented in, and carries no
      device namespaces. */
  lemma AcceptedSession(env: Env, doc: Document, deviceKey: PublicKey, st: bytes, run: seq<Event>,
      honest: iset<PublicKey>)
    requires VerifyDeviceAuth(env, doc, deviceKey, st).Ok? && Unforgeable(env, run, honest) && deviceKey in honest
    ensures InSession(run, deviceKey, st, doc.docType)
    ensures EmptyDeviceNameSpaces() == Ok(doc.deviceSigned.nameSpaces)
  {
    hide VerifyDeviceAuth, Unforgeable, DeviceSignedOff, DeviceAuthenticationBytes, EmptyDeviceNameSpaces;
    AcceptedDeviceAuth(env, doc, deviceKey, st);
    var ns := doc.deviceSigned.nameSpaces;
    var s := SignedSession(env, run, honest, deviceKey, st, doc.docType, ns);
    DeviceAuthenticationInjective(st, doc.docType, ns, s.st, s.docType, EmptyDeviceNameSpaces().value);
    WireFormGiven(st);
    NoNameSpacesIsNotNull();
    assert Presented(deviceKey, s) in run && WireForm(s.st) == st && s.docType == doc.docType;
  }

  lemma DocumentIsBound(env: Env, doc: Document, st: bytes, trust: Trust, at: Time, run: seq<Event>,
      honest: iset<PublicKey>)
    requires VerifyDocument(env, doc, st, trust, at).Some? && Unforgeable(env, run, honest)
    requires VerifyDocument(env, doc, st, trust, at).value.deviceKey in honest
    ensures var vd := VerifyDocument(env, doc, st, trust, at).value; InSession(run, vd.deviceKey, st, vd.docType)
  {
    hide VerifyIssuerAuth, Integrity, VerifyDeviceAuth, ParseMSOStatus, VerifyDocument, Unforgeable,
         EmptyDeviceNameSpaces, InSession;
    VerifiedParts(env, doc, st, trust, at);
    AcceptedSession(env, doc, VerifyDocument(env, doc, st, trust, at).value.deviceKey, st, run, honest);
  }

  /** Session binding. Every returned document whose device key is honest was presented by that
      key, for this document type, over the verifier's own transcript. */
  lemma VerifiedIsPresented(env: Env, input: VerifyInput, at: Time, run: seq<Event>, honest: iset<PublicKey>)
    requires Verified(env, input, at).Some? && Unforgeable(env, run, honest)
    ensures forall vd | vd in Verified(env, input, at).value && vd.deviceKey in honest ::
              InSession(run, vd.deviceKey, input.sessionTranscript, vd.docType)
  {
    hide DecodeDeviceResponse, VerifyDocument, Unforgeable, Verified, DocTypeExpected, InSession;
    VerifiedNeeds(env, input, at);
    var docs, out := DecodeDeviceResponse(input.deviceResponse).value.documents, Verified(env, input, at).value;
    forall i | 0 <= i < |out| && out[i].deviceKey in honest
      ensures InSession(run, out[i].deviceKey, input.sessionTranscript, out[i].docType)
    {
      DocumentIsBound(env, docs[i], input.sessionTranscript, input.issuerTrust.value, at, run, honest);
    }
  }

  /** A response is refused in every session its holder never presented in: if some document
      authenticates to an honest device key with no presentation over the verifier's transcript
      in the run, nothing is returned. */
  lemma ReplayIsRefused(env: Env, input: VerifyInput, at: Time, run: seq<Event>, honest: iset<PublicKey>, doc: Document)
    requires input.issuerTrust.Some? && DecodeDeviceResponse(input.deviceResponse).Ok?
    requires doc in DecodeDeviceResponse(input.deviceResponse).value.documents && Unforgeable(env, run, honest)
    requires var a := VerifyIssuerAuth(env, doc.issuerSigned.issuerAuth, input.issuerTrust.value, at);
             a.Ok? ==> a.value.deviceKey in honest && !InSession(run, a.value.deviceKey, input.sessionTranscript,
               doc.docType)
    ensures Verified(env, input, at).None?
  {
    hide DecodeDeviceResponse, VerifyDocument, Unforgeable, Verified, DocTypeExpected, InSession,
         VerifyIssuerAuth, Integrity, VerifyDeviceAuth, ParseMSOStatus;
    if Verified(env, input, at).Some? {
      VerifiedNeeds(env, input, at);
      var docs := DecodeDeviceResponse(input.deviceResponse).value.documents;
      var i :| 0 <= i < |docs| && docs[i] == doc;
      VerifiedParts(env, doc, input.sessionTranscript, input.issuerTrust.value, at);
      DocumentIsBound(env, doc, input.sessionTranscript, input.issuerTrust.value, at, run, honest);
    }
  }
}
