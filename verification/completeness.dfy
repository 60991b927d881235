/** Every honest run verifies, to exactly what was disclosed. */
module Completeness {
  import opened Basics
  import opened CborSyntax
  import opened Codec
  import opened Structs
  import opened Primitives
  import opened GoValues
  import opened Cose
  import opened CoseSign1
  import opened CoseKey
  import opened Wire
  import opened Responses
  import opened StatusRefs
  import opened Issuing
  import opened IssuerAuthentication
  import opened IssuerIntegrity
  import opened IssuedCredentials
  import opened Credentials
  import opened Presenting
  import opened DeviceAuthentication
  import opened DevicePresenting
  import opened Verification

  // ----- what the wallet selects -----

  /** Every stored item of the namespace reads. */
  predicate ElementsRead(env: Env, elems: Issuing.Elements) {
    forall id | id in elems :: ElementReads(env, id, elems[id])
  }

  /** The template has the namespace with every identifier asked for, and its items read. */
  predicate Offers(env: Env, t: DocumentTemplate, n: bytes, ids: seq<bytes>) {
    n in t.namespaces && ElementsRead(env, t.namespaces[n]) && forall id | id in ids :: id in t.namespaces[n]
  }

  /** What a caller can check before issuing: the object reads, the requested namespaces read, and
      everything requested is in the template. */
  predicate Presentable(env: Env, t: DocumentTemplate, disclose: Request) {
    ObjectReads(env, t) && forall n | n in disclose :: Offers(env, t, n, disclose[n])
  }

  lemma StoredIds(env: Env, elems: Issuing.Elements, picks: seq<Pick>)
    requires ValidPicks(elems, picks) && Encodable(env, elems, picks)
    ensures Parses(BuiltItems(env, elems, picks)) <==> ElementsRead(env, elems)
    ensures ElementsRead(env, elems) ==> forall id :: Carries(BuiltItems(env, elems, picks), id) <==> id in elems
  {
    hide IdAt, ReadItem, BuildItem, ElementReads, ElementArrives, Received;
    var items := BuiltItems(env, elems, picks);
    forall k | 0 <= k < |items|
      ensures IdAt(items[k]) == if ElementReads(env, picks[k].id, elems[picks[k].id]) then Some(picks[k].id) else None
    {
      BuiltItemReads(env, k, picks[k], elems[picks[k].id]);
    }
    hide BuiltItems;
    if Parses(items) {
      forall id | id in elems ensures ElementReads(env, id, elems[id]) {
        var k: nat :| k < |picks| && picks[k].id == id;
        assert IdAt(items[k]).Some?;
      }
    }
    if ElementsRead(env, elems) {
      forall id | id in elems ensures Carries(items, id) {
        var k: nat :| k < |picks| && picks[k].id == id;
        assert IdAt(items[k]) == Some(id);
      }
    }
  }

  lemma SelectedParses(ns: NameSpaceItems, n: bytes, ids: seq<bytes>)
    requires SelectNameSpace(ns, n, ids).Ok?
    ensures n in ns && Parses(ns[n])
  {
    var at := SelectExact(ns[n], IdsOf(ids));
    hide Select, Parses, FirstOccurrences;
  }

  lemma NameSpaceOffered(env: Env, e: Issuance, n: bytes, ids: seq<bytes>)
    requires Ran(env, e)
    ensures SelectNameSpace(Stored(env, e), n, ids).Ok? <==> Offers(env, e.t, n, ids)
  {
    var ns := Stored(env, e);
    assert ns.Keys == e.t.namespaces.Keys;
    if n in e.t.namespaces {
      assert ns[n] == BuiltItems(env, e.t.namespaces[n], e.ch[n]);
      StoredIds(env, e.t.namespaces[n], e.ch[n]);
    }
    hide Parses, Carries, ElementsRead, Stored, Ran, SelectNameSpace, BuiltItems;
    if SelectNameSpace(ns, n, ids).Ok? {
      SelectedParses(ns, n, ids);
      SelectNameSpaceExact(ns, n, ids);
    }
    if Offers(env, e.t, n, ids) {
      SelectNameSpaceExact(ns, n, ids);
    }
  }

  /** Selecting from an issued credential succeeds exactly when every requested namespace reads and
      offers what is asked for. */
  lemma SelectionFromIssued(env: Env, e: Issuance, disclose: Request)
    requires Ran(env, e)
    ensures SelectDisclosed(Stored(env, e), disclose).Some? <==>
            forall n | n in disclose :: Offers(env, e.t, n, disclose[n])
  {
    hide SelectNameSpace, Stored, Ran, Offers;
    var ns := Stored(env, e);
    forall n | n in disclose
      ensures SelectEach(ns, disclose)[n].Some? <==> Offers(env, e.t, n, disclose[n])
    {
      NameSpaceOffered(env, e, n, disclose[n]);
    }
  }

  lemma KeptStep(front: seq<bytes>, raw: bytes, s: Selection)
    requires |s.kept| <= |front| && (forall r | r in s.kept :: r in front) && SelectStep(s, raw).Ok?
    ensures var kept := SelectStep(s, raw).value.kept;
            |kept| <= |front| + 1 && forall r | r in kept :: r in front + [raw]
  {
    hide DecodeIssuerSignedItem;
  }

  /** What is kept is a part of what was stored. */
  lemma {:induction false} KeptFrom(items: seq<bytes>, want: set<bytes>)
    requires Select(items, want).Ok?
    ensures var kept := Select(items, want).value.kept;
            |kept| <= |items| && forall r | r in kept :: r in items
  {
    hide SelectStep;
    if items != [] {
      var front := items[..|items| - 1];
      KeptFrom(front, want);
      KeptStep(front, items[|items| - 1], Select(front, want).value);
      assert items == front + [items[|items| - 1]];
    }
  }

  predicate PartOf(sub: NameSpaceItems, ns: NameSpaceItems) {
    |sub| <= |ns| && forall n | n in sub :: n in ns && |sub[n]| <= |ns[n]| && forall r | r in sub[n] :: r in ns[n]
  }

  lemma SelectedPartOf(ns: NameSpaceItems, disclose: Request)
    requires SelectDisclosed(ns, disclose).Some?
    ensures PartOf(SelectDisclosed(ns, disclose).value, ns)
  {
    SelectedAt(ns, disclose);
    hide SelectDisclosed, Select;
    var sub := SelectDisclosed(ns, disclose).value;
    forall n | n in sub ensures |sub[n]| <= |ns[n]| && forall r | r in sub[n] :: r in ns[n] {
      KeptFrom(ns[n], IdsOf(disclose[n]));
    }
    SubsetSize(sub.Keys, ns.Keys);
    KeyCount(sub);
    KeyCount(ns);
  }

  lemma PartInherits(sub: NameSpaceItems, ns: NameSpaceItems)
    requires PartOf(sub, ns)
    ensures NameSpacesOk(ns) ==> NameSpacesOk(sub)
    ensures FlatItems(ns) ==> FlatItems(sub)
    ensures ItemsInLimits(ns) ==> ItemsInLimits(sub)
    ensures NamesReadable(ns) ==> NamesReadable(sub)
  {
    hide RawOk, InLimits, Embed, Utf8;
  }

  // ----- the device signature on the wire -----

  lemma DetachedShape(raw: bytes)
    requires CoseParts(raw).Ok?
    ensures DetachCOSEPayload(raw) == CoseAssemble(CoseParts(raw).value.(payload := Print(Null)))
    ensures Cose.Elements(CoseParts(raw).value.(payload := Print(Null)), 15)
  {
    hide CoseParts, CoseAssemble;
    PartsAreElements(raw);
    NullWF();
    assert InLimits(Null, 15);
    ElementPrint(Null, 15);
    hide Element, Print, WF, InLimits;
  }

  lemma NullFlat()
    ensures InLimits(Embed(Print(Null)), 2) && InLimits(Embed([]), 2)
  {
    NullWF();
    EmbedPrint(Null);
  }

  lemma EmptyMapFlat()
    ensures InLimits(Embed(Print(MkMap(map[]))), 2)
  {
    hide Embed, Print, MkMap, WF;
    EmptyMapItem();
    EmbedPrint(MkMap(map[]));
  }

  lemma AssembledFlat(p: Parts)
    requires Cose.Elements(p, 15) && CoseAssemble(p).Ok?
    requires InLimits(Embed(p.protected), 2) && InLimits(Embed(p.unprotected), 2)
    requires InLimits(Embed(p.payload), 2) && InLimits(Embed(p.signature), 2)
    ensures var raw := CoseAssemble(p).value; raw != [] && RawOk(raw) && InLimits(Embed(raw), 3)
  {
    hide Print, WF, InLimits, Embed, RawOk, CoseAssemble, Element;
    ElementFacts(p.protected, 15);
    ElementFacts(p.unprotected, 15);
    ElementFacts(p.payload, 15);
    ElementFacts(p.signature, 15);
    AssembleIsMessage(p);
    var a, b, c, d := Embed(p.protected), Embed(p.unprotected), Embed(p.payload), Embed(p.signature);
    ArrayOfFour(a, b, c, d);
    MessageFlat(a, b, c, d);
    EmbedPrint(Message(a, b, c, d));
  }

  lemma SignatureIsFlat(signer: Signer, payload: bytes)
    requires SignCOSESign1(signer, payload).Ok?
    ensures DetachCOSEPayload(SignCOSESign1(signer, payload).value).Ok?
    ensures var raw := DetachCOSEPayload(SignCOSESign1(signer, payload).value).value;
            raw != [] && RawOk(raw) && InLimits(Embed(raw), 3)
  {
    hide SignCOSESign1, CoseParts, CoseAssemble, DetachCOSEPayload, Print, WF, InLimits, Embed, RawOk,
         Element, MkBlob, ToBeSigned, MkMap;
    PartsOfSigned(signer, payload);
    var attached := SignCOSESign1(signer, payload).value;
    DetachedParts(attached);
    DetachedShape(attached);
    FlatElement(signer.protected);
    FlatElement(signer.sign(ToBeSigned(signer.protected, payload)));
    NullFlat();
    EmptyMapFlat();
    AssembledFlat(SignedParts(signer, payload).(payload := Print(Null)));
  }

  lemma NoNameSpacesFlat()
    ensures EmptyDeviceNameSpaces().Ok?
    ensures var raw := EmptyDeviceNameSpaces().value; raw != [] && RawOk(raw) && InLimits(Embed(raw), 2)
  {
    assert WF(NO_NAMESPACES) && |Print(NO_NAMESPACES)| == 1;
    var inner := Print(NO_NAMESPACES);
    StringWF(inner);
    var blob := MkBlob(inner);
    assert InLimits(blob, 2) && !blob.Tag?;
    hide Print, MkBlob;
    var x := MkTag(24, blob);
    assert WF(x) && InLimits(x, 2);
    hide WF, InLimits;
    EmbedPrint(x);
  }

  lemma DeviceSignedFlat(signer: Signer, st: bytes, docType: bytes)
    requires SignDeviceAuth(signer, st, docType).Ok?
    ensures var d := SignDeviceAuth(signer, st, docType).value;
            DeviceSignedRawOk(d) && d.nameSpaces != [] && InLimits(MkStruct(DeviceSignedFields(d)), 13)
  {
    hide EmptyDeviceNameSpaces, DeviceAuthenticationBytes, SignCOSESign1, DetachCOSEPayload, InLimits,
         Embed, MkStruct, DeviceSignedFields, ParseWhole;
    NoNameSpacesFlat();
    NullFlat();
    var payload := DeviceAuthenticationBytes(st, docType, EmptyDeviceNameSpaces().value).value;
    SignatureIsFlat(signer, payload);
    var d := SignDeviceAuth(signer, st, docType).value;
    InLimitsMonotone(Embed(d.nameSpaces), 2, 12);
    InLimitsMonotone(Embed(d.deviceAuth.deviceSignature), 3, 11);
    InLimitsMonotone(Embed([]), 2, 11);
    DeviceSignedInLimits(d, 13);
  }

  // ----- the response on the wire -----

  predicate DocumentFits(d: Document) {
    DocumentOk(d) && DocumentReadable(d) && ItemsInLimits(d.issuerSigned.nameSpaces) &&
      FlatItems(d.issuerSigned.nameSpaces) &&
    InLimits(Embed(d.issuerSigned.issuerAuth), 3) && InLimits(MkStruct(DeviceSignedFields(d.deviceSigned)), 13) &&
    |d.docType| < MAX_LENGTH && forall k | k in d.issuerSigned.nameSpaces :: |k| < MAX_LENGTH
  }

  lemma RawOkOf(d: Document)
    requires DocumentOk(d)
    ensures DocumentRawOk(d)
  {
    hide RawOk;
  }

  lemma OneDocumentEncodes(d: Document)
    requires DocumentFits(d)
    ensures var r := OneDocument(d);
            WF(MkStruct(ResponseFields(r))) && EncodeDeviceResponse(r) == Ok(Print(MkStruct(ResponseFields(r))))
  {
    hide RawOk, InLimits, Embed, MkStruct, WF, Print, IssuerSignedFields, DeviceSignedFields,
         DocumentReadable, FlatItems, ItemsInLimits, ResponseFields;
    RawOkOf(d);
    IssuerSignedWF(d.issuerSigned);
    DeviceSignedWF(d.deviceSigned);
    DocumentWF(d);
    OneDocumentWF(OneDocument(d));
    assert OneDocument(d).documents == [d];
  }

  lemma OneDocumentNests(d: Document)
    requires DocumentFits(d)
    ensures InLimits(MkStruct(ResponseFields(OneDocument(d))), MAX_NESTED_LEVELS)
  {
    hide RawOk, InLimits, Embed, MkStruct, IssuerSignedFields, DeviceSignedFields, DocumentReadable,
         FlatItems, ItemsInLimits, DocumentOk, ResponseFields;
    InLimitsMonotone(Embed(d.issuerSigned.issuerAuth), 3, 12);
    IssuerSignedInLimits(d.issuerSigned, 13);
    DocumentInLimits(d, 14);
    OneDocumentInLimits(OneDocument(d), MAX_NESTED_LEVELS);
  }

  lemma OneDocumentReads(d: Document)
    requires DocumentFits(d)
    ensures ReadResponse(MkStruct(ResponseFields(OneDocument(d)))) == Some(OneDocument(d))
  {
    hide InLimits, MkStruct, Embed, DocumentOk, DocumentReadable, ResponseFields, ReadResponse, Utf8,
         Ascii, FlatItems, ItemsInLimits;
    VersionIsAscii();
    ReadResponseFields(OneDocument(d));
  }

  /** A response with one fitting document can always be encoded and decodes to itself. */
  lemma OneDocumentRoundTrip(d: Document)
    requires DocumentFits(d)
    ensures EncodeDeviceResponse(OneDocument(d)).Ok?
    ensures DecodeDeviceResponse(EncodeDeviceResponse(OneDocument(d)).value) == Ok(OneDocument(d))
  {
    hide InLimits, MkStruct, WF, Print, Decode, DocumentFits, ResponseFields, ReadResponse,
         EncodeDeviceResponse, Ascii;
    OneDocumentEncodes(d);
    OneDocumentNests(d);
    OneDocumentReads(d);
    DecodeEncode(MkStruct(ResponseFields(OneDocument(d))));
    assert |Ascii("1.0")| == 3;
  }

  // ----- from the credential to the response -----

  /** A successful run of the issuer, with a chain. */
  ghost predicate HonestIssuing(env: Env, issuer: Issuer, e: Issuance) {
    ValidChoices(e.t, e.ch) && ChoicesInTemplate(e.t, e.ch) && Issue(env, issuer, e.t, e.deviceKey, e.ch).Ok? &&
    ChainFits(issuer.x5chain)
  }

  lemma DocTypeIsRead(env: Env, issuer: Issuer, e: Issuance)
    requires HonestIssuing(env, issuer, e)
    ensures Ran(env, e) && SealedMso(env, e).Ok? && SealedAuth(env, issuer, e).Ok?
    ensures DocTypeFromIssuerAuth(env, SealedAuth(env, issuer, e).value) ==
            if ObjectReads(env, e.t) then Ok(e.t.docType) else Err(ErrMalformed)
  {
    hide ObjectReads, ToBeSigned, Issue, SealedMso, SignCOSEWithX5Chain, Ran, ValidChoices,
         ChoicesInTemplate, ReadMsoOf, DecodeMso, MsoOfElement;
    hide ChainedParts, CoseParts, X5ChainFrom, VerifyParts, InLimits, Embed, RawOk, Print, MkBlob,
         EncodeIssuerSigned;
    IssueUnfolds(env, issuer, e);
    SealedAuthShape(env, issuer.signer, issuer.x5chain, SealedMso(env, e).value);
    PayloadElement(env, SealedMso(env, e).value);
    IssuedMsoDecodes(env, e);
    if ObjectReads(env, e.t) {
      MsoOfFields(env, e);
    }
  }

  lemma DocTypeFits(env: Env, e: Issuance)
    requires Ran(env, e) && SealedMso(env, e).Ok?
    ensures |e.t.docType| < MAX_LENGTH
  {
    hide SealedMso, Ran, RawOk, MkStruct, WF, MsoFields, Print, MkTag, MkBlob;
    SealedMsoParts(env, e);
    var m := MsoOf(env, e);
    assert WF(MkStruct(MsoFields(env, m)));
    MkStructWF(MsoFields(env, m));
    MsoFieldValues(env, m);
    assert WF(MkText(e.t.docType)) by { DocTypeMember(env, m); }
    TextFits(e.t.docType);
  }

  lemma DocTypeMember(env: Env, m: MobileSecurityObject)
    ensures FDocType in MsoFields(env, m) && MsoFields(env, m)[FDocType] == MkText(m.docType)
  {
    hide MkText, MkStruct, ValueDigestsItem, DeviceKeyFields, ValidityFields, Embed;
    RawMemberKeys(FStatus, m.status);
    hide RawMember;
  }

  lemma TextFits(s: bytes)
    requires WF(MkText(s))
    ensures |s| < MAX_LENGTH
  {
  }

  lemma NamesFit(env: Env, e: Issuance, auth: bytes)
    requires Ran(env, e) && ObjectReads(env, e.t) && RawOk(auth)
    requires EncodeIssuerSigned(IssuerSigned(Stored(env, e), auth)).Ok?
    ensures forall k | k in Stored(env, e) :: |k| < MAX_LENGTH
  {
    hide ObjectReads, Ran, Stored, RawOk, WF, MkStruct, IssuerSignedFields, FlatItems, NamesReadable,
         ItemsInLimits;
    StoredFits(env, e);
    IssuerSignedWF(IssuerSigned(Stored(env, e), auth));
  }

  /** The document the wallet builds. */
  ghost function PresentedDocument(env: Env, issuer: Issuer, e: Issuance, device: Signer, disclose: Request,
      st: bytes): Document
    requires Ran(env, e) && SealedMso(env, e).Ok? && SealedAuth(env, issuer, e).Ok?
    requires SelectDisclosed(Stored(env, e), disclose).Some? && SignDeviceAuth(device, st, e.t.docType).Ok?
  {
    Document(e.t.docType, IssuerSigned(SelectDisclosed(Stored(env, e), disclose).value,
      SealedAuth(env, issuer, e).value),
             SignDeviceAuth(device, st, e.t.docType).value)
  }

  lemma PresentedFits(env: Env, issuer: Issuer, e: Issuance, device: Signer, disclose: Request, st: bytes)
    requires HonestIssuing(env, issuer, e) && Presentable(env, e.t, disclose) &&
             SignDeviceAuth(device, st, e.t.docType).Ok?
    ensures Ran(env, e) && SealedMso(env, e).Ok? && SealedAuth(env, issuer, e).Ok? &&
            SelectDisclosed(Stored(env, e), disclose).Some?
    ensures DocumentFits(PresentedDocument(env, issuer, e, device, disclose, st))
  {
    hide Issue, SealedMso, SignCOSEWithX5Chain, Ran, ValidChoices, ChoicesInTemplate, Stored,
         SelectDisclosed, SignDeviceAuth, Offers;
    hide InLimits, Embed, RawOk, EncodeIssuerSigned, DecodeIssuerSigned, NameSpacesOk, FlatItems,
         ItemsInLimits, NamesReadable, MkStruct, DeviceSignedFields;
    hide Utf8, PartOf, WireValidity;
    IssueUnfolds(env, issuer, e);
    CredentialDecodes(env, issuer, e);
    SelectionFromIssued(env, e, disclose);
    DeviceSignedFlat(device, st, e.t.docType);
    DocTypeFits(env, e);
    NamesFit(env, e, SealedAuth(env, issuer, e).value);
    StoredItems(env, e);
    StoredFits(env, e);
    var sub := SelectDisclosed(Stored(env, e), disclose).value;
    SelectedPartOf(Stored(env, e), disclose);
    PartInherits(sub, Stored(env, e));
    assert forall n | n in sub :: n in Stored(env, e) by { PartKeys(sub, Stored(env, e)); }
  }

  lemma PartKeys(sub: NameSpaceItems, ns: NameSpaceItems)
    requires PartOf(sub, ns)
    ensures forall n | n in sub :: n in ns
  {
  }

  /** A presentable request is answered, with one document that decodes to itself. */
  lemma PresentSucceeds(env: Env, issuer: Issuer, e: Issuance, device: Signer, disclose: Request, st: bytes)
    requires HonestIssuing(env, issuer, e) && Presentable(env, e.t, disclose) &&
             SignDeviceAuth(device, st, e.t.docType).Ok?
    ensures Ran(env, e) && SealedMso(env, e).Ok? && SealedAuth(env, issuer, e).Ok? &&
            SelectDisclosed(Stored(env, e), disclose).Some?
    ensures var credential := Issue(env, issuer, e.t, e.deviceKey, e.ch).value;
            Present(env, device, credential, disclose, st).Ok? &&
            DecodeDeviceResponse(Present(env, device, credential, disclose, st).value) ==
            Ok(OneDocument(PresentedDocument(env, issuer, e, device, disclose, st)))
  {
    PresentedFits(env, issuer, e, device, disclose, st);
    CredentialDecodes(env, issuer, e);
    DocTypeIsRead(env, issuer, e);
    hide Issue, SealedMso, SignCOSEWithX5Chain, Ran, ValidChoices, ChoicesInTemplate, Stored,
         SelectDisclosed, SignDeviceAuth;
    hide InLimits, Embed, RawOk, EncodeDeviceResponse, DecodeDeviceResponse, DecodeIssuerSigned,
         DocTypeFromIssuerAuth, DocumentFits, ObjectReads, OneDocument, Offers;
    OneDocumentRoundTrip(PresentedDocument(env, issuer, e, device, disclose, st));
  }

  /** An issued credential can be presented exactly when the request is presentable and the device
      can sign the session: nothing else about the template, the order or the salts matters. */
  lemma PresentExact(env: Env, issuer: Issuer, e: Issuance, device: Signer, disclose: Request, st: bytes)
    requires HonestIssuing(env, issuer, e)
    ensures Present(env, device, Issue(env, issuer, e.t, e.deviceKey, e.ch).value, disclose, st).Ok? <==>
            Presentable(env, e.t, disclose) && SignDeviceAuth(device, st, e.t.docType).Ok?
  {
    if Presentable(env, e.t, disclose) && SignDeviceAuth(device, st, e.t.docType).Ok? {
      PresentSucceeds(env, issuer, e, device, disclose, st);
    } else {
      CredentialDecodes(env, issuer, e);
      DocTypeIsRead(env, issuer, e);
      SelectionFromIssued(env, e, disclose);
      hide Issue, SealedMso, SignCOSEWithX5Chain, Ran, ValidChoices, ChoicesInTemplate, Stored, SelectDisclosed,
           SignDeviceAuth, InLimits, Embed, RawOk, EncodeDeviceResponse, DecodeIssuerSigned, DocTypeFromIssuerAuth,
           ObjectReads, OneDocument, Offers;
    }
  }

  // ----- the verdict -----

  /** The requested values are all ones that decoding accepts. */
  predicate RequestArrives(env: Env, t: DocumentTemplate, disclose: Request) {
    forall n, id | n in disclose && n in t.namespaces && id in disclose[n] && id in t.namespaces[n] ::
      Received(env, t.namespaces[n][id]).Some?
  }

  /** The requested part of the template, as encoding and decoding give it. */
  function ReceivedRequest(env: Env, t: DocumentTemplate, disclose: Request): Disclosed {
    map n | n in disclose && n in t.namespaces :: ReceivedPart(env, t.namespaces[n], IdsOf(disclose[n]))
  }

  /** What verification must return: the requested elements with the template's values, the
      validity on the wire, the device key, the status reference and the algorithm. */
  ghost function Outcome(env: Env, t: DocumentTemplate, deviceKey: PublicKey, disclose: Request): VerifiedDocument
    requires ObjectReads(env, t) && WireStatus(t.status).Ok?
  {
    VerifiedDocument(t.docType, ReceivedRequest(env, t, disclose), WireTimes(env, t),
                     deviceKey, WireStatus(t.status).value, TemplateAlg(t))
  }

  /** What a caller can check before verifying: the values arrive, the status is usable, and the
      times on the wire admit the instant. */
  ghost predicate Verifiable(env: Env, issuer: Issuer, t: DocumentTemplate, disclose: Request, at: Time)
    requires ObjectReads(env, t)
  {
    RequestArrives(env, t, disclose) && WireStatus(t.status).Ok? && Timely(env, issuer, WireTimes(env, t), at)
  }

  lemma CleanPart(env: Env, elems: Issuing.Elements, want: set<bytes>)
    requires forall id | id in elems :: Clean(env, elems[id])
    ensures forall id | id in elems :: Received(env, elems[id]) == Some(elems[id])
    ensures ReceivedPart(env, elems, want) == RestrictTo(elems, want)
  {
    hide Clean, ReceivedIn;
    forall id | id in elems ensures Received(env, elems[id]) == Some(elems[id]) {
      CleanIsReceived(env, elems[id], false);
    }
    hide Received;
  }

  /** For clean values and ordinary times, what arrives is the template itself: the elements asked
      for with their own values, and the times cut to the second. */
  lemma CleanTemplateArrives(env: Env, t: DocumentTemplate, disclose: Request)
    requires Presentable(env, t, disclose) && ValidityReadable(env, t.validityInfo)
    requires forall n, id | n in t.namespaces && id in t.namespaces[n] :: Clean(env, t.namespaces[n][id])
    ensures RequestArrives(env, t, disclose) && WireTimes(env, t) == Truncated(t.validityInfo)
    ensures ReceivedRequest(env, t, disclose) == RestrictDisclosed(t.namespaces, disclose)
  {
    hide Clean, Received, ElementsRead, Utf8, ValidityReadable, Truncated, WireValidity, ReceivedPart, RestrictTo,
           IdsOf;
    WireValidityTruncates(env, t.validityInfo);
    forall n | n in t.namespaces
      ensures forall id | id in t.namespaces[n] :: Received(env, t.namespaces[n][id]) == Some(t.namespaces[n][id])
      ensures n in disclose ==>
                ReceivedPart(env, t.namespaces[n], IdsOf(disclose[n])) ==
                  RestrictTo(t.namespaces[n], IdsOf(disclose[n]))
    {
      CleanPart(env, t.namespaces[n], if n in disclose then IdsOf(disclose[n]) else {});
    }
  }

  lemma IdAtBuilt(env: Env, elems: Issuing.Elements, picks: seq<Pick>, i: nat)
    requires ValidPicks(elems, picks) && Encodable(env, elems, picks) && ElementsRead(env, elems) && i < |picks|
    ensures IdAt(BuiltItems(env, elems, picks)[i]) == Some(picks[i].id) && picks[i].id in elems
  {
    hide IdAt, ReadItem, BuildItem, Received, ElementArrives, ElementReads;
    BuiltItemReads(env, i, picks[i], elems[picks[i].id]);
    assert ElementReads(env, picks[i].id, elems[picks[i].id]);
  }

  lemma FirstOfIssued(env: Env, elems: Issuing.Elements, picks: seq<Pick>, i: nat)
    requires ValidPicks(elems, picks) && Encodable(env, elems, picks) && ElementsRead(env, elems) && i < |picks|
    ensures FirstAt(BuiltItems(env, elems, picks), i)
  {
    var items := BuiltItems(env, elems, picks);
    hide IdAt, BuildItem, Encodable, ElementsRead;
    IdAtBuilt(env, elems, picks, i);
    forall j | 0 <= j < i ensures IdAt(items[j]) != IdAt(items[i]) {
      IdAtBuilt(env, elems, picks, j);
    }
  }

  lemma PartFromFirst(env: Env, elems: Issuing.Elements, picks: seq<Pick>, want: set<bytes>, kept: seq<bytes>,
                      at: seq<nat>)
    requires ValidPicks(elems, picks) && Encodable(env, elems, picks) && InElements(elems, picks) && want <= elems.Keys
    requires FirstOccurrences(BuiltItems(env, elems, picks), want, kept, at)
    requires forall i: nat | i < |picks| ::
               IdAt(BuiltItems(env, elems, picks)[i]) == Some(picks[i].id) && FirstAt(BuiltItems(env, elems, picks), i)
    ensures PartAt(env, elems, picks, want, kept, at)
  {
    hide Encodable, BuiltItems, FirstAt, IdAt, InElements, ValidPicks;
  }

  /** What the wallet keeps of an issued namespace is the part asked for. */
  lemma KeptIsPart(env: Env, elems: Issuing.Elements, picks: seq<Pick>, want: set<bytes>) returns (at: seq<nat>)
    requires ValidPicks(elems, picks) && Encodable(env, elems, picks) && ElementsRead(env, elems) && want <= elems.Keys
    ensures Select(BuiltItems(env, elems, picks), want).Ok?
    ensures PartAt(env, elems, picks, want, Select(BuiltItems(env, elems, picks), want).value.kept, at)
  {
    assert InElements(elems, picks) by { DoneInElements(elems, picks); }
    hide Select, Encodable, BuiltItems, FirstAt, IdAt, ElementsRead, Parses, Missing, InElements, FirstOccurrences,
         PartAt, ValidPicks;
    var items := BuiltItems(env, elems, picks);
    StoredIds(env, elems, picks);
    at := SelectExact(items, want);
    forall i: nat | i < |picks| ensures IdAt(items[i]) == Some(picks[i].id) && FirstAt(items, i) {
      IdAtBuilt(env, elems, picks, i);
      FirstOfIssued(env, elems, picks, i);
    }
    PartFromFirst(env, elems, picks, want, Select(items, want).value.kept, at);
  }

  lemma SelectedNameSpace(env: Env, e: Issuance, mso: MobileSecurityObject, n: bytes, ids: seq<bytes>)
    requires Ran(env, e) && Offers(env, e.t, n, ids) && SelectNameSpace(Stored(env, e), n, ids).Ok?
    requires mso.digestAlgorithm == TemplateAlg(e.t) && mso.valueDigests == Tables(env, e)
    ensures IdsOf(ids) <= e.t.namespaces[n].Keys
    ensures CheckNameSpace(env, mso, n, SelectNameSpace(Stored(env, e), n, ids).value).ToOption() ==
            if Arriving(env, e.t.namespaces[n], IdsOf(ids)) then Some(ReceivedPart(env, e.t.namespaces[n], IdsOf(ids)))
            else None
  {
    hide TemplateAlg, CheckItems, Encodable, ValidPicks, DigestsOf, Arriving, ReceivedPart, BuiltItems, Select,
         ElementsRead, PartAt, Ran, Stored, Tables, InElements;
    StoredAt(env, e, n);
    var elems, picks := e.t.namespaces[n], e.ch[n];
    var at := KeptIsPart(env, elems, picks, IdsOf(ids));
    PartVerdict(env, TemplateAlg(e.t), elems, picks, IdsOf(ids),
      Select(BuiltItems(env, elems, picks), IdsOf(ids)).value.kept,
                at);
  }

  lemma PartArrives(env: Env, t: DocumentTemplate, n: bytes, ids: seq<bytes>)
    requires Offers(env, t, n, ids) && IdsOf(ids) <= t.namespaces[n].Keys
    ensures Arriving(env, t.namespaces[n], IdsOf(ids)) <==>
            forall id | id in ids :: Received(env, t.namespaces[n][id]).Some?
  {
    hide Received, ElementReads;
    assert forall id :: id in IdsOf(ids) <==> id in ids;
  }

  /** The object the selection is checked against is the one issued with it. */
  ghost predicate IssuedWith(env: Env, e: Issuance, mso: MobileSecurityObject) {
    Ran(env, e) && mso.digestAlgorithm == TemplateAlg(e.t) && mso.valueDigests == Tables(env, e) &&
    AllowedDigestAlg(TemplateAlg(e.t))
  }

  /** The values asked for in one namespace are all ones that decoding accepts. */
  predicate IdsArrive(env: Env, t: DocumentTemplate, n: bytes, ids: seq<bytes>) {
    n in t.namespaces && forall id | id in ids && id in t.namespaces[n] :: Received(env, t.namespaces[n][id]).Some?
  }

  lemma SelectedVerdict(env: Env, e: Issuance, mso: MobileSecurityObject, disclose: Request, n: bytes)
    requires IssuedWith(env, e, mso) && n in disclose && Offers(env, e.t, n, disclose[n])
    requires SelectDisclosed(Stored(env, e), disclose).Some?
    ensures n in SelectDisclosed(Stored(env, e), disclose).value
    ensures CheckNameSpace(env, mso, n, SelectDisclosed(Stored(env, e), disclose).value[n]).ToOption() ==
            if IdsArrive(env, e.t, n, disclose[n]) then Some(ReceivedPart(env, e.t.namespaces[n], IdsOf(disclose[n])))
            else None
  {
    hide SelectDisclosed, SelectNameSpace, Ran, Stored, Tables, TemplateAlg, AllowedDigestAlg, ReceivedPart, Arriving,
         Received, CheckNameSpace, ElementsRead;
    SelectedAt(Stored(env, e), disclose);
    SelectedNameSpace(env, e, mso, n, disclose[n]);
    PartArrives(env, e.t, n, disclose[n]);
  }

  lemma RequestByNameSpace(env: Env, t: DocumentTemplate, disclose: Request)
    requires forall n | n in disclose :: n in t.namespaces
    ensures RequestArrives(env, t, disclose) <==> forall n | n in disclose :: IdsArrive(env, t, n, disclose[n])
  {
    hide Received;
    if forall n | n in disclose :: IdsArrive(env, t, n, disclose[n]) {
      forall n, id | n in disclose && n in t.namespaces && id in disclose[n] && id in t.namespaces[n]
        ensures Received(env, t.namespaces[n][id]).Some?
      {
        assert IdsArrive(env, t, n, disclose[n]);
      }
    }
  }

  lemma ReceivedRequestAt(env: Env, t: DocumentTemplate, disclose: Request)
    requires forall n | n in disclose :: n in t.namespaces
    ensures ReceivedRequest(env, t, disclose).Keys == disclose.Keys
    ensures forall n | n in disclose ::
              ReceivedRequest(env, t, disclose)[n] == ReceivedPart(env, t.namespaces[n], IdsOf(disclose[n]))
  {
    hide ReceivedPart, IdsOf;
  }

  /** The exact verdict on a selection from an issued credential. */
  lemma SelectionIntegrity(env: Env, e: Issuance, mso: MobileSecurityObject, disclose: Request)
    requires IssuedWith(env, e, mso) && (forall n | n in disclose :: Offers(env, e.t, n, disclose[n]))
    requires SelectDisclosed(Stored(env, e), disclose).Some?
    ensures Integrity(env, mso, SelectDisclosed(Stored(env, e), disclose).value) ==
            if RequestArrives(env, e.t, disclose) then Some(ReceivedRequest(env, e.t, disclose)) else None
  {
    hide Integrity, SelectDisclosed, SelectNameSpace, Ran, Stored, Tables, TemplateAlg, AllowedDigestAlg,
         ReceivedRequest, IdsArrive, RequestArrives, CheckNameSpace, ElementsRead;
    SelectedAt(Stored(env, e), disclose);
    var sub := SelectDisclosed(Stored(env, e), disclose).value;
    RequestByNameSpace(env, e.t, disclose);
    if RequestArrives(env, e.t, disclose) {
      ReceivedRequestAt(env, e.t, disclose);
      forall n | n in disclose
        ensures CheckNameSpace(env, mso, n, sub[n]) == Ok(ReceivedRequest(env, e.t, disclose)[n])
      {
        SelectedVerdict(env, e, mso, disclose, n);
      }
      IntegrityDone(env, mso, sub, ReceivedRequest(env, e.t, disclose));
    } else {
      var n :| n in disclose && !IdsArrive(env, e.t, n, disclose[n]);
      SelectedVerdict(env, e, mso, disclose, n);
      IntegrityFails(env, mso, sub, n);
    }
  }

  /** The exact verdict on the presented document. */
  lemma PresentedVerdict(env: Env, issuer: Issuer, e: Issuance, device: Signer, disclose: Request, st: bytes,
                         trust: Trust, at: Time)
    requires Ran(env, e) && SealedMso(env, e).Ok? && SealedAuth(env, issuer, e).Ok? && Presentable(env, e.t, disclose)
    requires SelectDisclosed(Stored(env, e), disclose).Some? && SignDeviceAuth(device, st, e.t.docType).Ok?
    requires ChainFits(issuer.x5chain) && Resolves(env, issuer, e.t, trust) && IssuerVouches(env, issuer, e)
    requires DeviceVouches(env, device, st, e.t.docType) && device.pub == e.deviceKey && st != []
    ensures VerifyDocument(env, PresentedDocument(env, issuer, e, device, disclose, st), st, trust, at) ==
            if Verifiable(env, issuer, e.t, disclose, at) then Some(Outcome(env, e.t, e.deviceKey, disclose)) else None
  {
    hide SealedMso, SignCOSEWithX5Chain, Ran, Stored, SelectDisclosed, SignDeviceAuth, Timely, IssuerVouches,
         DeviceVouches, Resolves, ReadMsoOf, VerifyIssuerAuth, ObjectReads, WireTimes, Offers;
    hide Integrity, VerifyDeviceAuth, ParseMSOStatus, Tables, TemplateAlg, AllowedDigestAlg, ParseCOSEKey,
         EncodeStatus, ReceivedRequest, RequestArrives, WireStatus;
    hide RawOk, InLimits, Embed;
    var doc := PresentedDocument(env, issuer, e, device, disclose, st);
    IssuedAuthVerifies(env, issuer, e, trust, at);
    MsoOfFields(env, e);
    StatusReadBack(env, e.t.status);
    SelectionIntegrity(env, e, ReadMsoOf(env, e), disclose);
    SignedDeviceAuthAccepted(env, device, st, doc);
  }

  lemma OneVerdict(env: Env, input: VerifyInput, trust: Trust, at: Time, doc: Document)
    requires input.issuerTrust == Some(trust) && DecodeDeviceResponse(input.deviceResponse) == Ok(OneDocument(doc))
    requires DocTypeExpected(doc, input.expectedDocType)
    ensures Verified(env, input, at) ==
            match VerifyDocument(env, doc, input.sessionTranscript, trust,
              at) case None => None case Some(vd) => Some([vd])
  {
    hide DecodeDeviceResponse, VerifyDocument, DocTypeExpected;
    assert OneDocument(doc).documents == [doc];
    hide OneDocument;
    var judged := JudgeAll(env, [doc], input, trust, at);
    assert judged[0] == JudgeDocument(env, doc, input, trust, at);
    if judged[0].Some? {
      assert AllOf(judged).value == [judged[0].value];
    }
  }

  /** The exact outcome of a whole run. Whatever the template, the order and the salts: the wallet
      answers exactly when the request is presentable; and the verifier then returns exactly one
      document, with exactly what was asked for, when the request is verifiable, and nothing
      otherwise. */
  lemma HonestRunVerdict(env: Env, issuer: Issuer, e: Issuance, device: Signer, disclose: Request, st: bytes,
                         trust: Trust, at: Time, expectedDocType: bytes)
    requires HonestIssuing(env, issuer, e) && Resolves(env, issuer, e.t, trust) && IssuerVouches(env, issuer, e)
    requires DeviceVouches(env, device, st, e.t.docType) && device.pub == e.deviceKey
    requires SignDeviceAuth(device, st, e.t.docType).Ok? && st != []
    requires expectedDocType == [] || expectedDocType == e.t.docType
    ensures var credential := Issue(env, issuer, e.t, e.deviceKey, e.ch).value;
            var response := Present(env, device, credential, disclose, st);
            (response.Ok? <==> Presentable(env, e.t, disclose)) &&
            (response.Ok? ==>
               Verified(env, VerifyInput(response.value, st, Some(trust), expectedDocType), at) ==
               if Verifiable(env, issuer, e.t, disclose, at) then Some([Outcome(env, e.t, e.deviceKey, disclose)])
                 else None)
  {
    hide Issue, SealedMso, SignCOSEWithX5Chain, Ran, Stored, SelectDisclosed, SignDeviceAuth, Verifiable,
         IssuerVouches, DeviceVouches, ValidChoices, ChoicesInTemplate, Resolves;
    hide Present, Verified, VerifyDocument, DecodeDeviceResponse, OneDocument, ObjectReads, Offers, Outcome;
    PresentExact(env, issuer, e, device, disclose, st);
    if Presentable(env, e.t, disclose) {
      PresentSucceeds(env, issuer, e, device, disclose, st);
      PresentedVerdict(env, issuer, e, device, disclose, st, trust, at);
      var response := Present(env, device, Issue(env, issuer, e.t, e.deviceKey, e.ch).value, disclose, st).value;
      var doc := PresentedDocument(env, issuer, e, device, disclose, st);
      OneVerdict(env, VerifyInput(response, st, Some(trust), expectedDocType), trust, at, doc);
    }
  }

  lemma ResponseDecodes(env: Env, issuer: Issuer, e: Issuance, device: Signer, disclose: Request, st: bytes)
    requires HonestIssuing(env, issuer, e) && Presentable(env, e.t, disclose) &&
             SignDeviceAuth(device, st, e.t.docType).Ok?
    ensures var response := Present(env, device, Issue(env, issuer, e.t, e.deviceKey, e.ch).value, disclose, st);
            response.Ok? && DecodeDeviceResponse(response.value).Ok?
  {
    hide Issue, SealedMso, SignCOSEWithX5Chain, Ran, Stored, SelectDisclosed, SignDeviceAuth, Present,
           DecodeDeviceResponse,
         OneDocument, ValidChoices, ChoicesInTemplate;
    PresentSucceeds(env, issuer, e, device, disclose, st);
  }

  /** The three methods in sequence: whatever the issuer's loops draw, if a credential comes out
      the wallet answers a presentable request, and the verifier returns exactly what was asked
      for when it is verifiable at the instant its clock shows, and nothing otherwise. */
  method IssuePresentVerify(env: Env, issuer: Issuer, t: DocumentTemplate, device: Signer, disclose: Request, st: bytes,
                            verifier: Verifier, trust: Trust)
    returns (credential: Result<bytes>, verdict: Result<seq<VerifiedDocument>>)
    requires Correct(env, issuer.signer) && Correct(env, device) && ChainFits(issuer.x5chain)
    requires Presentable(env, t, disclose) && Resolves(env, issuer, t, trust)
    requires st != [] && SignDeviceAuth(device, st, t.docType).Ok?
    modifies verifier.now
    ensures credential.Ok? ==>
              verdict.ToOption() ==
              if Verifiable(env, issuer, t, disclose, old(verifier.now.tick(verifier.now.calls)))
              then Some([Outcome(env, t, device.pub, disclose)]) else None
  {
    hide Issue, Present, Verified, Presentable, SignDeviceAuth, Outcome, DecodeDeviceResponse, Correct,
         ValidChoices, ChoicesInTemplate, Resolves, Verifiable, IssuerVouches, DeviceVouches;
    credential := IssueCredential(env, issuer, t, device.pub);
    ghost var ch :| IssuedUnder(env, issuer, t, device.pub, ch, credential);
    ghost var e := Issuance(t, device.pub, ch);
    if credential.Err? {
      return credential, Err(credential.error);
    }
    CorrectSignersVouch(env, issuer, e, device, st);
    ResponseDecodes(env, issuer, e, device, disclose, st);
    var response := DevicePresent(env, device, credential.value, disclose, st);
    ghost var at;
    verdict, at := verifier.Verify(env, VerifyInput(response.value, st, Some(trust), []));
    HonestRunVerdict(env, issuer, e, device, disclose, st, trust, at, []);
  }

  lemma CorrectSignersVouch(env: Env, issuer: Issuer, e: Issuance, device: Signer, st: bytes)
    requires Correct(env, issuer.signer) && Correct(env, device)
    ensures IssuerVouches(env, issuer, e) && DeviceVouches(env, device, st, e.t.docType)
  {
    hide Vouches, ToBeSigned, SealedMso, Ran, DeviceAuthenticationBytes, EmptyDeviceNameSpaces;
  }

  /** Only a stored item that does not read can make a selection malformed. */
  lemma SelectErrors(env: Env, e: Issuance, disclose: Request, error: Error)
    requires Ran(env, e) && SelectError(Stored(env, e), disclose, error)
    requires forall n | n in disclose && n in e.t.namespaces :: ElementsRead(env, e.t.namespaces[n])
    ensures error == ErrUnsupported
  {
    hide Parses, Select, ElementsRead, Encodable, ValidPicks, BuiltItems, Carries;
    var ns := Stored(env, e);
    var n :| n in disclose && SelectNameSpace(ns, n, disclose[n]) == Err(error);
    if n in ns {
      StoredIds(env, e.t.namespaces[n], e.ch[n]);
      var at := SelectExact(ns[n], IdsOf(disclose[n]));
    }
  }

  /** A request for anything the template lacks is refused whole, and always as unsupported when
      the items it touches read. */
  lemma RequestOutsideFails(env: Env, issuer: Issuer, e: Issuance, device: Signer, disclose: Request, st: bytes,
                            error: Error)
    requires HonestIssuing(env, issuer, e) && ObjectReads(env, e.t) && !Presentable(env, e.t, disclose)
    requires forall n | n in disclose && n in e.t.namespaces :: ElementsRead(env, e.t.namespaces[n])
    requires PresentError(env, device, Issue(env, issuer, e.t, e.deviceKey, e.ch).value, disclose, st, error)
    ensures error == ErrUnsupported
    ensures Present(env, device, Issue(env, issuer, e.t, e.deviceKey, e.ch).value, disclose, st) == Err(ErrUnsupported)
  {
    CredentialDecodes(env, issuer, e);
    DocTypeIsRead(env, issuer, e);
    SelectionFromIssued(env, e, disclose);
    hide Issue, SealedMso, SignCOSEWithX5Chain, Ran, ValidChoices, ChoicesInTemplate, Stored, SelectDisclosed,
         SelectError, InLimits, Embed, RawOk, DecodeIssuerSigned, DocTypeFromIssuerAuth, ObjectReads, Offers,
         ElementsRead;
    SelectErrors(env, e, disclose, error);
  }

  // ----- which sessions a device can sign -----

  lemma StringLength(s: bytes)
    ensures |s| < MAX_LENGTH ==> |Print(MkText(s))| <= |s| + 9 && |Print(MkBlob(s))| <= |s| + 9
  {
  }

  lemma FourLengths(a: Item, b: Item, c: Item, d: Item)
    ensures |Print(MkArray([a, b, c, d]))| == 1 + |Print(a)| + |Print(b)| + |Print(c)| + |Print(d)|
  {
    var items := [a, b, c, d];
    assert items[1..] == [b, c, d] && [b, c, d][1..] == [c, d] && [c, d][1..] == [d] && [d][1..] == [];
    assert PrintAll([]) == [] && PrintAll([d]) == Print(d) + [];
    assert PrintAll([c, d]) == Print(c) + PrintAll([d]);
    assert PrintAll([b, c, d]) == Print(b) + PrintAll([c, d]);
    assert PrintAll(items) == Print(a) + PrintAll([b, c, d]);
  }

  lemma EmbeddedLength(raw: bytes)
    requires RawOk(raw)
    ensures |Print(Embed(raw))| <= |raw| + 1
  {
    EmbedIsVerbatim(raw);
    if raw == [] {
      assert |Print(Null)| == 1;
    }
  }

  lemma AuthArrayLength(st: bytes, docType: bytes, nameSpaces: bytes)
    requires RawOk(st) && RawOk(nameSpaces) && |docType| < MAX_LENGTH
    ensures WF(DeviceAuthArray(st, docType, nameSpaces))
    ensures |Print(DeviceAuthArray(st, docType, nameSpaces))| <= |st| + |docType| + |nameSpaces| + 41
  {
    hide RawOk, Embed, Print, WF, MkArray, MkText, Ascii;
    var name := Ascii("DeviceAuthentication");
    assert |name| == 20;
    StringWF(name);
    StringWF(docType);
    StringLength(name);
    StringLength(docType);
    EmbedIsVerbatim(st);
    EmbedIsVerbatim(nameSpaces);
    EmbeddedLength(st);
    EmbeddedLength(nameSpaces);
    ArrayWF([MkText(name), Embed(st), MkText(docType), Embed(nameSpaces)]);
    FourLengths(MkText(name), Embed(st), MkText(docType), Embed(nameSpaces));
  }

  lemma Tagged24Encodes(x: Item)
    requires WF(x) && |Print(x)| < 0x8000_0000_0000_0000
    ensures EncodeTagged24(x).Ok? && |EncodeTagged24(x).value| <= |Print(x)| + 11
  {
    var inner := Print(x);
    hide Print;
    assert WF(MkTag(24, MkBlob(inner)));
    PrintTagged(inner);
  }

  lemma NoNameSpacesLength()
    ensures EmptyDeviceNameSpaces().Ok? && |EmptyDeviceNameSpaces().value| < 20
  {
    assert WF(NO_NAMESPACES) && |Print(NO_NAMESPACES)| == 1;
    Tagged24Encodes(NO_NAMESPACES);
  }

  lemma SignsShort(signer: Signer, payload: bytes)
    requires signer.pub.EcKey? && |signer.protected| < MAX_LENGTH && |payload| < MAX_LENGTH
    requires |signer.sign(ToBeSigned(signer.protected, payload))| < MAX_LENGTH
    ensures SignCOSESign1(signer, payload).Ok?
  {
    hide MkBlob, MkMap, ToBeSigned, Print;
    EmptyMapItem();
    var sig := signer.sign(ToBeSigned(signer.protected, payload));
    StringWF(signer.protected);
    StringWF(payload);
    StringWF(sig);
    hide WF;
    ArrayWF([MkBlob(signer.protected), MkMap(map[]), MkBlob(payload), MkBlob(sig)]);
    TagWF(SignedArray(signer, payload));
  }

  lemma TagWF(x: Item)
    requires WF(x)
    ensures WF(MkTag(18, x))
  {
  }

  /** An EC device key can sign every session whose transcript is one CBOR item (or nothing, which
      counts as null), as far as lengths a 64-bit program can build. */
  lemma DeviceCanSign(signer: Signer, st: bytes, docType: bytes)
    requires signer.pub.EcKey? && RawOk(st) && |st| + |docType| < 0x7000_0000_0000_0000
    requires |signer.protected| < MAX_LENGTH && forall m :: |signer.sign(m)| < MAX_LENGTH
    ensures SignDeviceAuth(signer, st, docType).Ok?
  {
    hide RawOk, Print, WF, DeviceAuthArray, EncodeTagged24, SignCOSESign1, DetachCOSEPayload, CoseParts,
         EmptyDeviceNameSpaces, ToBeSigned;
    NoNameSpacesLength();
    assert RawOk(EmptyDeviceNameSpaces().value) by { hide InLimits, Embed; NoNameSpacesFlat(); }
    var nameSpaces := EmptyDeviceNameSpaces().value;
    AuthArrayLength(st, docType, nameSpaces);
    Tagged24Encodes(DeviceAuthArray(st, docType, nameSpaces));
    var payload := DeviceAuthenticationBytes(st, docType, nameSpaces).value;
    SignsShort(signer, payload);
    hide Element;
    PartsOfSigned(signer, payload);
    DetachedParts(SignCOSESign1(signer, payload).value);
  }
}
