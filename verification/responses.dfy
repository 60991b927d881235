/** IssuerSigned, Document and DeviceResponse on the wire, and the top-level response decoder. */
module Responses {
  import opened Basics
  import opened CborSyntax
  import opened Codec
  import opened Structs
  import opened Primitives
  import opened GoValues
  import opened Wire

  // ----- IssuerSigned -----

  /** Empty namespaces are left out. */
  function NameSpacesMember(ns: NameSpaceItems): Fields {
    if ns == map[] then map[] else map[FNameSpaces := NameSpacesItem(ns)]
  }

  function IssuerSignedFields(s: IssuerSigned): Fields {
    map[FIssuerAuth := Embed(s.issuerAuth)] + NameSpacesMember(s.nameSpaces)
  }

  predicate IssuerSignedRawOk(s: IssuerSigned) {
    RawOk(s.issuerAuth) && forall k, r | k in s.nameSpaces && r in s.nameSpaces[k] :: RawOk(r)
  }

  function EncodeIssuerSigned(s: IssuerSigned): Result<bytes> {
    if !IssuerSignedRawOk(s) then Err(ErrMalformed) else Encode(MkStruct(IssuerSignedFields(s)))
  }

  function ReadIssuerSigned(x: Item): Option<IssuerSigned> {
    var f :- FieldsOf(x);
    var nameSpaces :- ReadNameSpaces(Get(f, FNameSpaces));
    Some(IssuerSigned(nameSpaces, RawField(f, FIssuerAuth)))
  }

  function DecodeIssuerSigned(raw: bytes): Result<IssuerSigned> {
    var x :- Decode(raw);
    OrMalformed(ReadIssuerSigned(x))
  }

  predicate IssuerSignedOk(s: IssuerSigned) {
    s.issuerAuth != [] && RawOk(s.issuerAuth) && NameSpacesOk(s.nameSpaces)
  }

  predicate NamesReadable(ns: NameSpaceItems) {
    forall k | k in ns :: Utf8(k)
  }

  lemma ReadNoNameSpaces()
    ensures ReadNameSpaces(Null) == Some(map[])
  {
    AllInIs(RawListsOf(map[]), map[]);
  }

  lemma ReadNameSpacesMember(s: IssuerSigned)
    requires NameSpacesOk(s.nameSpaces)
    ensures ReadNameSpaces(Get(IssuerSignedFields(s), FNameSpaces)) == if NamesReadable(s.nameSpaces)
            then Some(s.nameSpaces) else None
  {
    hide ReadNameSpaces, NameSpacesItem, NameSpacesOk, Embed, Utf8;
    NameSpacesRoundTrip(s.nameSpaces);
    ReadNoNameSpaces();
  }

  lemma IssuerAuthMember(s: IssuerSigned)
    requires s.issuerAuth != [] && RawOk(s.issuerAuth)
    ensures RawField(IssuerSignedFields(s), FIssuerAuth) == s.issuerAuth
  {
    hide NameSpacesItem, Embed, RawOk, Print;
    EmbedIsVerbatim(s.issuerAuth);
  }

  lemma ReadIssuerSignedFields(s: IssuerSigned)
    requires IssuerSignedOk(s)
    ensures ReadIssuerSigned(MkStruct(IssuerSignedFields(s))) == if NamesReadable(s.nameSpaces) then Some(s) else None
  {
    hide FieldsOf, MkStruct, IssuerSignedFields, ReadNameSpaces, Get, RawField, NamesReadable,
         NameSpacesOk, RawOk;
    FieldsOfMkStruct(IssuerSignedFields(s));
    ReadNameSpacesMember(s);
    IssuerAuthMember(s);
  }

  predicate ItemsInLimits(ns: NameSpaceItems) {
    |ns| <= MAX_MAP_PAIRS && forall k | k in ns :: |ns[k]| <= MAX_ARRAY_ELEMENTS
  }

  /** Every stored item is a tag-24 byte string, which takes up no nesting level. */
  predicate FlatItems(ns: NameSpaceItems) {
    forall k, r | k in ns && r in ns[k] :: InLimits(Embed(r), 0)
  }

  lemma IssuerSignedInLimits(s: IssuerSigned, levels: nat)
    requires levels >= 3
    requires ItemsInLimits(s.nameSpaces) && FlatItems(s.nameSpaces) && InLimits(Embed(s.issuerAuth), levels - 1)
    ensures InLimits(MkStruct(IssuerSignedFields(s)), levels)
  {
    hide MkStruct, InLimits, Embed, NameSpacesItem;
    NameSpacesInLimits(s.nameSpaces, 0);
    InLimitsMonotone(NameSpacesItem(s.nameSpaces), 2, levels - 1);
    MkStructInLimits(IssuerSignedFields(s), levels);
  }

  // ----- DeviceSigned -----

  function DeviceAuthFields(a: DeviceAuth): Fields {
    RawMember(FDeviceSignature, a.deviceSignature) + RawMember(FDeviceMac, a.deviceMac)
  }

  function DeviceSignedFields(d: DeviceSigned): Fields {
    map[FNameSpaces := Embed(d.nameSpaces), FDeviceAuth := MkStruct(DeviceAuthFields(d.deviceAuth))]
  }

  function ReadDeviceSigned(x: Item): Option<DeviceSigned> {
    var f :- FieldsOf(x);
    var a :- FieldsOf(Get(f, FDeviceAuth));
    Some(DeviceSigned(RawField(f, FNameSpaces), DeviceAuth(RawField(a, FDeviceSignature), RawField(a, FDeviceMac))))
  }

  predicate DeviceSignedRawOk(d: DeviceSigned) {
    RawOk(d.nameSpaces) && RawOk(d.deviceAuth.deviceSignature) && RawOk(d.deviceAuth.deviceMac)
  }

  lemma DeviceAuthMembers(a: DeviceAuth)
    requires RawOk(a.deviceSignature) && RawOk(a.deviceMac)
    ensures RawField(DeviceAuthFields(a), FDeviceSignature) == a.deviceSignature
    ensures RawField(DeviceAuthFields(a), FDeviceMac) == a.deviceMac
  {
    EmbedIsVerbatim(a.deviceSignature);
    EmbedIsVerbatim(a.deviceMac);
    hide Embed, RawOk, Print;
  }

  lemma ReadDeviceSignedFields(d: DeviceSigned)
    requires DeviceSignedRawOk(d) && d.nameSpaces != []
    ensures ReadDeviceSigned(MkStruct(DeviceSignedFields(d))) == Some(d)
  {
    hide FieldsOf, MkStruct, DeviceAuthFields, RawOk, Embed, Print;
    var f := DeviceSignedFields(d);
    FieldsOfMkStruct(f);
    FieldsOfMkStruct(DeviceAuthFields(d.deviceAuth));
    DeviceAuthMembers(d.deviceAuth);
    EmbedIsVerbatim(d.nameSpaces);
    assert Get(f, FDeviceAuth) == MkStruct(DeviceAuthFields(d.deviceAuth)) && RawField(f, FNameSpaces) == d.nameSpaces;
    hide Get, RawField;
  }

  lemma DeviceAuthInLimits(a: DeviceAuth, levels: nat)
    requires levels > 0 && InLimits(Embed(a.deviceSignature), levels - 1) && InLimits(Embed(a.deviceMac), levels - 1)
    ensures InLimits(MkStruct(DeviceAuthFields(a)), levels)
  {
    hide MkStruct, InLimits, Embed;
    MkStructInLimits(DeviceAuthFields(a), levels);
  }

  lemma DeviceSignedInLimits(d: DeviceSigned, levels: nat)
    requires levels > 1 && InLimits(Embed(d.nameSpaces), levels - 1)
    requires InLimits(Embed(d.deviceAuth.deviceSignature), levels - 2) &&
             InLimits(Embed(d.deviceAuth.deviceMac), levels - 2)
    ensures InLimits(MkStruct(DeviceSignedFields(d)), levels)
  {
    hide MkStruct, InLimits, Embed, DeviceAuthFields;
    DeviceAuthInLimits(d.deviceAuth, levels - 1);
    MkStructInLimits(DeviceSignedFields(d), levels);
  }

  // ----- Document -----

  function DocumentFields(d: Document): Fields {
    map[FDocType := MkText(d.docType), FIssuerSigned := MkStruct(IssuerSignedFields(d.issuerSigned)),
        FDeviceSigned := MkStruct(DeviceSignedFields(d.deviceSigned))]
  }

  function DocumentItem(d: Document): Item { MkStruct(DocumentFields(d)) }

  /** A map from text to integers; its content is never read. */
  predicate IsErrorCodes(x: Item) {
    match AsTextMap(x)
    case None => false
    case Some(m) => forall k | k in m :: AsInt(m[k]).Some?
  }

  predicate IsErrors(x: Item) {
    match AsTextMap(x)
    case None => false
    case Some(m) => forall k | k in m :: IsErrorCodes(m[k])
  }

  function ReadDocument(x: Item): Option<Document> {
    var f :- FieldsOf(x);
    var docType :- AsText(Get(f, FDocType));
    var issuerSigned :- ReadIssuerSigned(Get(f, FIssuerSigned));
    var deviceSigned :- ReadDeviceSigned(Get(f, FDeviceSigned));
    if IsErrors(Get(f, FErrors)) then Some(Document(docType, issuerSigned, deviceSigned)) else None
  }

  predicate DocumentOk(d: Document) {
    IssuerSignedOk(d.issuerSigned) && DeviceSignedRawOk(d.deviceSigned) && d.deviceSigned.nameSpaces != []
  }

  predicate DocumentReadable(d: Document) {
    Utf8(d.docType) && NamesReadable(d.issuerSigned.nameSpaces)
  }

  lemma NoErrors()
    ensures IsErrors(Null)
  {
  }

  lemma ReadDocumentItem(d: Document)
    requires DocumentOk(d)
    ensures ReadDocument(DocumentItem(d)) == if DocumentReadable(d) then Some(d) else None
  {
    hide FieldsOf, MkStruct, IssuerSignedFields, DeviceSignedFields, ReadIssuerSigned, ReadDeviceSigned,
         IsErrors;
    hide NamesReadable, Utf8, MkText, AsText, IssuerSignedOk, DeviceSignedRawOk;
    var f := DocumentFields(d);
    FieldsOfMkStruct(f);
    ReadIssuerSignedFields(d.issuerSigned);
    ReadDeviceSignedFields(d.deviceSigned);
    ScalarsRead(0, [], d.docType);
    NoErrors();
    assert Get(f, FDocType) == MkText(d.docType) && Get(f, FErrors) == Null;
    assert Get(f, FIssuerSigned) == MkStruct(IssuerSignedFields(d.issuerSigned));
    assert Get(f, FDeviceSigned) == MkStruct(DeviceSignedFields(d.deviceSigned));
    assert IssuerSignedOk(d.issuerSigned);
    hide Get;
  }

  // ----- DeviceResponse -----

  function DocumentItems(ds: seq<Document>): seq<Item> {
    seq(|ds|, i requires 0 <= i < |ds| => DocumentItem(ds[i]))
  }

  function DocumentsMember(ds: seq<Document>): Fields {
    if ds == [] then map[] else map[FDocuments := MkArray(DocumentItems(ds))]
  }

  /** A response as the wallet builds it: no document errors. */
  function ResponseFields(r: DeviceResponse): Fields {
    map[FVersion := MkText(r.version), FStatus := MkUInt(r.status)] + DocumentsMember(r.documents)
  }

  predicate DocumentRawOk(d: Document) {
    IssuerSignedRawOk(d.issuerSigned) && DeviceSignedRawOk(d.deviceSigned)
  }

  function EncodeDeviceResponse(r: DeviceResponse): Result<bytes>
    requires r.documentErrors == 0
  {
    if exists d | d in r.documents :: !DocumentRawOk(d) then Err(ErrMalformed)
    else Encode(MkStruct(ResponseFields(r)))
  }

  function DocumentsOf(items: seq<Item>): seq<Option<Document>> {
    seq(|items|, i requires 0 <= i < |items| => ReadDocument(items[i]))
  }

  function ReadDocuments(x: Item): Option<seq<Document>> {
    var items :- AsList(x);
    AllOf(DocumentsOf(items))
  }

  function ReadResponse(x: Item): Option<DeviceResponse> {
    var f :- FieldsOf(x);
    var version :- AsText(Get(f, FVersion));
    var documents :- ReadDocuments(Get(f, FDocuments));
    var errors :- AsList(Get(f, FDocumentErrors));
    var status :- AsUint(Get(f, FStatus));
    if forall e | e in errors :: IsErrorCodes(e) then Some(DeviceResponse(version, documents, |errors|, status))
      else None
  }

  /** Refuses a response the wallet itself flagged as broken. */
  function DecodeDeviceResponse(raw: bytes): Result<DeviceResponse> {
    var x :- Decode(raw);
    var d :- OrMalformed(ReadResponse(x));
    if d.version == [] then Err(ErrMalformed)
    else if d.status != 0 then Err(ErrDeviceResponseStatus)
    else if d.documentErrors > 0 then Err(ErrDeviceResponseStatus)
    else Ok(d)
  }

  lemma ReadDocumentItems(ds: seq<Document>)
    requires forall d | d in ds :: DocumentOk(d) && DocumentReadable(d)
    ensures AllOf(DocumentsOf(DocumentItems(ds))) == Some(ds)
  {
    hide DocumentOk, DocumentReadable, DocumentItem, ReadDocument;
    var read := DocumentsOf(DocumentItems(ds));
    forall i | 0 <= i < |ds| ensures read[i] == Some(ds[i]) {
      assert ds[i] in ds;
      ReadDocumentItem(ds[i]);
    }
    assert AllOf(read).value == ds;
  }

  lemma ReadDocumentsMember(r: DeviceResponse)
    requires forall d | d in r.documents :: DocumentOk(d) && DocumentReadable(d)
    ensures ReadDocuments(Get(ResponseFields(r), FDocuments)) == Some(r.documents)
  {
    hide DocumentOk, DocumentReadable, DocumentItems, DocumentsOf, MkText, MkUInt;
    ReadDocumentItems(r.documents);
    assert AllOf(DocumentsOf([])) == Some([]) by { ReadDocumentItems([]); NoDocumentItems(); }
  }

  lemma NoDocumentItems()
    ensures DocumentItems([]) == []
  {
  }

  lemma ReadResponseFields(r: DeviceResponse)
    requires forall d | d in r.documents :: DocumentOk(d) && DocumentReadable(d)
    requires r.documentErrors == 0 && Utf8(r.version)
    ensures ReadResponse(MkStruct(ResponseFields(r))) == Some(r)
  {
    hide FieldsOf, MkStruct, DocumentsMember, ReadDocuments, DocumentOk, DocumentReadable, IsErrorCodes, Utf8;
    hide MkText, AsText, MkUInt, AsUint;
    var f := ResponseFields(r);
    FieldsOfMkStruct(f);
    ReadDocumentsMember(r);
    ScalarsRead(r.status, [], r.version);
    ResponseFieldValues(r);
    hide ResponseFields, Get;
  }

  lemma ResponseFieldValues(r: DeviceResponse)
    ensures var f := ResponseFields(r);
            Get(f, FVersion) == MkText(r.version) && Get(f, FStatus) == MkUInt(r.status) &&
              AsList(Get(f, FDocumentErrors)) == Some([])
  {
    hide MkText, MkUInt, DocumentItems;
  }

  lemma DocumentInLimits(d: Document, levels: nat)
    requires levels >= 4
    requires InLimits(MkStruct(IssuerSignedFields(d.issuerSigned)), levels - 1)
    requires InLimits(MkStruct(DeviceSignedFields(d.deviceSigned)), levels - 1)
    ensures InLimits(DocumentItem(d), levels)
  {
    hide MkStruct, InLimits, IssuerSignedFields, DeviceSignedFields, MkText;
    ScalarsInLimits(0, [], d.docType, levels - 1);
    MkStructInLimits(DocumentFields(d), levels);
  }

  lemma SingletonInLimits(x: Item, levels: nat)
    requires InLimits(x, levels)
    ensures InLimits(MkArray([x]), levels + 1)
  {
    hide InLimits;
    assert forall c | c in [x] :: c == x;
    assert |[x]| <= MAX_ARRAY_ELEMENTS;
    UnfoldArray([x], levels);
  }

  lemma UnfoldArray(items: seq<Item>, levels: nat)
    requires |items| <= MAX_ARRAY_ELEMENTS && forall c | c in items :: InLimits(c, levels)
    ensures InLimits(MkArray(items), levels + 1)
  {
  }

  lemma OneDocumentInLimits(r: DeviceResponse, levels: nat)
    requires |r.documents| == 1 && levels > 2 && InLimits(DocumentItem(r.documents[0]), levels - 2)
    ensures InLimits(MkStruct(ResponseFields(r)), levels)
  {
    hide MkStruct, InLimits, DocumentItem, MkText, MkUInt, MkArray;
    assert DocumentItems(r.documents) == [DocumentItem(r.documents[0])];
    SingletonInLimits(DocumentItem(r.documents[0]), levels - 2);
    ScalarsInLimits(r.status, [], r.version, levels - 1);
    MkStructInLimits(ResponseFields(r), levels);
  }

  // ----- canonical order, concretely -----

  lemma ShortKeyLength(s: bytes)
    requires |s| < 24
    ensures |KeyBytes(KText(s))| == 1 + |s|
  {
  }

  lemma ShorterFirst(a: bytes, b: bytes)
    requires |a| < |b| < 24
    ensures KeyLe(KText(a), KText(b))
  {
    ShortKeyLength(a);
    ShortKeyLength(b);
  }

  lemma ThreeNames(f: Fields, a: Name, b: Name, c: Name)
    requires f.Keys == {a, b, c}
    ensures forall k :: k in FieldKeys(f).Keys <==> k in [KText(NameBytes(a)), KText(NameBytes(b)), KText(NameBytes(c))]
  {
    hide NameBytes;
    FieldKeysAt(f);
    hide FieldKeys;
  }

  lemma ResponseNames(r: DeviceResponse)
    requires r.documents != []
    ensures ResponseFields(r).Keys == {FStatus, FVersion, FDocuments}
    ensures NameBytes(FStatus) == Ascii("status") && NameBytes(FVersion) == Ascii("version") &&
            NameBytes(FDocuments) == Ascii("documents")
  {
    hide Ascii, MkText, MkUInt, DocumentItems;
  }

  lemma ThreeInOrder(a: bytes, b: bytes, c: bytes, s: set<Key>)
    requires |a| < |b| < |c| < 24 && forall k :: k in s <==> k in [KText(a), KText(b), KText(c)]
    ensures SortKeys(s) == [KText(a), KText(b), KText(c)]
  {
    hide KeyLe, SortKeys;
    ShorterFirst(a, b);
    ShorterFirst(a, c);
    ShorterFirst(b, c);
    SortKeysIs([KText(a), KText(b), KText(c)], s);
  }

  /** The members of a response appear length first: status, version, documents. */
  lemma ResponseKeyOrder(r: DeviceResponse)
    requires r.documents != []
    ensures SortKeys(FieldKeys(ResponseFields(r)).Keys) ==
            [KText(Ascii("status")), KText(Ascii("version")), KText(Ascii("documents"))]
  {
    hide Ascii, KeyLe, FieldKeys, ResponseFields, SortKeys, NameBytes;
    ResponseNames(r);
    ThreeNames(ResponseFields(r), FStatus, FVersion, FDocuments);
    assert |Ascii("status")| == 6 && |Ascii("version")| == 7 && |Ascii("documents")| == 9;
    ThreeInOrder(Ascii("status"), Ascii("version"), Ascii("documents"), FieldKeys(ResponseFields(r)).Keys);
  }

  // ----- sizes: when a response can be encoded at all -----

  lemma RawListWF(raws: seq<bytes>)
    requires |raws| <= MAX_ARRAY_ELEMENTS && forall r | r in raws :: RawOk(r)
    ensures WF(RawListItem(raws))
  {
    hide RawOk, Embed, WF, MkArray;
    var items := Embeds(raws);
    forall c | c in items ensures WF(c) {
      var i :| 0 <= i < |raws| && items[i] == c;
      assert raws[i] in raws;
      EmbedIsVerbatim(raws[i]);
    }
    ArrayWF(items);
    NullWF();
  }

  lemma NullWF()
    ensures WF(Null)
  {
  }

  lemma NameSpacesWF(ns: NameSpaceItems)
    requires ItemsInLimits(ns) && forall k, r | k in ns && r in ns[k] :: RawOk(r)
    ensures WF(NameSpacesItem(ns)) <==> forall k | k in ns :: |k| < 0x1_0000_0000_0000_0000
  {
    hide RawOk, WF, MkTextMap, RawListItem;
    var items := RawListItems(ns);
    forall k | k in items ensures WF(items[k]) {
      RawListWF(ns[k]);
    }
    assert items.Keys == ns.Keys;
    MkTextMapWF(items);
  }

  lemma IssuerSignedWF(s: IssuerSigned)
    requires IssuerSignedRawOk(s) && ItemsInLimits(s.nameSpaces)
    ensures WF(MkStruct(IssuerSignedFields(s))) <==> forall k | k in s.nameSpaces :: |k| < 0x1_0000_0000_0000_0000
  {
    hide RawOk, WF, MkStruct, Embed, NameSpacesItem;
    EmbedIsVerbatim(s.issuerAuth);
    NameSpacesWF(s.nameSpaces);
    var f := IssuerSignedFields(s);
    assert s.nameSpaces != map[] ==> f[FNameSpaces] == NameSpacesItem(s.nameSpaces);
    MkStructWF(f);
  }

  lemma DeviceSignedWF(d: DeviceSigned)
    requires DeviceSignedRawOk(d)
    ensures WF(MkStruct(DeviceSignedFields(d)))
  {
    hide RawOk, WF, MkStruct, Embed;
    EmbedIsVerbatim(d.nameSpaces);
    EmbedIsVerbatim(d.deviceAuth.deviceSignature);
    EmbedIsVerbatim(d.deviceAuth.deviceMac);
    MkStructWF(DeviceAuthFields(d.deviceAuth));
    MkStructWF(DeviceSignedFields(d));
  }

  lemma DocumentWF(d: Document)
    requires |d.docType| < 0x1_0000_0000_0000_0000
    requires WF(MkStruct(IssuerSignedFields(d.issuerSigned))) && WF(MkStruct(DeviceSignedFields(d.deviceSigned)))
    ensures WF(DocumentItem(d))
  {
    hide WF, MkStruct, MkText, IssuerSignedFields, DeviceSignedFields;
    StringWF(d.docType);
    MkStructWF(DocumentFields(d));
  }

  lemma StatusZeroWF()
    ensures WF(MkUInt(0))
  {
  }

  lemma OneDocumentWF(r: DeviceResponse)
    requires |r.documents| == 1 && WF(DocumentItem(r.documents[0])) && |r.version| < 100 && r.status == 0
    ensures WF(MkStruct(ResponseFields(r)))
  {
    hide WF, MkStruct, MkText, MkUInt, MkArray, DocumentItem;
    StringWF(r.version);
    StatusZeroWF();
    var items := DocumentItems(r.documents);
    assert items == [DocumentItem(r.documents[0])];
    ArrayWF(items);
    MkStructWF(ResponseFields(r));
  }
}
