/**
 The wire structs: how each is laid out as a CBOR item and how it is read back. Raw message
 fields keep the exact bytes of their item.
 */
module Wire {
  import opened Basics
  import opened CborSyntax
  import opened Codec
  import opened Structs
  import opened Primitives
  import opened GoValues

  datatype IssuerSignedItem = IssuerSignedItem(
    digestID: nat, random: bytes, elementIdentifier: bytes, elementValue: bytes)

  type NameSpaceItems = map<bytes, seq<bytes>>

  datatype IssuerSigned = IssuerSigned(nameSpaces: NameSpaceItems, issuerAuth: bytes)

  type DigestIDs = map<nat, bytes>

  datatype ValidityInfo = ValidityInfo(
    signed: Time, validFrom: Time, validUntil: Time, expectedUpdate: Option<Time>)

  datatype MobileSecurityObject = MobileSecurityObject(
    version: bytes, digestAlgorithm: bytes, valueDigests: map<bytes, DigestIDs>,
    deviceKey: bytes, docType: bytes, validityInfo: ValidityInfo, status: bytes)

  datatype DeviceAuth = DeviceAuth(deviceSignature: bytes, deviceMac: bytes)

  datatype DeviceSigned = DeviceSigned(nameSpaces: bytes, deviceAuth: DeviceAuth)

  datatype Document = Document(docType: bytes, issuerSigned: IssuerSigned, deviceSigned: DeviceSigned)

  datatype DeviceResponse = DeviceResponse(
    version: bytes, documents: seq<Document>, documentErrors: nat, status: nat)

  // ----- tag 24 -----

  /** Encodes `x` and wraps the encoding as an embedded-CBOR byte string. */
  function EncodeTagged24(x: Item): Result<bytes> {
    var inner :- Encode(x);
    Encode(MkTag(24, MkBlob(inner)))
  }

  /** The embedded bytes of a tag-24 item, not decoded. */
  function Untag24(raw: bytes): Result<bytes> {
    match Decode(raw)
    case Err(e) => Err(e)
    case Ok(Tag(_, n, Blob(_, inner))) => if n == 24 then Ok(inner) else Err(ErrMalformed)
    case Ok(_) => Err(ErrMalformed)
  }

  function DecodeTagged24(raw: bytes): Result<Item> {
    var inner :- Untag24(raw);
    Decode(inner)
  }

  /** Unwrapping gives back the exact embedded bytes. */
  lemma Tagged24RoundTrip(x: Item)
    requires EncodeTagged24(x).Ok?
    ensures var raw := EncodeTagged24(x).value;
            raw != [] && Untag24(raw) == Ok(Print(x)) && WF(x) &&
            ParseWhole(raw) == Some(Tag(1, 24, MkBlob(Print(x)))) && WF(Tag(1, 24, MkBlob(Print(x)))) &&
            raw == Print(Tag(1, 24, MkBlob(Print(x))))
    ensures DecodeTagged24(EncodeTagged24(x).value) == if InLimits(x, MAX_NESTED_LEVELS) then Ok(x)
            else Err(ErrMalformed)
  {
    var inner := Print(x);
    var t := Tag(1, 24, MkBlob(inner));
    assert MkTag(24, MkBlob(inner)) == t;
    assert InLimits(t, MAX_NESTED_LEVELS);
    hide Print, WF, InLimits, Decode, MkTag, MkBlob;
    DecodeEncode(t);
    DecodeEncode(x);
    ParseWholePrint(t);
    EmbedPrint(t);
    assert MkBlob(inner).Blob? && MkBlob(inner).b == inner by { BlobShape(inner); }
  }

  lemma BlobShape(b: bytes)
    ensures MkBlob(b).Blob? && MkBlob(b).b == b
  {
  }

  // ----- fields -----

  type Fields = map<Name, Item>

  /** An absent member leaves the zero value, exactly as null does. */
  function Get(f: Fields, n: Name): Item {
    if n in f then f[n] else Null
  }

  function RawField(f: Fields, n: Name): bytes {
    if n in f then Print(f[n]) else []
  }

  /** A member that is left out when its raw message is empty. */
  function RawMember(n: Name, raw: bytes): Fields {
    if raw == [] then map[] else map[n := Embed(raw)]
  }

  lemma RawMemberRoundTrip(base: Fields, n: Name, raw: bytes)
    requires n !in base && RawOk(raw)
    ensures RawField(base + RawMember(n, raw), n) == raw
  {
    EmbedIsVerbatim(raw);
    hide Embed;
  }

  // ----- lists of raw messages -----

  function Embeds(raws: seq<bytes>): seq<Item> {
    seq(|raws|, i requires 0 <= i < |raws| => Embed(raws[i]))
  }

  function Prints(items: seq<Item>): seq<bytes> {
    seq(|items|, i requires 0 <= i < |items| => Print(items[i]))
  }

  /** A list that was never appended to is a nil slice and encodes as null. */
  function RawListItem(raws: seq<bytes>): Item {
    if raws == [] then Null else MkArray(Embeds(raws))
  }

  function ReadRawList(x: Item): Option<seq<bytes>> {
    var items :- AsList(x);
    Some(Prints(items))
  }

  /** Non-empty raw messages, each exactly one item. */
  predicate AllItems(raws: seq<bytes>) {
    forall r | r in raws :: r != [] && RawOk(r)
  }

  lemma RawListRoundTrip(raws: seq<bytes>)
    requires AllItems(raws)
    ensures ReadRawList(RawListItem(raws)) == Some(raws)
  {
    hide Embed, RawOk, Print;
    forall i | 0 <= i < |raws| ensures Print(Embed(raws[i])) == raws[i] {
      assert raws[i] in raws;
      EmbedIsVerbatim(raws[i]);
    }
    assert Prints(Embeds(raws)) == raws;
    assert Prints([]) == [];
  }

  function RawListItems(ns: NameSpaceItems): map<bytes, Item> {
    map k | k in ns :: RawListItem(ns[k])
  }

  function NameSpacesItem(ns: NameSpaceItems): Item { MkTextMap(RawListItems(ns)) }

  function RawListsOf(m: map<bytes, Item>): map<bytes, Option<seq<bytes>>> {
    map k | k in m :: ReadRawList(m[k])
  }

  function ReadNameSpaces(x: Item): Option<NameSpaceItems> {
    var m :- AsTextMap(x);
    AllIn(RawListsOf(m))
  }

  predicate NameSpacesOk(ns: NameSpaceItems) {
    forall k | k in ns :: AllItems(ns[k])
  }

  lemma NameSpacesRoundTrip(ns: NameSpaceItems)
    requires NameSpacesOk(ns)
    ensures ReadNameSpaces(NameSpacesItem(ns)) == if forall k | k in ns :: Utf8(k) then Some(ns) else None
  {
    hide RawListItem, ReadRawList, AllItems, Utf8, AsTextMap, MkTextMap, AllIn;
    var items := RawListItems(ns);
    forall k | k in ns ensures ReadRawList(items[k]) == Some(ns[k]) {
      RawListRoundTrip(ns[k]);
    }
    AsTextMapMkTextMap(items);
    AllInIs(RawListsOf(items), ns);
  }

  lemma RawListInLimits(raws: seq<bytes>, levels: nat)
    requires |raws| <= MAX_ARRAY_ELEMENTS && forall r | r in raws :: InLimits(Embed(r), levels)
    ensures InLimits(RawListItem(raws), levels + 1)
  {
    var es := Embeds(raws);
    forall c | c in es ensures InLimits(c, levels) {
      var i :| 0 <= i < |es| && es[i] == c;
      assert raws[i] in raws;
    }
    hide Embed;
  }

  lemma NameSpacesInLimits(ns: NameSpaceItems, levels: nat)
    requires |ns| <= MAX_MAP_PAIRS && forall k | k in ns :: |ns[k]| <= MAX_ARRAY_ELEMENTS
    requires forall k, r | k in ns && r in ns[k] :: InLimits(Embed(r), levels)
    ensures InLimits(NameSpacesItem(ns), levels + 2)
  {
    hide RawListItem, InLimits, Embed, MkTextMap;
    var items := RawListItems(ns);
    forall k | k in items ensures InLimits(items[k], levels + 1) {
      RawListInLimits(ns[k], levels);
    }
    assert items.Keys == ns.Keys;
    MkTextMapInLimits(items, levels + 2);
  }

  // ----- IssuerSignedItem -----

  function ItemFields(i: IssuerSignedItem): Fields {
    map[FDigestID := MkUInt(i.digestID), FRandom := MkBlob(i.random),
        FElementIdentifier := MkText(i.elementIdentifier), FElementValue := Embed(i.elementValue)]
  }

  /** IssuerSignedItemBytes: the item, wrapped as embedded CBOR. */
  function EncodeIssuerSignedItem(i: IssuerSignedItem): Result<bytes> {
    if !RawOk(i.elementValue) then Err(ErrMalformed) else EncodeTagged24(MkStruct(ItemFields(i)))
  }

  function ReadIssuerSignedItem(x: Item): Option<IssuerSignedItem> {
    var f :- FieldsOf(x);
    var digestID :- AsUint(Get(f, FDigestID));
    var random :- AsBlob(Get(f, FRandom));
    var elementIdentifier :- AsText(Get(f, FElementIdentifier));
    Some(IssuerSignedItem(digestID, random, elementIdentifier, RawField(f, FElementValue)))
  }

  function OrMalformed<T>(o: Option<T>): Result<T> {
    match o case None => Err(ErrMalformed) case Some(v) => Ok(v)
  }

  function DecodeIssuerSignedItem(raw: bytes): Result<IssuerSignedItem> {
    var x :- DecodeTagged24(raw);
    OrMalformed(ReadIssuerSignedItem(x))
  }

  lemma ScalarsRead(n: nat, b: bytes, s: bytes)
    ensures AsUint(MkUInt(n)) == Some(n) && AsBlob(MkBlob(b)) == Some(b)
    ensures AsText(MkText(s)) == if Utf8(s) then Some(s) else None
  {
  }

  lemma ScalarsInLimits(n: nat, b: bytes, s: bytes, levels: nat)
    ensures InLimits(MkUInt(n), levels) && InLimits(MkBlob(b), levels) && InLimits(MkText(s), levels)
  {
  }

  lemma ItemFieldValues(i: IssuerSignedItem)
    ensures var f := ItemFields(i);
            Get(f, FDigestID) == MkUInt(i.digestID) && Get(f, FRandom) == MkBlob(i.random) &&
            Get(f, FElementIdentifier) == MkText(i.elementIdentifier) &&
            RawField(f, FElementValue) == Print(Embed(i.elementValue))
  {
    hide MkUInt, MkBlob, MkText, Embed, Print;
  }

  lemma ReadItemFields(i: IssuerSignedItem)
    requires i.elementValue != [] && RawOk(i.elementValue)
    ensures ReadIssuerSignedItem(MkStruct(ItemFields(i))) == if Utf8(i.elementIdentifier) then Some(i) else None
  {
    hide FieldsOf, MkStruct, Embed, Utf8, RawOk, ItemFields, Get, RawField, AsUint, AsBlob, AsText, MkUInt,
         MkBlob, MkText, Print;
    FieldsOfMkStruct(ItemFields(i));
    EmbedIsVerbatim(i.elementValue);
    ItemFieldValues(i);
    ScalarsRead(i.digestID, i.random, i.elementIdentifier);
  }

  lemma ItemFieldsInLimits(i: IssuerSignedItem, levels: nat)
    requires levels > 0
    ensures InLimits(MkStruct(ItemFields(i)), levels) <==> InLimits(Embed(i.elementValue), levels - 1)
  {
    hide InLimits, MkStruct, Embed, MkUInt, MkBlob, MkText;
    var f := ItemFields(i);
    MkStructInLimits(f, levels);
    ScalarsInLimits(i.digestID, i.random, i.elementIdentifier, levels - 1);
    assert f[FElementValue] == Embed(i.elementValue);
  }

  /** An encoded item reads back as itself exactly when its identifier is UTF-8 and its value
      leaves room for the enclosing map. */
  lemma ItemRoundTrip(i: IssuerSignedItem)
    requires i.elementValue != [] && EncodeIssuerSignedItem(i).Ok?
    ensures DecodeIssuerSignedItem(EncodeIssuerSignedItem(i).value) ==
            if Utf8(i.elementIdentifier) && InLimits(Embed(i.elementValue), MAX_NESTED_LEVELS - 1) then Ok(i)
              else Err(ErrMalformed)
  {
    hide MkStruct, ItemFields, InLimits, Utf8, Embed, RawOk, ReadIssuerSignedItem, EncodeTagged24,
         DecodeTagged24;
    Tagged24RoundTrip(MkStruct(ItemFields(i)));
    ReadItemFields(i);
    ItemFieldsInLimits(i, MAX_NESTED_LEVELS);
  }

  // ----- ValidityInfo -----

  function ReadTime(env: Env, x: Item): Option<Time> {
    if IsNil(x) then Some(ZERO_TIME)
    else
      match x
      case Tag(_, n, Text(_, s)) => if n == 0 && Utf8(s) then env.parseTime(s) else None
      case _ => None
  }

  /** A time as it comes back from the wire. */
  function WireTime(env: Env, t: Time): Option<Time> {
    if t == ZERO_TIME then Some(ZERO_TIME)
    else if Utf8(env.formatTime(t)) then env.parseTime(env.formatTime(t))
    else None
  }

  lemma ReadTimeItem(env: Env, t: Time)
    ensures ReadTime(env, TimeItem(env, t)) == WireTime(env, t)
  {
  }

  function ValidityFields(env: Env, v: ValidityInfo): Fields {
    map[FSigned := TimeItem(env, v.signed), FValidFrom := TimeItem(env, v.validFrom),
      FValidUntil := TimeItem(env, v.validUntil)] +
    (if v.expectedUpdate.Some? then map[FExpectedUpdate := TimeItem(env, v.expectedUpdate.value)] else map[])
  }

  /** An optional time: absent or null means none. */
  function ReadOptionalTime(env: Env, x: Item): Option<Option<Time>> {
    if IsNil(x) then Some(None)
    else
      var t :- ReadTime(env, x);
      Some(Some(t))
  }

  function ReadValidity(env: Env, x: Item): Option<ValidityInfo> {
    var f :- FieldsOf(x);
    var signed :- ReadTime(env, Get(f, FSigned));
    var validFrom :- ReadTime(env, Get(f, FValidFrom));
    var validUntil :- ReadTime(env, Get(f, FValidUntil));
    var expectedUpdate :- ReadOptionalTime(env, Get(f, FExpectedUpdate));
    Some(ValidityInfo(signed, validFrom, validUntil, expectedUpdate))
  }

  function WireOptionalTime(env: Env, t: Option<Time>): Option<Option<Time>> {
    if t.None? || t.value == ZERO_TIME then Some(None)
    else
      var w :- WireTime(env, t.value);
      Some(Some(w))
  }

  /** A validity window as it comes back from the wire. */
  function WireValidity(env: Env, v: ValidityInfo): Option<ValidityInfo> {
    var signed :- WireTime(env, v.signed);
    var validFrom :- WireTime(env, v.validFrom);
    var validUntil :- WireTime(env, v.validUntil);
    var expectedUpdate :- WireOptionalTime(env, v.expectedUpdate);
    Some(ValidityInfo(signed, validFrom, validUntil, expectedUpdate))
  }

  lemma ReadOptionalTimeItem(env: Env, v: ValidityInfo)
    ensures ReadOptionalTime(env, Get(ValidityFields(env, v), FExpectedUpdate)) ==
            WireOptionalTime(env, v.expectedUpdate)
  {
    if v.expectedUpdate.Some? {
      ReadTimeItem(env, v.expectedUpdate.value);
      assert v.expectedUpdate.value != ZERO_TIME ==> !IsNil(TimeItem(env, v.expectedUpdate.value));
    }
    hide WireTime, ReadTime;
  }

  lemma ValidityFieldValues(env: Env, v: ValidityInfo)
    ensures var f := ValidityFields(env, v);
            Get(f, FSigned) == TimeItem(env, v.signed) && Get(f, FValidFrom) == TimeItem(env, v.validFrom) &&
            Get(f, FValidUntil) == TimeItem(env, v.validUntil)
  {
    hide TimeItem;
  }

  lemma ReadValidityFields(env: Env, v: ValidityInfo)
    ensures ReadValidity(env, MkStruct(ValidityFields(env, v))) == WireValidity(env, v)
  {
    hide FieldsOf, MkStruct, TimeItem, ReadTime, WireTime, ReadOptionalTime, WireOptionalTime,
         ValidityFields, Get;
    FieldsOfMkStruct(ValidityFields(env, v));
    ValidityFieldValues(env, v);
    ReadTimeItem(env, v.signed);
    ReadTimeItem(env, v.validFrom);
    ReadTimeItem(env, v.validUntil);
    ReadOptionalTimeItem(env, v);
  }

  /** Times lose their fraction of a second and nothing else. */
  function Truncated(v: ValidityInfo): ValidityInfo {
    ValidityInfo(TruncateToSecond(v.signed), TruncateToSecond(v.validFrom), TruncateToSecond(v.validUntil),
                 match v.expectedUpdate
                 case None => None
                 case Some(t) => if t == ZERO_TIME then None else Some(TruncateToSecond(t)))
  }

  predicate TimeReadable(env: Env, t: Time) {
    t == ZERO_TIME || (Formats(env, t) && Utf8(env.formatTime(t)))
  }

  predicate ValidityReadable(env: Env, v: ValidityInfo) {
    TimeReadable(env, v.signed) && TimeReadable(env, v.validFrom) && TimeReadable(env, v.validUntil) &&
    (v.expectedUpdate.Some? ==> TimeReadable(env, v.expectedUpdate.value))
  }

  lemma WireValidityTruncates(env: Env, v: ValidityInfo)
    requires ValidityReadable(env, v)
    ensures WireValidity(env, v) == Some(Truncated(v))
  {
    assert TruncateToSecond(ZERO_TIME) == ZERO_TIME;
    hide Utf8;
  }

  lemma TimeItemInLimits(env: Env, t: Time, levels: nat)
    ensures InLimits(TimeItem(env, t), levels)
  {
  }

  lemma ValidityInLimits(env: Env, v: ValidityInfo, levels: nat)
    requires levels > 0
    ensures InLimits(MkStruct(ValidityFields(env, v)), levels)
  {
    var f := ValidityFields(env, v);
    forall n | n in f ensures InLimits(f[n], levels - 1) {
      TimeItemInLimits(env, v.signed, levels - 1);
      TimeItemInLimits(env, v.validFrom, levels - 1);
      TimeItemInLimits(env, v.validUntil, levels - 1);
      if v.expectedUpdate.Some? { TimeItemInLimits(env, v.expectedUpdate.value, levels - 1); }
      hide InLimits, TimeItem;
    }
    hide InLimits, MkStruct, ValidityFields;
    MkStructInLimits(f, levels);
  }

  // ----- MobileSecurityObject -----

  function BlobItems(d: DigestIDs): map<nat, Item> {
    map k | k in d :: MkBlob(d[k])
  }

  function DigestsItem(d: DigestIDs): Item { MkUintMap(BlobItems(d)) }

  function BlobsOf(m: map<nat, Item>): map<nat, Option<bytes>> {
    map k | k in m :: AsBlob(m[k])
  }

  function ReadDigests(x: Item): Option<DigestIDs> {
    var m :- AsUintMap(x);
    AllIn(BlobsOf(m))
  }

  lemma DigestsRoundTrip(d: DigestIDs)
    ensures ReadDigests(DigestsItem(d)) == Some(d)
  {
    hide AsUintMap, MkUintMap, AllIn;
    var items := BlobItems(d);
    AsUintMapMkUintMap(items);
    AllInIs(BlobsOf(items), d);
  }

  lemma DigestsInLimits(d: DigestIDs, levels: nat)
    requires levels > 0
    ensures InLimits(DigestsItem(d), levels) <==> |d| <= MAX_MAP_PAIRS
  {
    var items := BlobItems(d);
    assert forall k | k in items :: InLimits(items[k], levels - 1);
    hide InLimits, MkUintMap, MkBlob;
    assert items.Keys == d.Keys;
    MkUintMapInLimits(items, levels);
  }

  function DigestItems(vd: map<bytes, DigestIDs>): map<bytes, Item> {
    map ns | ns in vd :: DigestsItem(vd[ns])
  }

  function ValueDigestsItem(vd: map<bytes, DigestIDs>): Item { MkTextMap(DigestItems(vd)) }

  function DigestTablesOf(m: map<bytes, Item>): map<bytes, Option<DigestIDs>> {
    map ns | ns in m :: ReadDigests(m[ns])
  }

  function ReadValueDigests(x: Item): Option<map<bytes, DigestIDs>> {
    var m :- AsTextMap(x);
    AllIn(DigestTablesOf(m))
  }

  lemma ValueDigestsRoundTrip(vd: map<bytes, DigestIDs>)
    ensures ReadValueDigests(ValueDigestsItem(vd)) == if forall ns | ns in vd :: Utf8(ns) then Some(vd) else None
  {
    hide DigestsItem, ReadDigests, Utf8, AsTextMap, MkTextMap, AllIn;
    var items := DigestItems(vd);
    forall ns | ns in vd ensures ReadDigests(items[ns]) == Some(vd[ns]) {
      DigestsRoundTrip(vd[ns]);
    }
    AsTextMapMkTextMap(items);
    AllInIs(DigestTablesOf(items), vd);
  }

  lemma ValueDigestsInLimits(vd: map<bytes, DigestIDs>, levels: nat)
    requires levels > 1
    ensures InLimits(ValueDigestsItem(vd), levels) <==>
            |vd| <= MAX_MAP_PAIRS && forall ns | ns in vd :: |vd[ns]| <= MAX_MAP_PAIRS
  {
    hide InLimits, MkTextMap, DigestsItem;
    var items := DigestItems(vd);
    forall ns | ns in vd ensures InLimits(items[ns], levels - 1) <==> |vd[ns]| <= MAX_MAP_PAIRS {
      DigestsInLimits(vd[ns], levels - 1);
    }
    assert items.Keys == vd.Keys;
    MkTextMapInLimits(items, levels);
  }

  function MsoBase(env: Env, m: MobileSecurityObject): Fields {
    map[FVersion := MkText(m.version), FDigestAlgorithm := MkText(m.digestAlgorithm),
        FValueDigests := ValueDigestsItem(m.valueDigests),
        FDeviceKeyInfo := MkStruct(DeviceKeyFields(m.deviceKey)),
        FDocType := MkText(m.docType),
        FValidityInfo := MkStruct(ValidityFields(env, m.validityInfo))]
  }

  function MsoFields(env: Env, m: MobileSecurityObject): Fields {
    MsoBase(env, m) + RawMember(FStatus, m.status)
  }

  /** MobileSecurityObjectBytes. */
  function EncodeMso(env: Env, m: MobileSecurityObject): Result<bytes> {
    if !RawOk(m.deviceKey) || !RawOk(m.status) then Err(ErrMalformed)
    else EncodeTagged24(MkStruct(MsoFields(env, m)))
  }

  /** keyAuthorizations is kept raw by the decoder and never read; keyInfo must be a map with
      integer keys. */
  function ReadDeviceKey(x: Item): Option<bytes> {
    var f :- FieldsOf(x);
    var keyInfo :- AsMap(Get(f, FKeyInfo));
    if forall k | k in keyInfo :: k.KInt? then Some(RawField(f, FDeviceKey)) else None
  }

  function ReadMso(env: Env, x: Item): Option<MobileSecurityObject> {
    var f :- FieldsOf(x);
    var version :- AsText(Get(f, FVersion));
    var digestAlgorithm :- AsText(Get(f, FDigestAlgorithm));
    var valueDigests :- ReadValueDigests(Get(f, FValueDigests));
    var deviceKey :- ReadDeviceKey(Get(f, FDeviceKeyInfo));
    var docType :- AsText(Get(f, FDocType));
    var validityInfo :- ReadValidity(env, Get(f, FValidityInfo));
    Some(MobileSecurityObject(version, digestAlgorithm, valueDigests, deviceKey, docType, validityInfo,
      RawField(f, FStatus)))
  }

  function DecodeMso(env: Env, raw: bytes): Result<MobileSecurityObject> {
    var x :- DecodeTagged24(raw);
    OrMalformed(ReadMso(env, x))
  }

  function DeviceKeyFields(raw: bytes): Fields { map[FDeviceKey := Embed(raw)] }

  lemma ReadDeviceKeyStruct(raw: bytes)
    requires raw != [] && RawOk(raw)
    ensures ReadDeviceKey(MkStruct(DeviceKeyFields(raw))) == Some(raw)
  {
    hide Embed, MkStruct, FieldsOf, Print, RawOk;
    var f := DeviceKeyFields(raw);
    FieldsOfMkStruct(f);
    EmbedIsVerbatim(raw);
    assert RawField(f, FDeviceKey) == raw && AsMap(Get(f, FKeyInfo)) == Some(map[]);
  }

  /** Every text of the object is UTF-8 and its times survive the wire. */
  predicate MsoReadable(env: Env, m: MobileSecurityObject) {
    Utf8(m.version) && Utf8(m.digestAlgorithm) && Utf8(m.docType) &&
    (forall ns | ns in m.valueDigests :: Utf8(ns)) && WireValidity(env, m.validityInfo).Some?
  }

  lemma MsoFieldValues(env: Env, m: MobileSecurityObject)
    ensures var f := MsoFields(env, m);
            Get(f, FVersion) == MkText(m.version) && Get(f, FDigestAlgorithm) == MkText(m.digestAlgorithm) &&
            Get(f, FValueDigests) == ValueDigestsItem(m.valueDigests) &&
            Get(f, FDeviceKeyInfo) == MkStruct(DeviceKeyFields(m.deviceKey)) &&
            Get(f, FDocType) == MkText(m.docType) &&
            Get(f, FValidityInfo) == MkStruct(ValidityFields(env, m.validityInfo))
  {
    hide Embed, MkStruct, ValueDigestsItem, ValidityFields, MkText, RawOk, DeviceKeyFields;
    assert forall n | n in RawMember(FStatus, m.status) :: n == FStatus;
    hide RawMember;
  }

  lemma MsoStatusValue(env: Env, m: MobileSecurityObject)
    requires RawOk(m.status)
    ensures RawField(MsoFields(env, m), FStatus) == m.status
  {
    hide Embed, MkStruct, ValueDigestsItem, ValidityFields, MkText, RawOk, DeviceKeyFields;
    RawMemberRoundTrip(MsoBase(env, m), FStatus, m.status);
  }

  lemma ReadMsoFields(env: Env, m: MobileSecurityObject)
    requires m.deviceKey != [] && RawOk(m.deviceKey) && RawOk(m.status)
    ensures ReadMso(env, MkStruct(MsoFields(env, m))) ==
            if MsoReadable(env, m) then Some(m.(validityInfo := WireValidity(env, m.validityInfo).value)) else None
  {
    hide MsoFields, FieldsOf, MkStruct, ValueDigestsItem, ReadValueDigests, ValidityFields, ReadValidity,
         WireValidity;
    hide Embed, RawOk, ReadDeviceKey, MkText, AsText, Utf8, Get, RawField, DeviceKeyFields;
    FieldsOfMkStruct(MsoFields(env, m));
    MsoFieldValues(env, m);
    MsoStatusValue(env, m);
    ScalarsRead(0, [], m.version);
    ScalarsRead(0, [], m.digestAlgorithm);
    ScalarsRead(0, [], m.docType);
    ValueDigestsRoundTrip(m.valueDigests);
    ReadDeviceKeyStruct(m.deviceKey);
    ReadValidityFields(env, m.validityInfo);
  }

  lemma DeviceKeyInLimits(raw: bytes, levels: nat)
    requires levels > 0
    ensures InLimits(MkStruct(DeviceKeyFields(raw)), levels) <==> InLimits(Embed(raw), levels - 1)
  {
    hide InLimits, MkStruct, Embed;
    var f := DeviceKeyFields(raw);
    MkStructInLimits(f, levels);
    assert f[FDeviceKey] == Embed(raw);
  }

  lemma RawMemberInLimits(n: Name, raw: bytes, levels: nat)
    ensures (forall k | k in RawMember(n, raw) :: InLimits(RawMember(n, raw)[k], levels)) <==>
            (raw != [] ==> InLimits(Embed(raw), levels))
  {
    hide InLimits, Embed;
    if raw != [] {
      assert RawMember(n, raw)[n] == Embed(raw);
    }
  }

  lemma UnionInLimits(f: Fields, g: Fields, levels: nat)
    requires f.Keys !! g.Keys
    ensures (forall k | k in f + g :: InLimits((f + g)[k], levels)) <==>
            (forall k | k in f :: InLimits(f[k], levels)) && (forall k | k in g :: InLimits(g[k], levels))
  {
    hide InLimits;
    assert forall k | k in f :: k in f + g && (f + g)[k] == f[k];
    assert forall k | k in g :: k in f + g && (f + g)[k] == g[k];
  }

  lemma MsoInLimits(env: Env, m: MobileSecurityObject, levels: nat)
    requires levels > 3
    ensures InLimits(MkStruct(MsoFields(env, m)), levels) <==>
            |m.valueDigests| <= MAX_MAP_PAIRS && (forall ns | ns in m.valueDigests ::
              |m.valueDigests[ns]| <= MAX_MAP_PAIRS) &&
            InLimits(Embed(m.deviceKey), levels - 2) && (m.status != [] ==> InLimits(Embed(m.status), levels - 1))
  {
    hide InLimits, MkStruct, Embed, ValueDigestsItem, ValidityFields, MkText, DeviceKeyFields, RawMember;
    MkStructInLimits(MsoFields(env, m), levels);
    ValueDigestsInLimits(m.valueDigests, levels - 1);
    DeviceKeyInLimits(m.deviceKey, levels - 1);
    MsoBaseInLimits(env, m, levels - 1);
    RawMemberInLimits(FStatus, m.status, levels - 1);
    assert RawMember(FStatus, m.status).Keys <= {FStatus} by { RawMemberKeys(FStatus, m.status); }
    UnionInLimits(MsoBase(env, m), RawMember(FStatus, m.status), levels - 1);
  }

  lemma RawMemberKeys(n: Name, raw: bytes)
    ensures RawMember(n, raw).Keys <= {n}
  {
  }

  lemma MsoBaseInLimits(env: Env, m: MobileSecurityObject, levels: nat)
    requires levels > 2
    ensures (forall k | k in MsoBase(env, m) :: InLimits(MsoBase(env, m)[k], levels)) <==>
            InLimits(ValueDigestsItem(m.valueDigests), levels) &&
              InLimits(MkStruct(DeviceKeyFields(m.deviceKey)), levels)
  {
    hide InLimits, MkStruct, ValueDigestsItem, ValidityFields, MkText, DeviceKeyFields;
    ScalarsInLimits(0, [], m.version, levels);
    ScalarsInLimits(0, [], m.digestAlgorithm, levels);
    ScalarsInLimits(0, [], m.docType, levels);
    ValidityInLimits(env, m.validityInfo, levels);
    var f := MsoBase(env, m);
    assert f[FValueDigests] == ValueDigestsItem(m.valueDigests);
    assert f[FDeviceKeyInfo] == MkStruct(DeviceKeyFields(m.deviceKey));
  }

  /** An encoded object reads back with its times as the wire carries them, exactly when its
      texts are UTF-8, its times parse and its tables are within the limits. */
  lemma MsoRoundTrip(env: Env, m: MobileSecurityObject)
    requires m.deviceKey != [] && EncodeMso(env, m).Ok?
    ensures DecodeMso(env, EncodeMso(env, m).value) ==
            if MsoReadable(env, m) && InLimits(MkStruct(MsoFields(env, m)), MAX_NESTED_LEVELS)
            then Ok(m.(validityInfo := WireValidity(env, m.validityInfo).value)) else Err(ErrMalformed)
  {
    hide MsoFields, MkStruct, InLimits, MsoReadable, WireValidity, RawOk, EncodeTagged24, DecodeTagged24,
         ReadMso;
    Tagged24RoundTrip(MkStruct(MsoFields(env, m)));
    ReadMsoFields(env, m);
    if MsoReadable(env, m) {
      ReadableValidity(env, m);
    }
  }

  lemma ReadableValidity(env: Env, m: MobileSecurityObject)
    requires MsoReadable(env, m)
    ensures WireValidity(env, m.validityInfo).Some?
  {
    hide WireValidity, Utf8;
  }
}
