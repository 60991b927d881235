/**
 How large encodings get: templates of the sizes a program can hold are always issued, so that
 completeness needs no premise about success.
 */
module HonestRuns {
  import opened Basics
  import opened CborSyntax
  import opened Codec
  import opened Structs
  import opened Primitives
  import opened GoValues
  import opened Cose
  import opened CoseSign1
  import opened CoseKey
  import opened Wire
  import opened Responses
  import opened StatusRefs
  import opened Issuing
  import opened Presenting
  import opened IssuerAuthentication
  import opened DeviceAuthentication
  import opened DevicePresenting
  import opened Verification
  import opened IssuedCredentials
  import opened Credentials
  import opened Completeness
  import opened Soundness

  /** Far above anything a program holds in one string, far below 2^64. */
  const LARGE: nat := 0x1_0000_0000

  // ----- lengths of encodings -----

  lemma OneMore(n: nat, b: nat, head: nat, tail: nat)
    requires head <= b && tail <= n * b
    ensures head + tail <= (n + 1) * b
  {
  }

  lemma {:induction false} PrintAllBound(items: seq<Item>, b: nat)
    requires forall c | c in items :: |Print(c)| <= b
    ensures |PrintAll(items)| <= |items| * b
  {
    if items != [] {
      hide Print;
      assert items == [items[0]] + items[1..];
      PrintAllBound(items[1..], b);
      OneMore(|items[1..]|, b, |Print(items[0])|, |PrintAll(items[1..])|);
    }
  }

  lemma Twice(n: nat, b: nat)
    ensures (n + n) * b == 2 * n * b
  {
  }

  predicate PrintsWithin(items: seq<Item>, b: nat) {
    forall c | c in items :: |Print(c)| <= b
  }

  lemma PairsWithin(m: map<Key, Item>, b: nat)
    requires forall k | k in m :: |KeyBytes(k)| <= b && |Print(m[k])| <= b
    ensures PrintsWithin(FlatPairs(SortKeys(m.Keys), m), b)
  {
    hide Print, KeyItem, SortKeys;
    var ks := SortKeys(m.Keys);
    FlatPairsChildren(ks, m);
    hide FlatPairs;
    forall c | c in FlatPairs(ks, m) ensures |Print(c)| <= b {
      var k :| k in ks && (c == KeyItem(k) || c == m[k]);
      assert Print(KeyItem(k)) == KeyBytes(k);
    }
  }

  lemma PairsBound(m: map<Key, Item>, b: nat)
    requires PrintsWithin(FlatPairs(SortKeys(m.Keys), m), b)
    ensures |PrintAll(FlatPairs(SortKeys(m.Keys), m))| <= 2 * |m| * b
  {
    hide Print, PrintAll, SortKeys, FlatPairs;
    var kvs := FlatPairs(SortKeys(m.Keys), m);
    assert |kvs| == |m| + |m|;
    PrintAllBound(kvs, b);
    hide PrintsWithin;
    Twice(|m|, b);
  }

  lemma MapLength(m: map<Key, Item>)
    requires |m| < LARGE
    ensures |Print(MkMap(m))| <= 9 + |PrintAll(FlatPairs(SortKeys(m.Keys), m))|
  {
    hide PrintAll, FlatPairs, SortKeys;
    var kvs := FlatPairs(SortKeys(m.Keys), m);
    assert PairCount(kvs) == |m|;
  }

  lemma MapBound(m: map<Key, Item>, b: nat)
    requires |m| < LARGE && forall k | k in m :: |KeyBytes(k)| <= b && |Print(m[k])| <= b
    ensures |Print(MkMap(m))| <= 9 + 2 * |m| * b
  {
    hide Print, MkMap, KeyBytes, PrintAll, FlatPairs, SortKeys, PrintsWithin;
    MapLength(m);
    PairsWithin(m, b);
    PairsBound(m, b);
  }

  lemma KeyLength(k: Key)
    ensures k.KText? && |k.s| < MAX_LENGTH ==> |KeyBytes(k)| <= |k.s| + 9
    ensures k.KInt? && 0 <= k.n < MAX_LENGTH ==> |KeyBytes(k)| <= 9
  {
  }

  lemma TextMapBound(m: map<bytes, Item>, b: nat)
    requires |m| < LARGE && forall s | s in m :: |s| + 9 <= b < MAX_LENGTH && |Print(m[s])| <= b
    ensures |Print(MkTextMap(m))| <= 9 + 2 * |m| * b
  {
    hide Print, MkMap, KeyBytes;
    TextKeysSize(m);
    forall k | k in TextKeys(m) ensures |KeyBytes(k)| <= b && |Print(TextKeys(m)[k])| <= b { KeyLength(k); }
    MapBound(TextKeys(m), b);
  }

  lemma UintMapBound(m: map<nat, Item>, b: nat)
    requires |m| < LARGE && b >= 9 && forall n | n in m :: n < MAX_LENGTH && |Print(m[n])| <= b
    ensures |Print(MkUintMap(m))| <= 9 + 2 * |m| * b
  {
    hide Print, MkMap, KeyBytes;
    UintKeysSize(m);
    forall k | k in UintKeys(m) ensures |KeyBytes(k)| <= b && |Print(UintKeys(m)[k])| <= b { KeyLength(k); }
    MapBound(UintKeys(m), b);
  }

  lemma NameLength(n: Name)
    ensures |NameBytes(n)| <= 100
  {
    NameRecovered(n);
  }

  lemma AtMost31(n: nat, b: nat)
    requires n <= 31
    ensures 2 * n * b <= 62 * b
  {
    var d := 31 - n;
    assert 62 * b == 2 * (n + d) * b == 2 * n * b + 2 * d * b;
  }

  lemma NameKeysWithin(f: Fields, b: nat)
    requires b >= 109 && forall n | n in f :: |Print(f[n])| <= b
    ensures forall k | k in FieldKeys(f) :: |KeyBytes(k)| <= b && |Print(FieldKeys(f)[k])| <= b
  {
    hide Print, KeyBytes, NameBytes;
    FieldKeysAt(f);
    var m := FieldKeys(f);
    forall k | k in m ensures |KeyBytes(k)| <= b && |Print(m[k])| <= b {
      var n :| n in f && k == KText(NameBytes(n));
      NameLength(n);
      KeyLength(k);
    }
  }

  lemma StructBound(f: Fields, b: nat)
    requires b >= 109 && forall n | n in f :: |Print(f[n])| <= b
    ensures |Print(MkStruct(f))| <= 9 + 62 * b
  {
    hide Print, MkMap, KeyBytes, FieldKeys;
    FieldKeysSize(f);
    NameKeysWithin(f, b);
    MapBound(FieldKeys(f), b);
    AtMost31(|FieldKeys(f)|, b);
  }

  lemma ScalarLengths(n: nat, s: bytes)
    requires n < MAX_LENGTH && |s| < MAX_LENGTH
    ensures |Print(MkUInt(n))| <= 9 && |Print(MkText(s))| <= |s| + 9 && |Print(MkBlob(s))| <= |s| + 9
    ensures WF(MkUInt(n)) && WF(MkText(s)) && WF(MkBlob(s))
  {
  }

  // ----- items -----

  /** Strings and encoded values of a size a program can hold. */
  predicate SmallElements(env: Env, elems: Elements) {
    |elems| <= MAX_ARRAY_ELEMENTS &&
    forall id | id in elems :: |id| <= LARGE && WF(ValueItem(env, elems[id])) &&
      |Print(ValueItem(env, elems[id]))| <= LARGE
  }

  lemma ItemStructFits(i: IssuerSignedItem)
    requires i.digestID < MAX_LENGTH && |i.random| <= LARGE && |i.elementIdentifier| <= LARGE
    requires RawOk(i.elementValue) && |i.elementValue| <= LARGE
    ensures WF(MkStruct(ItemFields(i))) && |Print(MkStruct(ItemFields(i)))| <= 70 * LARGE
  {
    hide Print, WF, MkStruct, Embed, RawOk, MkUInt, MkText, MkBlob;
    ScalarLengths(i.digestID, i.random);
    ScalarLengths(0, i.elementIdentifier);
    EmbedIsVerbatim(i.elementValue);
    EmbeddedLength(i.elementValue);
    MkStructWF(ItemFields(i));
    StructBound(ItemFields(i), LARGE + 9);
  }

  lemma SmallItemIsBuilt(env: Env, k: nat, p: Pick, v: GoVal)
    requires k < LARGE && |p.salt| == SALT_LENGTH && |p.id| <= LARGE && WF(ValueItem(env, v)) &&
             |Print(ValueItem(env, v))| <= LARGE
    ensures BuildItem(env, k, p, v).Ok?
  {
    hide ValueItem, WF, MkStruct, ItemFields, Embed, RawOk, Print, EncodeTagged24;
    EmbedPrint(ValueItem(env, v));
    var i := IssuerSignedItem(k, p.salt, p.id, Print(ValueItem(env, v)));
    ItemStructFits(i);
    Tagged24Encodes(MkStruct(ItemFields(i)));
  }

  lemma SmallElementsEncodable(env: Env, elems: Elements, picks: seq<Pick>)
    requires ValidPicks(elems, picks) && SmallElements(env, elems)
    ensures InElements(elems, picks) && Encodable(env, elems, picks)
  {
    hide BuildItem, ValueItem, WF, Print;
    PicksCount(elems, picks);
    forall k | 0 <= k < |picks| ensures BuildItem(env, k, picks[k], elems[picks[k].id]).Ok? {
      SmallItemIsBuilt(env, k, picks[k], elems[picks[k].id]);
    }
  }

  // ----- the signed object -----

  ghost predicate SmallEnv(env: Env) {
    (forall alg, data :: |env.hash(alg, data)| <= 64) && forall t :: |env.formatTime(t)| <= LARGE
  }

  lemma DigestsFit(d: DigestIDs)
    requires |d| <= MAX_MAP_PAIRS && forall k | k in d :: k < MAX_LENGTH && |d[k]| <= 64
    ensures WF(DigestsItem(d)) && |Print(DigestsItem(d))| <= LARGE
  {
    hide Print, WF, MkUintMap, MkBlob;
    var items := BlobItems(d);
    assert items.Keys == d.Keys;
    KeyCount(items);
    KeyCount(d);
    forall k | k in items ensures WF(items[k]) && |Print(items[k])| <= 73 { ScalarLengths(0, d[k]); }
    MkUintMapWF(items);
    UintMapBound(items, 73);
    assert 9 + 2 * |items| * 73 <= LARGE;
  }

  predicate SmallTables(vd: map<bytes, DigestIDs>) {
    |vd| <= MAX_MAP_PAIRS && forall ns | ns in vd ::
      |ns| <= LARGE && |vd[ns]| <= MAX_MAP_PAIRS && forall k | k in vd[ns] :: k < MAX_LENGTH && |vd[ns][k]| <= 64
  }

  lemma ValueDigestsFit(vd: map<bytes, DigestIDs>)
    requires SmallTables(vd)
    ensures WF(ValueDigestsItem(vd)) && |Print(ValueDigestsItem(vd))| <= 140000 * LARGE
  {
    hide Print, WF, MkTextMap, DigestsItem;
    var items := DigestItems(vd);
    assert items.Keys == vd.Keys;
    KeyCount(items);
    KeyCount(vd);
    forall ns | ns in items ensures WF(items[ns]) && |Print(items[ns])| <= LARGE { DigestsFit(vd[ns]); }
    MkTextMapWF(items);
    TextMapBound(items, LARGE + 9);
    assert 9 + 2 * |items| * (LARGE + 9) <= 140000 * LARGE;
  }

  lemma TimeFits(env: Env, t: Time)
    requires SmallEnv(env)
    ensures WF(TimeItem(env, t)) && |Print(TimeItem(env, t))| <= LARGE + 10
  {
    var s := env.formatTime(t);
    assert |s| <= LARGE;
    ScalarLengths(0, s);
  }

  lemma ValidityFits(env: Env, v: ValidityInfo)
    requires SmallEnv(env)
    ensures WF(MkStruct(ValidityFields(env, v))) && |Print(MkStruct(ValidityFields(env, v)))| <= 70 * LARGE
  {
    hide TimeItem, Print, WF, MkStruct, SmallEnv;
    var f := ValidityFields(env, v);
    TimeFits(env, v.signed);
    TimeFits(env, v.validFrom);
    TimeFits(env, v.validUntil);
    if v.expectedUpdate.Some? { TimeFits(env, v.expectedUpdate.value); }
    MkStructWF(f);
    StructBound(f, LARGE + 10);
  }

  lemma DeviceKeyFits(raw: bytes)
    requires RawOk(raw) && |raw| <= LARGE
    ensures WF(MkStruct(DeviceKeyFields(raw))) && |Print(MkStruct(DeviceKeyFields(raw)))| <= 70 * LARGE
  {
    hide Print, WF, MkStruct, RawOk, Embed;
    EmbedIsVerbatim(raw);
    EmbeddedLength(raw);
    MkStructWF(DeviceKeyFields(raw));
    StructBound(DeviceKeyFields(raw), LARGE + 1);
  }

  predicate SmallMso(m: MobileSecurityObject) {
    |m.version| <= LARGE && |m.digestAlgorithm| <= LARGE && |m.docType| <= LARGE && SmallTables(m.valueDigests) &&
    RawOk(m.deviceKey) && |m.deviceKey| <= LARGE && RawOk(m.status) && |m.status| <= 4900 * LARGE
  }

  lemma StatusMemberFits(raw: bytes)
    requires RawOk(raw) && |raw| <= 4900 * LARGE
    ensures forall n | n in RawMember(FStatus, raw) ::
              WF(RawMember(FStatus, raw)[n]) && |Print(RawMember(FStatus, raw)[n])| <= 4901 * LARGE
  {
    hide Print, WF, RawOk, Embed;
    EmbedIsVerbatim(raw);
    EmbeddedLength(raw);
  }

  lemma MsoBaseFits(env: Env, m: MobileSecurityObject)
    requires SmallEnv(env) && SmallMso(m)
    ensures forall n | n in MsoBase(env, m) :: WF(MsoBase(env, m)[n]) && |Print(MsoBase(env, m)[n])| <= 140000 * LARGE
  {
    hide Print, WF, RawOk, MkStruct, MkText, ValueDigestsItem, DeviceKeyFields, ValidityFields,
         SmallTables, SmallEnv;
    ScalarLengths(0, m.version);
    ScalarLengths(0, m.digestAlgorithm);
    ScalarLengths(0, m.docType);
    ValueDigestsFit(m.valueDigests);
    DeviceKeyFits(m.deviceKey);
    ValidityFits(env, m.validityInfo);
  }

  lemma SmallMsoEncodes(env: Env, m: MobileSecurityObject)
    requires SmallEnv(env) && SmallMso(m)
    ensures EncodeMso(env, m).Ok? && |EncodeMso(env, m).value| < MAX_LENGTH
  {
    hide Print, WF, RawOk, MkStruct, MsoBase, RawMember, SmallTables, SmallEnv, EncodeTagged24;
    MsoBaseFits(env, m);
    StatusMemberFits(m.status);
    var f := MsoFields(env, m);
    forall n | n in f ensures WF(f[n]) && |Print(f[n])| <= 140000 * LARGE {
      assert f[n] == if n in RawMember(FStatus, m.status) then RawMember(FStatus, m.status)[n] else MsoBase(env, m)[n];
    }
    MkStructWF(f);
    StructBound(f, 140000 * LARGE);
    Tagged24Encodes(MkStruct(f));
  }

  lemma StatusFits(status: Option<StatusRef>)
    requires status.Some? ==> |status.value.uri| <= LARGE && status.value.index < MAX_LENGTH
    ensures EncodeStatus(status).Ok? && |EncodeStatus(status).value| <= 4900 * LARGE
  {
    hide Print, WF, MkStruct, MkText, MkUInt;
    if status.Some? {
      var s := status.value;
      ScalarLengths(s.index, s.uri);
      MkStructWF(ListFields(s.uri, s.index));
      StructBound(ListFields(s.uri, s.index), LARGE + 9);
      MkStructWF(StatusFields(s.uri, s.index));
      StructBound(StatusFields(s.uri, s.index), 70 * LARGE);
    }
  }

  // ----- the whole run -----

  /** A template of sizes a program can hold. */
  predicate SmallTemplate(env: Env, t: DocumentTemplate) {
    t.docType != [] && |t.docType| <= LARGE && AllowedDigestAlg(TemplateAlg(t)) && |t.namespaces| <= MAX_MAP_PAIRS &&
    (forall ns | ns in t.namespaces :: |ns| <= LARGE && SmallElements(env, t.namespaces[ns])) &&
    (t.status.Some? ==> |t.status.value.uri| <= LARGE && t.status.value.index < MAX_LENGTH)
  }

  ghost predicate SmallSigner(signer: Signer) {
    signer.pub.EcKey? && |signer.protected| <= LARGE && forall m :: |signer.sign(m)| <= LARGE
  }

  predicate SmallChain(chain: seq<bytes>) {
    ChainFits(chain) && forall c | c in chain :: |c| <= LARGE
  }

  lemma SmallRan(env: Env, e: Issuance)
    requires ValidChoices(e.t, e.ch) && ChoicesInTemplate(e.t, e.ch) && SmallTemplate(env, e.t)
    ensures Ran(env, e)
  {
    hide ValidPicks, SmallElements, Encodable, AllowedDigestAlg, TemplateAlg;
    forall ns | ns in e.t.namespaces ensures Encodable(env, e.t.namespaces[ns], e.ch[ns]) {
      SmallElementsEncodable(env, e.t.namespaces[ns], e.ch[ns]);
    }
  }

  lemma KeyMembersBound(c: Curve, x: bytes, y: bytes)
    requires AllowedCurve(c) && |x| <= 66 && |y| <= 66
    ensures forall k | k in KeyMembers(c, x, y) :: |KeyBytes(k)| <= 75 && |Print(KeyMembers(c, x, y)[k])| <= 75
  {
  }

  lemma KeyStructBound(c: Curve, x: bytes, y: bytes)
    requires AllowedCurve(c) && |x| <= 66 && |y| <= 66
    ensures |Print(KeyStruct(c, x, y))| <= LARGE
  {
    hide Print, MkMap, KeyBytes, KeyMembers;
    KeyMembersBound(c, x, y);
    KeyMembersSize(c, x, y);
    MapBound(KeyMembers(c, x, y), 75);
  }

  lemma SealedKeySmall(env: Env, t: DocumentTemplate, deviceKey: PublicKey)
    requires ValidKey(env, deviceKey) && SmallTemplate(env, t)
    ensures SealedKey(env, t, deviceKey).Ok? && |SealedKey(env, t, deviceKey).value| <= LARGE
  {
    hide Print, KeyStruct, WF, InLimits, ParseCOSEKey, AllowedDigestAlg, TemplateAlg, SmallElements;
    KeyRoundTrip(env, deviceKey);
    KeyStructBound(deviceKey.curve, PointX(deviceKey.point), PointY(deviceKey.point));
  }

  lemma DigestsAreSmall(env: Env, alg: bytes, items: seq<bytes>)
    requires SmallEnv(env) && |items| <= MAX_ARRAY_ELEMENTS
    ensures forall k | k in DigestsOf(env, alg, items) ::
              k < MAX_LENGTH && |DigestsOf(env, alg, items)[k]| <= 64
  {
  }

  lemma TableIsSmall(env: Env, e: Issuance, ns: bytes)
    requires Ran(env, e) && SmallEnv(env) && ns in e.t.namespaces && |e.t.namespaces[ns]| <= MAX_ARRAY_ELEMENTS
    ensures ns in Tables(env, e) && |Tables(env, e)[ns]| == |e.t.namespaces[ns]|
    ensures forall k | k in Tables(env, e)[ns] :: k < MAX_LENGTH && |Tables(env, e)[ns][k]| <= 64
  {
    TableSizes(env, e);
    assert Tables(env, e)[ns] == DigestsOf(env, TemplateAlg(e.t), Stored(env, e)[ns]);
    hide *;
    DigestsAreSmall(env, TemplateAlg(e.t), Stored(env, e)[ns]);
  }

  lemma SmallNamespaces(env: Env, t: DocumentTemplate)
    requires SmallTemplate(env, t)
    ensures |t.namespaces| <= MAX_MAP_PAIRS
    ensures forall ns | ns in t.namespaces :: |ns| <= LARGE && |t.namespaces[ns]| <= MAX_ARRAY_ELEMENTS
  {
    hide ValueItem, Print, WF, AllowedDigestAlg, TemplateAlg;
  }

  lemma SmallTablesOf(env: Env, e: Issuance)
    requires Ran(env, e) && SmallEnv(env) && SmallTemplate(env, e.t)
    ensures SmallTables(Tables(env, e))
  {
    hide Ran, Stored, Tables, SmallEnv, SmallTemplate;
    SmallNamespaces(env, e.t);
    TableSizes(env, e);
    forall ns | ns in e.t.namespaces
      ensures |Tables(env, e)[ns]| <= MAX_MAP_PAIRS
      ensures forall k | k in Tables(env, e)[ns] :: k < MAX_LENGTH && |Tables(env, e)[ns][k]| <= 64
    {
      TableIsSmall(env, e, ns);
    }
  }

  lemma SmallStored(env: Env, e: Issuance)
    requires Ran(env, e) && SmallTemplate(env, e.t)
    ensures ItemsInLimits(Stored(env, e))
  {
    hide Ran, Stored, Tables, SmallTemplate;
    SmallNamespaces(env, e.t);
    TableSizes(env, e);
  }

  lemma AllowedAlgIsShort(alg: bytes)
    requires AllowedDigestAlg(alg)
    ensures |alg| == 7
  {
    hide Ascii;
  }

  lemma SmallStatus(env: Env, t: DocumentTemplate)
    requires SmallTemplate(env, t)
    ensures EncodeStatus(t.status).Ok? && |EncodeStatus(t.status).value| <= 4900 * LARGE
    ensures RawOk(EncodeStatus(t.status).value)
  {
    hide SmallElements, AllowedDigestAlg, TemplateAlg, EncodeStatus, RawOk, ParseMSOStatus, WireStatus, InLimits, Embed;
    StatusFits(t.status);
    StatusReadBack(env, t.status);
  }

  lemma SmallTexts(env: Env, t: DocumentTemplate)
    requires SmallTemplate(env, t)
    ensures |t.docType| <= LARGE && |TemplateAlg(t)| <= LARGE
  {
    hide SmallElements, AllowedDigestAlg, TemplateAlg;
    AllowedAlgIsShort(TemplateAlg(t));
  }

  lemma SmallKey(env: Env, t: DocumentTemplate, deviceKey: PublicKey)
    requires ValidKey(env, deviceKey) && SmallTemplate(env, t)
    ensures SealedKey(env, t, deviceKey).Ok? && |SealedKey(env, t, deviceKey).value| <= LARGE
    ensures RawOk(SealedKey(env, t, deviceKey).value)
  {
    hide *;
    SealedKeySmall(env, t, deviceKey);
    SealedKeyFacts(env, t, deviceKey);
  }

  lemma IssuedMsoIsSmall(env: Env, e: Issuance, key: bytes, status: bytes)
    requires Ran(env, e) && SmallEnv(env) && SmallTemplate(env, e.t)
    requires RawOk(key) && |key| <= LARGE && RawOk(status) && |status| <= 4900 * LARGE
    ensures SmallMso(IssuedMso(e.t, key, status, Tables(env, e)))
  {
    hide Ran, SmallEnv, SmallTemplate, SmallTables, Tables, TemplateAlg, RawOk, Ascii;
    SmallTablesOf(env, e);
    SmallTexts(env, e.t);
    assert |Ascii("1.0")| == 3;
  }

  lemma SealedMsoUnfolds(env: Env, e: Issuance)
    requires Ran(env, e) && SealedKey(env, e.t, e.deviceKey).Ok? && EncodeStatus(e.t.status).Ok?
    ensures SealedMso(env, e) ==
            EncodeMso(env, IssuedMso(e.t, SealedKey(env, e.t, e.deviceKey).value, EncodeStatus(e.t.status).value,
                                     Tables(env, e)))
  {
    hide Ran, Tables, SealedKey, EncodeStatus, EncodeMso, IssuedMso;
  }

  lemma SmallMsoOf(env: Env, e: Issuance)
    requires Ran(env, e) && SmallEnv(env) && SmallTemplate(env, e.t) && ValidKey(env, e.deviceKey)
    ensures SealedMso(env, e).Ok? && |SealedMso(env, e).value| < MAX_LENGTH
  {
    hide *;
    SmallKey(env, e.t, e.deviceKey);
    SmallStatus(env, e.t);
    SealedMsoUnfolds(env, e);
    IssuedMsoIsSmall(env, e, SealedKey(env, e.t, e.deviceKey).value, EncodeStatus(e.t.status).value);
    SmallMsoEncodes(env, IssuedMso(e.t, SealedKey(env, e.t, e.deviceKey).value, EncodeStatus(e.t.status).value,
                                   Tables(env, e)));
  }

  lemma SmallAuth(env: Env, signer: Signer, chain: seq<bytes>, payload: bytes)
    requires SmallSigner(signer) && SmallChain(chain) && |payload| < MAX_LENGTH
    ensures SignCOSEWithX5Chain(signer, chain, payload).Ok?
    ensures RawOk(SignCOSEWithX5Chain(signer, chain, payload).value)
  {
    hide SignCOSESign1, CoseParts, CoseAssemble, SignCOSEWithX5Chain, X5ChainFrom, VerifyCOSESign1,
         VerifyParts, Element, RawOk, InLimits, Embed, Print, ChainHeader, SignedParts, ToBeSigned;
    SignsShort(signer, payload);
    HeaderInjection(env, signer, chain, payload, signer.pub);
    AuthIsFlat(signer, chain, payload);
  }

  lemma SmallCredentialEncodes(env: Env, e: Issuance, auth: bytes)
    requires Ran(env, e) && SmallTemplate(env, e.t) && RawOk(auth)
    ensures EncodeIssuerSigned(IssuerSigned(Stored(env, e), auth)).Ok?
  {
    hide Ran, Stored, SmallTemplate, RawOk, MkStruct, IssuerSignedFields, WF, InLimits, Embed, Print, ItemsInLimits;
    SmallStored(env, e);
    SmallNamespaces(env, e.t);
    TableSizes(env, e);
    StoredItems(env, e);
    IssuerSignedWF(IssuerSigned(Stored(env, e), auth));
  }

  /** Every template of such sizes is issued for every valid device key, under every order and
      every salts. */
  lemma SmallTemplateIssues(env: Env, issuer: Issuer, e: Issuance)
    requires ValidChoices(e.t, e.ch) && ChoicesInTemplate(e.t, e.ch)
    requires SmallEnv(env) && SmallTemplate(env, e.t) && ValidKey(env, e.deviceKey)
    requires SmallSigner(issuer.signer) && SmallChain(issuer.x5chain)
    ensures Issue(env, issuer, e.t, e.deviceKey, e.ch).Ok?
  {
    SmallRan(env, e);
    hide ValidChoices, ChoicesInTemplate, SealedKey, SignCOSEWithX5Chain, EncodeIssuerSigned, SmallEnv,
         SmallTemplate, ValidKey, SmallSigner, SmallChain;
    hide BuiltNameSpaces, DigestTables, TemplateAlg, RawOk, EncodeStatus, EncodeMso, AllEncodable;
    SmallMsoOf(env, e);
    SmallAuth(env, issuer.signer, issuer.x5chain, SealedMso(env, e).value);
    SmallCredentialEncodes(env, e, SignCOSEWithX5Chain(issuer.signer, issuer.x5chain, SealedMso(env, e).value).value);
  }

  lemma SmallDeviceSigns(env: Env, device: Signer, st: bytes, t: DocumentTemplate)
    requires SmallSigner(device) && SmallTemplate(env, t) && RawOk(st) && |st| <= LARGE
    ensures SignDeviceAuth(device, st, t.docType).Ok?
  {
    hide RawOk, SignDeviceAuth, AllowedDigestAlg, TemplateAlg, SmallElements;
    DeviceCanSign(device, st, t.docType);
  }

  /** The premises of completeness: sizes a program can hold, signatures that verify, a chain that
      resolves. Nothing is said about the content of the template or of the request. */
  ghost predicate HonestRun(env: Env, issuer: Issuer, e: Issuance, device: Signer, st: bytes, trust: Trust) {
    ValidChoices(e.t, e.ch) && ChoicesInTemplate(e.t, e.ch) && e.deviceKey == device.pub &&
    SmallEnv(env) && SmallTemplate(env, e.t) && ValidKey(env, device.pub) &&
    SmallSigner(issuer.signer) && SmallChain(issuer.x5chain) && SmallSigner(device) &&
    IssuerVouches(env, issuer, e) && DeviceVouches(env, device, st, e.t.docType) &&
    Resolves(env, issuer, e.t, trust) && st != [] && RawOk(st) && |st| <= LARGE
  }

  lemma SmallChainFits(chain: seq<bytes>)
    requires SmallChain(chain)
    ensures ChainFits(chain)
  {
  }

  /** Completeness, exactly. For every template a program can hold, under every order and every
      salts, for every valid device key, every transcript that is one item and every request:
      issuing succeeds; the wallet answers exactly when the request is presentable; and the
      verifier then returns exactly what was asked for when it is verifiable at that instant, and
      nothing otherwise. */
  lemma EveryHonestRunVerifies(env: Env, issuer: Issuer, e: Issuance, device: Signer, disclose: Request, st: bytes,
                               trust: Trust, at: Time, expectedDocType: bytes)
    requires HonestRun(env, issuer, e, device, st, trust)
    requires expectedDocType == [] || expectedDocType == e.t.docType
    ensures var credential := Issue(env, issuer, e.t, e.deviceKey, e.ch);
            credential.Ok? &&
            var response := Present(env, device, credential.value, disclose, st);
            (response.Ok? <==> Presentable(env, e.t, disclose)) &&
            (response.Ok? ==>
               Verified(env, VerifyInput(response.value, st, Some(trust), expectedDocType), at) ==
               if Verifiable(env, issuer, e.t, disclose, at) then Some([Outcome(env, e.t, e.deviceKey, disclose)])
                 else None)
  {
    hide ValidChoices, ChoicesInTemplate, SmallEnv, SmallTemplate, ValidKey, SmallSigner,
         SmallChain, IssuerVouches, DeviceVouches, Resolves, RawOk, Presentable, Verifiable;
    hide Issue, Present, Verified, Outcome, SignDeviceAuth;
    SmallChainFits(issuer.x5chain);
    SmallTemplateIssues(env, issuer, e);
    SmallDeviceSigns(env, device, st, e.t);
    HonestRunVerdict(env, issuer, e, device, disclose, st, trust, at, expectedDocType);
  }

  // ----- the premises can be met, together with those of soundness -----

  /** The one item the sample credential stores. */
  function SampleItem(): Result<bytes> {
    EncodeIssuerSignedItem(IssuerSignedItem(0, Zeros(SALT_LENGTH), [101], Print(Simple(0, 21))))
  }

  /** A world in which exactly the signatures over `good` hold, the stored item has a digest of its
      own, and a time is written as one byte of seconds. */
  function SampleEnv(good: set<bytes>): Env {
    Env((alg, data) => if SampleItem() == Ok(data) then [1] else [],
        (key, m, sig) => m in good, cert => Some(Window(0, 10 * SECOND)),
        (t: Time) => [t / SECOND % 128], (s: bytes) => if |s| == 1 then Some(s[0] as int * SECOND) else None,
        (w, bits) => ZERO_TIME, (c, point) => true)
  }

  /** One key for both roles. */
  function SampleSigner(): Signer {
    Signer(EcKey(P256, [4] + Zeros(64)), [], true, m => [])
  }

  function SampleIssuer(): Issuer { Issuer(SampleSigner(), [[0]]) }

  function SampleTemplate(): DocumentTemplate {
    DocumentTemplate([100], map[[110] := map[[101] := GBool(true)]],
                     ValidityInfo(SECOND, SECOND, 3 * SECOND, None), [], None)
  }

  function SampleIssuance(): Issuance {
    Issuance(SampleTemplate(), SampleSigner().pub, map[[110] := [Pick([101], Zeros(SALT_LENGTH))]])
  }

  const SAMPLE_TRANSCRIPT: bytes := [0]

  const SAMPLE_REQUEST: Request := map[[110] := [[101]]]

  function SampleTrust(): Trust {
    (chain, signed) => Some(SampleSigner().pub)
  }

  lemma OneByteIsUtf8(b: Byte)
    requires b < 0x80
    ensures Utf8([b])
  {
    AsciiIsUtf8([b]);
  }

  lemma SampleTimes(good: set<bytes>, n: nat)
    requires n < 100
    ensures SampleEnv(good).formatTime(n * SECOND) == [n]
    ensures SampleEnv(good).parseTime([n]) == Some(n * SECOND)
  {
    hide SampleItem;
  }

  lemma SampleTimeReads(good: set<bytes>, n: nat)
    requires n < 100
    ensures TimeReadable(SampleEnv(good), n * SECOND)
  {
    hide SampleEnv, Utf8;
    SampleTimes(good, n);
    OneByteIsUtf8(n);
    assert TruncateToSecond(n * SECOND) == n * SECOND;
  }

  lemma SampleValue(env: Env)
    ensures var v := GBool(true);
            ValueItem(env, v) == Simple(0, 21) && WF(ValueItem(env, v)) && |Print(ValueItem(env, v))| == 1 &&
            ValueFits(env, v) && Received(env, v) == Some(v)
  {
  }

  lemma SampleElements(env: Env)
    ensures var elems := SampleTemplate().namespaces[[110]]; SmallElements(env, elems) && ElementsRead(env, elems)
  {
    hide Utf8, ValueItem, WF, Print, ValueFits, Received;
    OneByteIsUtf8(101);
    SampleValue(env);
  }

  lemma SampleIsSmall(env: Env)
    ensures SmallTemplate(env, SampleTemplate())
  {
    hide SmallElements, ElementsRead;
    SampleElements(env);
  }

  lemma SampleObjectReads(good: set<bytes>)
    ensures ObjectReads(SampleEnv(good), SampleTemplate())
    ensures WireTimes(SampleEnv(good), SampleTemplate()) == SampleTemplate().validityInfo
  {
    hide SampleEnv, Utf8, TimeReadable, WireValidity;
    OneByteIsUtf8(100);
    OneByteIsUtf8(110);
    SampleTimeReads(good, 1);
    SampleTimeReads(good, 3);
    WireValidityTruncates(SampleEnv(good), SampleTemplate().validityInfo);
    assert Truncated(SampleTemplate().validityInfo) == SampleTemplate().validityInfo;
  }

  lemma SamplePresentable(good: set<bytes>)
    ensures Presentable(SampleEnv(good), SampleTemplate(), SAMPLE_REQUEST)
  {
    hide SampleEnv, ObjectReads, ElementsRead, SmallElements, WireTimes;
    SampleObjectReads(good);
    SampleElements(SampleEnv(good));
  }

  lemma SampleWindow(good: set<bytes>)
    ensures CheckSignerWindow(SampleEnv(good), SampleIssuer().x5chain, SECOND).Ok?
  {
    hide SampleItem;
  }

  lemma SampleTimely(good: set<bytes>)
    ensures Timely(SampleEnv(good), SampleIssuer(), SampleTemplate().validityInfo, 2 * SECOND)
  {
    hide SampleEnv, CheckSignerWindow, SampleIssuer;
    SampleWindow(good);
  }

  lemma SampleArrives(env: Env)
    ensures RequestArrives(env, SampleTemplate(), SAMPLE_REQUEST)
  {
    hide Received, ValueItem, WF, Print, ValueFits;
    SampleValue(env);
  }

  lemma SampleStatus()
    ensures WireStatus(SampleTemplate().status).Ok?
  {
  }

  lemma SampleVerifiable(good: set<bytes>)
    ensures ObjectReads(SampleEnv(good), SampleTemplate())
    ensures Verifiable(SampleEnv(good), SampleIssuer(), SampleTemplate(), SAMPLE_REQUEST, 2 * SECOND)
  {
    hide ObjectReads, WireTimes, SampleEnv, SampleIssuer, SampleTemplate, RequestArrives, Timely, WireStatus;
    SampleObjectReads(good);
    SampleTimely(good);
    SampleArrives(SampleEnv(good));
    SampleStatus();
  }

  lemma SampleChoices()
    ensures ValidChoices(SampleIssuance().t, SampleIssuance().ch)
    ensures ChoicesInTemplate(SampleIssuance().t, SampleIssuance().ch)
  {
    var picks := [Pick([101], Zeros(SALT_LENGTH))];
    var elems: Issuing.Elements := map[[101] := GBool(true)];
    assert picks[0].id == [101];
    assert ValidPicks(elems, picks);
    assert InElements(elems, picks);
  }

  lemma SampleWorld(good: set<bytes>)
    ensures SmallEnv(SampleEnv(good)) && SmallSigner(SampleSigner()) && SmallChain(SampleIssuer().x5chain)
    ensures ValidKey(SampleEnv(good), SampleSigner().pub)
    ensures Resolves(SampleEnv(good), SampleIssuer(), SampleTemplate(), SampleTrust())
  {
    hide SampleItem, ObjectReads, WireTimes;
  }

  lemma SampleTranscript()
    ensures RawOk(SAMPLE_TRANSCRIPT) && SAMPLE_TRANSCRIPT != []
  {
    assert Print(UInt(0, 0)) == [0];
    ParseWholePrint(UInt(0, 0));
  }

  // What is sealed does not depend on which signatures hold.

  /** The two worlds agree on everything but signatures. */
  ghost predicate SameButSignatures(a: Env, b: Env) {
    a.hash == b.hash && a.formatTime == b.formatTime && a.onCurve == b.onCurve
  }

  lemma ListItemAgrees(a: Env, b: Env, elems: seq<GoVal>)
    requires forall i | 0 <= i < |elems| :: ValueItem(a, elems[i]) == ValueItem(b, elems[i])
    ensures ValueItem(a, GList(elems)) == ValueItem(b, GList(elems))
  {
    hide MkArray;
    assert seq(|elems|, i requires 0 <= i < |elems| => ValueItem(a, elems[i])) ==
           seq(|elems|, i requires 0 <= i < |elems| => ValueItem(b, elems[i]));
  }

  lemma MapItemAgrees(a: Env, b: Env, entries: map<bytes, GoVal>)
    requires forall k | k in entries :: ValueItem(a, entries[k]) == ValueItem(b, entries[k])
    ensures ValueItem(a, GMap(entries)) == ValueItem(b, GMap(entries))
  {
    hide ValueItem, MkTextMap;
    EntriesItem(a, entries);
    EntriesItem(b, entries);
    assert EntryItems(a, entries) == EntryItems(b, entries);
  }

  lemma {:induction false} ValueItemAgrees(a: Env, b: Env, v: GoVal)
    requires SameButSignatures(a, b)
    ensures ValueItem(a, v) == ValueItem(b, v)
    decreases v
  {
    hide MkTextMap, MkArray, MkTag, MkText, MkBlob, MkInt, BigItem;
    match v
    case GList(elems) =>
      forall i | 0 <= i < |elems| ensures ValueItem(a, elems[i]) == ValueItem(b, elems[i]) {
        assert elems[i] in elems;
        ValueItemAgrees(a, b, elems[i]);
      }
      ListItemAgrees(a, b, elems);
    case GMap(entries) =>
      forall k | k in entries ensures ValueItem(a, entries[k]) == ValueItem(b, entries[k]) {
        ValueItemAgrees(a, b, entries[k]);
      }
      MapItemAgrees(a, b, entries);
    case GTag(_, content) => ValueItemAgrees(a, b, content);
    case _ =>
  }

  lemma BuildItemAgrees(a: Env, b: Env, k: nat, p: Pick, v: GoVal)
    requires SameButSignatures(a, b)
    ensures BuildItem(a, k, p, v) == BuildItem(b, k, p, v)
  {
    hide ValueItem, EncodeIssuerSignedItem;
    ValueItemAgrees(a, b, v);
  }

  lemma BuiltItemsAgree(a: Env, b: Env, elems: Issuing.Elements, picks: seq<Pick>)
    requires SameButSignatures(a, b) && InElements(elems, picks) && Encodable(a, elems, picks)
    ensures Encodable(b, elems, picks) && BuiltItems(a, elems, picks) == BuiltItems(b, elems, picks)
  {
    hide BuildItem, SameButSignatures;
    forall k | 0 <= k < |picks|
      ensures BuildItem(a, k, picks[k], elems[picks[k].id]) == BuildItem(b, k, picks[k], elems[picks[k].id])
    {
      BuildItemAgrees(a, b, k, picks[k], elems[picks[k].id]);
    }
    BuiltItemsAre(b, elems, picks, BuiltItems(a, elems, picks));
  }

  lemma RanAgrees(a: Env, b: Env, e: Issuance)
    requires SameButSignatures(a, b) && Ran(a, e)
    ensures Ran(b, e) && Stored(a, e) == Stored(b, e)
  {
    hide Encodable, BuiltItems, SameButSignatures, ValidPicks, InElements;
    forall n | n in e.t.namespaces
      ensures Encodable(b, e.t.namespaces[n], e.ch[n])
      ensures BuiltItems(a, e.t.namespaces[n], e.ch[n]) == BuiltItems(b, e.t.namespaces[n], e.ch[n])
    {
      BuiltItemsAgree(a, b, e.t.namespaces[n], e.ch[n]);
    }
  }

  lemma TablesAgree(a: Env, b: Env, alg: bytes, ns: NameSpaceItems)
    requires a.hash == b.hash
    ensures DigestTables(a, alg, ns) == DigestTables(b, alg, ns)
  {
    forall n | n in ns ensures DigestsOf(a, alg, ns[n]) == DigestsOf(b, alg, ns[n]) {
    }
  }

  lemma KeysAgree(a: Env, b: Env, t: DocumentTemplate, deviceKey: PublicKey)
    requires a.onCurve == b.onCurve
    ensures SealedKey(a, t, deviceKey) == SealedKey(b, t, deviceKey)
  {
    hide KeyStruct, Encode, AllowedDigestAlg, TemplateAlg;
  }

  lemma ValidityAgrees(a: Env, b: Env, v: ValidityInfo)
    requires a.formatTime == b.formatTime
    ensures ValidityFields(a, v) == ValidityFields(b, v)
  {
    hide MkText, MkTag;
    assert forall t :: TimeItem(a, t) == TimeItem(b, t);
    hide TimeItem;
  }

  lemma EncodingAgrees(a: Env, b: Env, m: MobileSecurityObject)
    requires a.formatTime == b.formatTime
    ensures EncodeMso(a, m) == EncodeMso(b, m)
  {
    hide MkText, MkStruct, ValueDigestsItem, DeviceKeyFields, RawMember, EncodeTagged24, RawOk, ValidityFields;
    ValidityAgrees(a, b, m.validityInfo);
  }

  lemma SealingIgnoresSignatures(a: Env, b: Env, e: Issuance)
    requires SameButSignatures(a, b) && Ran(a, e)
    ensures Ran(b, e) && SealedMso(a, e) == SealedMso(b, e)
  {
    hide Ran, Stored, SealedKey, TemplateAlg, EncodeStatus, EncodeMso, IssuedMso, DigestTables;
    RanAgrees(a, b, e);
    TablesAgree(a, b, TemplateAlg(e.t), Stored(a, e));
    KeysAgree(a, b, e.t, e.deviceKey);
    if SealedKey(a, e.t, e.deviceKey).Ok? && EncodeStatus(e.t.status).Ok? {
      EncodingAgrees(a, b, IssuedMso(e.t, SealedKey(a, e.t, e.deviceKey).value,
                                     EncodeStatus(e.t.status).value, Tables(a, e)));
    }
  }

  /** The bytes signed when the sample credential is sealed and presented. */
  ghost function SampleGood(): set<bytes>
    requires Ran(SampleEnv({}), SampleIssuance()) && SealedMso(SampleEnv({}), SampleIssuance()).Ok?
    requires SessionBytes(Session(SAMPLE_TRANSCRIPT, [100])).Ok?
  {
    {ToBeSigned([], SealedMso(SampleEnv({}), SampleIssuance()).value),
     ToBeSigned([], SessionBytes(Session(SAMPLE_TRANSCRIPT, [100])).value)}
  }

  lemma SampleShape()
    ensures SampleIssuance().deviceKey == SampleSigner().pub == SampleIssuer().signer.pub
    ensures SampleIssuance().t == SampleTemplate() && SampleIssuer().signer == SampleSigner()
    ensures |SAMPLE_TRANSCRIPT| <= LARGE
  {
  }

  lemma SampleEnvsAgree(good: set<bytes>)
    ensures SameButSignatures(SampleEnv(good), SampleEnv({}))
  {
    hide SampleItem;
  }

  lemma SampleSealed(good: set<bytes>)
    ensures Ran(SampleEnv(good), SampleIssuance()) && SealedMso(SampleEnv(good), SampleIssuance()).Ok?
    ensures Ran(SampleEnv({}), SampleIssuance())
    ensures SealedMso(SampleEnv(good), SampleIssuance()) == SealedMso(SampleEnv({}), SampleIssuance())
    ensures |SealedMso(SampleEnv(good), SampleIssuance()).value| < MAX_LENGTH
  {
    hide *;
    SampleShape();
    SampleChoices();
    SampleIsSmall(SampleEnv(good));
    SampleWorld(good);
    SmallRan(SampleEnv(good), SampleIssuance());
    SmallMsoOf(SampleEnv(good), SampleIssuance());
    SampleEnvsAgree(good);
    SealingIgnoresSignatures(SampleEnv(good), SampleEnv({}), SampleIssuance());
  }

  lemma SampleSession()
    ensures SessionBytes(Session(SAMPLE_TRANSCRIPT, [100])).Ok?
    ensures |SessionBytes(Session(SAMPLE_TRANSCRIPT, [100])).value| < MAX_LENGTH
  {
    hide RawOk, Print, WF, DeviceAuthArray, EncodeTagged24, EmptyDeviceNameSpaces;
    SampleTranscript();
    NoNameSpacesLength();
    assert RawOk(EmptyDeviceNameSpaces().value) by { hide InLimits, Embed; NoNameSpacesFlat(); }
    AuthArrayLength(SAMPLE_TRANSCRIPT, [100], EmptyDeviceNameSpaces().value);
    Tagged24Encodes(DeviceAuthArray(SAMPLE_TRANSCRIPT, [100], EmptyDeviceNameSpaces().value));
  }

  ghost function SampleRun(): seq<Event> {
    [Sealed(SampleSigner().pub, SampleIssuance()), Presented(SampleSigner().pub, Session(SAMPLE_TRANSCRIPT, [100]))]
  }

  lemma OnlyTheseTwo(env: Env, a: Event, b: Event, t: bytes, u: bytes, p: bytes, m: bytes, n: bytes)
    requires a.key == b.key && Signs(env, a, t, p, m) && Signs(env, b, u, p, n)
    requires forall key, tbs, sig | env.sigOk(key, tbs, sig) :: tbs == t || tbs == u
    ensures Unforgeable(env, [a, b], iset{a.key})
  {
    hide Signs;
    forall key, tbs, sig | key in iset{a.key} && env.sigOk(key, tbs, sig)
      ensures exists ev, protected, payload ::
                ev in [a, b] && ev.key == key && Signs(env, ev, tbs, protected, payload)
    {
      assert a in [a, b] && b in [a, b];
    }
  }

  lemma SampleSigns(good: set<bytes>)
    requires Ran(SampleEnv(good), SampleIssuance()) && SealedMso(SampleEnv(good), SampleIssuance()).Ok?
    requires |SealedMso(SampleEnv(good), SampleIssuance()).value| < MAX_LENGTH
    requires SessionBytes(Session(SAMPLE_TRANSCRIPT, [100])).Ok?
    requires |SessionBytes(Session(SAMPLE_TRANSCRIPT, [100])).value| < MAX_LENGTH
    ensures var mso, session := SealedMso(SampleEnv(good), SampleIssuance()).value,
                                SessionBytes(Session(SAMPLE_TRANSCRIPT, [100])).value;
            Signs(SampleEnv(good), SampleRun()[0], ToBeSigned([], mso), [], mso) &&
            Signs(SampleEnv(good), SampleRun()[1], ToBeSigned([], session), [], session)
  {
    hide SampleEnv, SampleSigner, SampleIssuance, ToBeSigned, SealedMso, SessionBytes, Ran;
  }

  lemma SampleSignatures(good: set<bytes>, t: bytes, u: bytes)
    requires good == {t, u}
    ensures forall key, tbs, sig | SampleEnv(good).sigOk(key, tbs, sig) :: tbs == t || tbs == u
  {
  }

  lemma SampleRunShape()
    ensures var run := SampleRun();
            run == [run[0], run[1]] && run[0].key == run[1].key == SampleSigner().pub &&
            run[0] == Sealed(SampleSigner().pub, SampleIssuance())
  {
    hide SampleSigner, SampleIssuance;
  }

  lemma SampleGoodIs()
    requires Ran(SampleEnv({}), SampleIssuance()) && SealedMso(SampleEnv({}), SampleIssuance()).Ok?
    requires SessionBytes(Session(SAMPLE_TRANSCRIPT, [100])).Ok?
    ensures SampleGood() == {ToBeSigned([], SealedMso(SampleEnv({}), SampleIssuance()).value),
                             ToBeSigned([], SessionBytes(Session(SAMPLE_TRANSCRIPT, [100])).value)}
  {
    hide SampleEnv, SealedMso, SessionBytes, ToBeSigned, Ran, SampleIssuance;
  }

  lemma SampleUnforgeable()
    ensures Ran(SampleEnv({}), SampleIssuance()) && SealedMso(SampleEnv({}), SampleIssuance()).Ok?
    ensures SessionBytes(Session(SAMPLE_TRANSCRIPT, [100])).Ok?
    ensures Unforgeable(SampleEnv(SampleGood()), SampleRun(), iset{SampleSigner().pub})
  {
    hide *;
    SampleSealed({});
    SampleSession();
    SampleGoodIs();
    var good := SampleGood();
    SampleSealed(good);
    var mso := SealedMso(SampleEnv(good), SampleIssuance()).value;
    var session := SessionBytes(Session(SAMPLE_TRANSCRIPT, [100])).value;
    SampleSigns(good);
    SampleSignatures(good, ToBeSigned([], mso), ToBeSigned([], session));
    SampleRunShape();
    var run := SampleRun();
    OnlyTheseTwo(SampleEnv(good), run[0], run[1], ToBeSigned([], mso), ToBeSigned([], session), [], mso, session);
  }

  lemma SampleVouches()
    requires Ran(SampleEnv({}), SampleIssuance()) && SealedMso(SampleEnv({}), SampleIssuance()).Ok?
    requires SessionBytes(Session(SAMPLE_TRANSCRIPT, [100])).Ok?
    ensures IssuerVouches(SampleEnv(SampleGood()), SampleIssuer(), SampleIssuance())
    ensures DeviceVouches(SampleEnv(SampleGood()), SampleSigner(), SAMPLE_TRANSCRIPT, SampleIssuance().t.docType)
  {
    SampleSealed(SampleGood());
    hide ToBeSigned, SealedMso, DeviceAuthenticationBytes, EmptyDeviceNameSpaces, Ran, SampleItem;
  }

  lemma SampleHonestRun()
    requires Ran(SampleEnv({}), SampleIssuance()) && SealedMso(SampleEnv({}), SampleIssuance()).Ok?
    requires SessionBytes(Session(SAMPLE_TRANSCRIPT, [100])).Ok?
    ensures HonestRun(SampleEnv(SampleGood()), SampleIssuer(), SampleIssuance(), SampleSigner(),
                      SAMPLE_TRANSCRIPT, SampleTrust())
  {
    SampleShape();
    hide SmallEnv, SmallTemplate, ValidKey, SmallSigner, Resolves, ValidChoices, SmallChain, RawOk,
         ChoicesInTemplate, SampleEnv, SampleSigner, IssuerVouches, DeviceVouches, SampleIssuance,
         SampleTrust, SampleTemplate, SampleIssuer, SampleGood, SealedMso, SessionBytes, Ran;
    SampleVouches();
    SampleIsSmall(SampleEnv(SampleGood()));
    SampleChoices();
    SampleWorld(SampleGood());
    SampleTranscript();
  }

  lemma SampleTrusted()
    ensures TrustsHonest(SampleTrust(), iset{SampleSigner().pub})
  {
  }

  /** No presented item shares a digest with an issued one without being it. */
  ghost predicate DigestsSeparate(env: Env, e: Issuance) {
    Ran(env, e) && forall ns, items :: !ForgedDigest(env, e, ns, items)
  }

  lemma SampleBuilds(env: Env)
    ensures BuildItem(env, 0, Pick([101], Zeros(SALT_LENGTH)), GBool(true)) == SampleItem()
  {
    assert ValueItem(env, GBool(true)) == Simple(0, 21) && WF(Simple(0, 21));
    hide EncodeIssuerSignedItem, ValueItem, Print;
  }

  lemma SampleStored(env: Env, ns: bytes, b: bytes)
    requires Ran(env, SampleIssuance()) && ns in Stored(env, SampleIssuance()) && b in Stored(env, SampleIssuance())[ns]
    ensures SampleItem() == Ok(b)
  {
    SampleBuilds(env);
    hide SampleItem, BuildItem;
    assert ns == [110];
    var items := Stored(env, SampleIssuance())[ns];
    assert |items| == 1 && items[0] == b;
  }

  lemma SampleDigest(good: set<bytes>, alg: bytes, a: bytes, b: bytes)
    requires SampleItem() == Ok(b)
    ensures !Collision(SampleEnv(good), alg, a, b)
  {
    hide SampleItem;
  }

  lemma SampleSeparates(good: set<bytes>)
    requires Ran(SampleEnv(good), SampleIssuance())
    ensures DigestsSeparate(SampleEnv(good), SampleIssuance())
  {
    var env, e := SampleEnv(good), SampleIssuance();
    hide SampleEnv, SampleIssuance, SampleItem, Collision, Ran, Stored, TemplateAlg;
    forall ns, items ensures !ForgedDigest(env, e, ns, items) {
      forall a, b | ns in Stored(env, e) && a in items && b in Stored(env, e)[ns]
        ensures !Collision(env, TemplateAlg(e.t), a, b)
      {
        SampleStored(env, ns, b);
        SampleDigest(good, TemplateAlg(e.t), a, b);
      }
    }
  }

  /** The premises of all three theorems hold together: there is a run in which one key seals one
      credential and presents one element of it, and nothing else is ever signed. By completeness
      the response verifies, and since no item shares a digest with the issued one, by soundness
      every element of every response that verifies was issued. */
  lemma TheoremsMeet()
    ensures exists env, issuer, e, device, disclose, st, trust, at, run: seq<Event>, honest ::
              HonestRun(env, issuer, e, device, st, trust) &&
              Presentable(env, e.t, disclose) && Verifiable(env, issuer, e.t, disclose, at) && disclose != map[] &&
              Unforgeable(env, run, honest) && TrustsHonest(trust, honest) && e.deviceKey in honest &&
              DigestsSeparate(env, e) && forall ev | ev in run && ev.Sealed? :: ev.e == e
  {
    hide *;
    SampleUnforgeable();
    var good := SampleGood();
    var env, e, run := SampleEnv(good), SampleIssuance(), SampleRun();
    SampleShape();
    SampleHonestRun();
    SampleTrusted();
    SamplePresentable(good);
    SampleVerifiable(good);
    SampleSealed(good);
    SampleSeparates(good);
    SampleOneSealed();
    assert SAMPLE_REQUEST != map[] by { SampleAsks(); }
    assert HonestRun(env, SampleIssuer(), e, SampleSigner(), SAMPLE_TRANSCRIPT, SampleTrust());
    assert Verifiable(env, SampleIssuer(), e.t, SAMPLE_REQUEST, 2 * SECOND);
  }

  lemma SampleAsks()
    ensures SAMPLE_REQUEST != map[]
  {
    assert [110] in SAMPLE_REQUEST;
  }

  lemma SampleOneSealed()
    ensures forall ev | ev in SampleRun() && ev.Sealed? :: ev.e == SampleIssuance()
  {
    hide SampleIssuance, SampleSigner;
  }
}
