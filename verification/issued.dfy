/**
 What the issuer's output means to everyone downstream: every issued item, digest table and
 signed object reads back as what the template said, whatever order and salts were drawn.
 */
module IssuedCredentials {
  import opened Basics
  import opened CborSyntax
  import opened Codec
  import opened Structs
  import opened Primitives
  import opened GoValues
  import opened Cose
  import opened CoseSign1
  import opened CoseKey
  import opened Wire
  import opened Responses
  import opened StatusRefs
  import opened Issuing
  import opened IssuerIntegrity
  import opened IssuerAuthentication
  import opened Presenting

  // ----- one item -----

  function ItemOf(env: Env, k: nat, p: Pick, v: GoVal): IssuerSignedItem {
    IssuerSignedItem(k, p.salt, p.id, Print(ValueItem(env, v)))
  }

  /** The value fits below the item's map. */
  predicate ValueFits(env: Env, v: GoVal) {
    InLimits(ValueItem(env, v), MAX_NESTED_LEVELS - 1)
  }

  lemma BuiltItem(env: Env, k: nat, p: Pick, v: GoVal)
    requires BuildItem(env, k, p, v).Ok?
    ensures WF(ValueItem(env, v)) && Print(ValueItem(env, v)) != [] &&
            Embed(Print(ValueItem(env, v))) == ValueItem(env, v)
    ensures EncodeIssuerSignedItem(ItemOf(env, k, p, v)) == BuildItem(env, k, p, v)
  {
    hide EncodeIssuerSignedItem, ValueItem, WF, Print, Embed;
    EmbedPrint(ValueItem(env, v));
  }

  /** The stored item is a tag-24 byte string; it reads back exactly as built, unless its
      identifier is not UTF-8 or its value nests too deep. */
  lemma BuiltItemDecodes(env: Env, k: nat, p: Pick, v: GoVal)
    requires BuildItem(env, k, p, v).Ok?
    ensures DecodeIssuerSignedItem(BuildItem(env, k, p, v).value) ==
            if Utf8(p.id) && ValueFits(env, v) then Ok(ItemOf(env, k, p, v)) else Err(ErrMalformed)
  {
    BuiltItem(env, k, p, v);
    hide BuildItem, EncodeIssuerSignedItem, DecodeIssuerSignedItem, ValueItem, WF, Print, Embed, InLimits,
         Utf8;
    ItemRoundTrip(ItemOf(env, k, p, v));
  }

  lemma BuiltItemIsFlat(env: Env, k: nat, p: Pick, v: GoVal)
    requires BuildItem(env, k, p, v).Ok?
    ensures var raw := BuildItem(env, k, p, v).value; raw != [] && RawOk(raw) && InLimits(Embed(raw), 0)
  {
    hide BuildItem, ValueItem, WF, Print, MkStruct, ParseWhole, ItemFields, Decode;
    BuiltItem(env, k, p, v);
    var x := MkStruct(ItemFields(ItemOf(env, k, p, v)));
    Tagged24RoundTrip(x);
    assert Embed(BuildItem(env, k, p, v).value) == Tag(1, 24, MkBlob(Print(x)));
  }

  lemma ElementDecodes(env: Env, v: GoVal)
    requires WF(ValueItem(env, v)) && ValueFits(env, v)
    ensures DecodeElementValue(env, Print(ValueItem(env, v))) == OrMalformed(ReadValue(env, ValueItem(env, v)))
  {
    hide InLimits, WF, Print, Decode, ReadValue, ValueItem;
    InLimitsMonotone(ValueItem(env, v), MAX_NESTED_LEVELS - 1, MAX_NESTED_LEVELS);
    DecodeEncode(ValueItem(env, v));
  }

  /** The stored item reads: its identifier is UTF-8 and its value leaves the nesting room. */
  predicate ElementReads(env: Env, id: bytes, v: GoVal) {
    Utf8(id) && ValueFits(env, v)
  }

  /** The stored item reads, and its value is one that decoding accepts. */
  predicate ElementArrives(env: Env, id: bytes, v: GoVal) {
    ElementReads(env, id, v) && Received(env, v).Some?
  }

  /** What a reader gets from an issued item. */
  lemma BuiltItemReads(env: Env, k: nat, p: Pick, v: GoVal)
    requires BuildItem(env, k, p, v).Ok?
    ensures ReadItem(env, BuildItem(env, k, p, v).value) ==
            if ElementArrives(env, p.id, v) then Some(Checked(p.id, Received(env, v).value)) else None
    ensures IdAt(BuildItem(env, k, p, v).value) == if ElementReads(env, p.id, v) then Some(p.id) else None
  {
    BuiltItem(env, k, p, v);
    BuiltItemDecodes(env, k, p, v);
    ReadValueItem(env, v);
    hide BuildItem, DecodeIssuerSignedItem, DecodeElementValue, ValueItem, WF, Print, Embed, InLimits,
         Utf8, ReadValue, EncodeIssuerSignedItem, Received;
    if Utf8(p.id) && ValueFits(env, v) {
      ElementDecodes(env, v);
    }
  }

  // ----- one namespace, or a part of it -----

  lemma ListedAtItsPosition(env: Env, alg: bytes, items: seq<bytes>, k: nat)
    requires k < |items| && DecodeIssuerSignedItem(items[k]).Ok? && DecodeIssuerSignedItem(items[k]).value.digestID == k
    ensures Listed(env, alg, DigestsOf(env, alg, items), items[k])
  {
    hide DecodeIssuerSignedItem;
  }

  /** An issued item matches its digest table exactly when its element arrives. */
  lemma ItemVerdict(env: Env, alg: bytes, elems: Elements, picks: seq<Pick>, k: nat)
    requires InElements(elems, picks) && Encodable(env, elems, picks) && k < |picks|
    ensures var items := BuiltItems(env, elems, picks);
            Matches(env, alg, DigestsOf(env, alg, items), items[k]) <==>
            ElementArrives(env, picks[k].id, elems[picks[k].id])
  {
    var v, items := elems[picks[k].id], BuiltItems(env, elems, picks);
    hide BuildItem, ReadItem, IdAt, Utf8, ValueFits, Received, DecodeIssuerSignedItem, DigestsOf, ValueItem, Print,
         Listed, BuiltItems;
    BuiltItemReads(env, k, picks[k], v);
    BuiltItemDecodes(env, k, picks[k], v);
    if ElementReads(env, picks[k].id, v) {
      ListedAtItsPosition(env, alg, items, k);
    }
  }

  /** The elements wanted, as encoding and decoding give them. */
  function ReceivedPart(env: Env, elems: Elements, want: set<bytes>): map<bytes, GoVal> {
    map id | id in want && id in elems && Received(env, elems[id]).Some? :: Received(env, elems[id]).value
  }

  predicate Arriving(env: Env, elems: Elements, want: set<bytes>)
    requires want <= elems.Keys
  {
    forall id | id in want :: ElementArrives(env, id, elems[id])
  }

  /** `kept` is the part of the issued items, at the positions `at`, whose elements are wanted. */
  ghost predicate PartAt(env: Env, elems: Elements, picks: seq<Pick>, want: set<bytes>, kept: seq<bytes>,
      at: seq<nat>) {
    ValidPicks(elems, picks) && InElements(elems, picks) && Encodable(env, elems, picks) && want <= elems.Keys &&
    |at| == |kept| &&
    (forall j | 0 <= j < |at| :: at[j] < |picks| && kept[j] == BuiltItems(env, elems, picks)[at[j]]) &&
    (forall j, l | 0 <= j < l < |at| :: at[j] < at[l]) &&
    (forall i: nat | i < |picks| :: i in at <==> picks[i].id in want)
  }

  lemma PartMatches(env: Env, alg: bytes, elems: Elements, picks: seq<Pick>, want: set<bytes>, kept: seq<bytes>,
                    at: seq<nat>)
    requires PartAt(env, elems, picks, want, kept, at)
    ensures AllMatch(env, alg, DigestsOf(env, alg, BuiltItems(env, elems, picks)), kept) <==> Arriving(env, elems, want)
  {
    hide BuildItem, Encodable, Matches, ElementArrives, DigestsOf, BuiltItems, InElements;
    var items := BuiltItems(env, elems, picks);
    forall k | 0 <= k < |picks|
      ensures picks[k].id in elems
      ensures Matches(env, alg, DigestsOf(env, alg, items), items[k]) <==>
              ElementArrives(env, picks[k].id, elems[picks[k].id])
    {
      ItemVerdict(env, alg, elems, picks, k);
    }
    if AllMatch(env, alg, DigestsOf(env, alg, items), kept) {
      forall id | id in want ensures ElementArrives(env, id, elems[id]) {
        var i: nat :| i < |picks| && picks[i].id == id;
        assert i in at;
        var j :| 0 <= j < |at| && at[j] == i;
        assert Matches(env, alg, DigestsOf(env, alg, items), kept[j]);
      }
    }
    if Arriving(env, elems, want) {
      forall j | 0 <= j < |kept| ensures Matches(env, alg, DigestsOf(env, alg, items), kept[j]) {
        assert at[j] in at && kept[j] == items[at[j]];
      }
    }
  }

  lemma PartItem(env: Env, elems: Elements, picks: seq<Pick>, want: set<bytes>, kept: seq<bytes>, at: seq<nat>, j: nat)
    requires PartAt(env, elems, picks, want, kept, at) && Arriving(env, elems, want) && j < |kept|
    ensures picks[at[j]].id in want && picks[at[j]].id in ReceivedPart(env, elems, want)
    ensures ReadItem(env, kept[j]) == Some(Checked(picks[at[j]].id, ReceivedPart(env, elems, want)[picks[at[j]].id]))
  {
    hide BuildItem, ReadItem, IdAt, Received, ElementReads;
    var i := at[j];
    assert i in at && picks[i].id in want;
    var v := elems[picks[i].id];
    assert ElementArrives(env, picks[i].id, v);
    BuiltItemReads(env, i, picks[i], v);
  }

  lemma PartIdsDiffer(env: Env, elems: Elements, picks: seq<Pick>, want: set<bytes>, kept: seq<bytes>, at: seq<nat>,
                      j: nat, l: nat)
    requires PartAt(env, elems, picks, want, kept, at) && j < l < |kept|
    ensures picks[at[j]].id != picks[at[l]].id
  {
    hide Encodable, BuiltItems, BuildItem;
  }

  lemma PartItemIsLast(env: Env, elems: Elements, picks: seq<Pick>, want: set<bytes>, kept: seq<bytes>, at: seq<nat>,
                       j: nat)
    requires PartAt(env, elems, picks, want, kept, at) && Arriving(env, elems, want) && j < |kept|
    ensures var id := picks[at[j]].id;
            id in ReceivedPart(env, elems, want) &&
            LastAt(env, kept, j, Checked(id, ReceivedPart(env, elems, want)[id]))
  {
    hide ReadItem, ReceivedPart, Arriving, Encodable, BuiltItems, ValidPicks, InElements;
    PartItem(env, elems, picks, want, kept, at, j);
    forall l | j < l < |kept| ensures !HasId(env, kept[l], picks[at[j]].id) {
      PartItem(env, elems, picks, want, kept, at, l);
      PartIdsDiffer(env, elems, picks, want, kept, at, j, l);
    }
  }

  lemma PartPosition(env: Env, elems: Elements, picks: seq<Pick>, want: set<bytes>, kept: seq<bytes>, at: seq<nat>,
                     id: bytes) returns (j: nat)
    requires PartAt(env, elems, picks, want, kept, at) && id in want
    ensures j < |kept| && picks[at[j]].id == id
  {
    hide Encodable, BuiltItems, BuildItem;
    var i: nat :| i < |picks| && picks[i].id == id;
    assert i in at;
    j :| 0 <= j < |at| && at[j] == i;
  }

  lemma PartIsLast(env: Env, elems: Elements, picks: seq<Pick>, want: set<bytes>, kept: seq<bytes>, at: seq<nat>)
    requires PartAt(env, elems, picks, want, kept, at) && Arriving(env, elems, want)
    ensures LastOccurrences(env, kept, ReceivedPart(env, elems, want))
  {
    var out := ReceivedPart(env, elems, want);
    assert out.Keys <= want;
    hide ReceivedPart, Arriving, PartAt, ReadItem, LastAt, LastOccurrences;
    forall j | 0 <= j < |kept| ensures ReadItem(env, kept[j]).Some? && ReadItem(env, kept[j]).value.id in out {
      PartItem(env, elems, picks, want, kept, at, j);
    }
    forall id | id in out ensures exists j :: LastAt(env, kept, j, Checked(id, out[id])) {
      var j := PartPosition(env, elems, picks, want, kept, at, id);
      PartItemIsLast(env, elems, picks, want, kept, at, j);
    }
    LastOccurrencesIntro(env, kept, out);
  }

  /** The exact verdict on a part of one issued namespace: it passes when every wanted element
      arrives, and yields those elements as encoding and decoding give them. */
  lemma PartVerdict(env: Env, alg: bytes, elems: Elements, picks: seq<Pick>, want: set<bytes>, kept: seq<bytes>,
                    at: seq<nat>)
    requires PartAt(env, elems, picks, want, kept, at)
    ensures CheckItems(env, alg, DigestsOf(env, alg, BuiltItems(env, elems, picks)), kept).ToOption() ==
            if Arriving(env, elems, want) then Some(ReceivedPart(env, elems, want)) else None
  {
    hide PartAt, CheckItems, AllMatch, LastOccurrences, DigestsOf, Arriving, ReceivedPart, BuiltItems;
    PartIsIssued(env, elems, picks, want, kept, at);
    PartMatches(env, alg, elems, picks, want, kept, at);
    var digests := DigestsOf(env, alg, BuiltItems(env, elems, picks));
    CheckItemsExact(env, alg, digests, kept);
    if Arriving(env, elems, want) {
      PartIsLast(env, elems, picks, want, kept, at);
      LastOccurrencesUnique(env, kept, CheckItems(env, alg, digests, kept).value, ReceivedPart(env, elems, want));
    }
  }

  lemma PartIsIssued(env: Env, elems: Elements, picks: seq<Pick>, want: set<bytes>, kept: seq<bytes>, at: seq<nat>)
    requires PartAt(env, elems, picks, want, kept, at)
    ensures ValidPicks(elems, picks) && InElements(elems, picks) && Encodable(env, elems, picks) && want <= elems.Keys
  {
  }

  lemma WholeIsPart(env: Env, elems: Elements, picks: seq<Pick>) returns (at: seq<nat>)
    requires ValidPicks(elems, picks) && Encodable(env, elems, picks)
    ensures PartAt(env, elems, picks, elems.Keys, BuiltItems(env, elems, picks), at)
  {
    hide Encodable, BuildItem;
    at := seq(|picks|, i => i);
    forall i: nat | i < |picks| ensures i in at { assert at[i] == i; }
  }

  /** The exact verdict on a whole issued namespace, whatever the order and the salts. */
  lemma NameSpaceVerdict(env: Env, alg: bytes, elems: Elements, picks: seq<Pick>)
    requires ValidPicks(elems, picks) && Encodable(env, elems, picks)
    ensures var items := BuiltItems(env, elems, picks);
            CheckItems(env, alg, DigestsOf(env, alg, items), items).ToOption() ==
            if Arriving(env, elems, elems.Keys) then Some(ReceivedPart(env, elems, elems.Keys)) else None
  {
    hide Encodable, CheckItems, DigestsOf, Arriving, ReceivedPart;
    var at := WholeIsPart(env, elems, picks);
    hide PartAt;
    PartVerdict(env, alg, elems, picks, elems.Keys, BuiltItems(env, elems, picks), at);
  }

  function PickIds(picks: seq<Pick>): set<bytes> {
    set k | 0 <= k < |picks| :: picks[k].id
  }

  lemma {:induction false} PickIdsSize(picks: seq<Pick>)
    requires forall i, j | 0 <= i < j < |picks| :: picks[i].id != picks[j].id
    ensures |PickIds(picks)| == |picks|
  {
    if picks == [] {
      assert PickIds(picks) == {};
    } else {
      var front := picks[..|picks| - 1];
      PickIdsSize(front);
      assert PickIds(picks) == PickIds(front) + {picks[|picks| - 1].id};
    }
  }

  /** Exactly one position holds the item of element `id`. */
  predicate OnePosition(picks: seq<Pick>, id: bytes) {
    exists k :: 0 <= k < |picks| && picks[k].id == id && forall j | 0 <= j < |picks| && j != k :: picks[j].id != id
  }

  lemma PicksCount(elems: Elements, picks: seq<Pick>)
    requires ValidPicks(elems, picks)
    ensures |picks| == |elems| && forall id | id in elems :: OnePosition(picks, id)
  {
    PickIdsSize(picks);
    assert PickIds(picks) == elems.Keys;
  }

  /** Entry `k` is the item built for the element drawn at position `k`. */
  predicate StoredInPlace(env: Env, elems: Elements, picks: seq<Pick>, items: seq<bytes>, k: nat) {
    k < |picks| && k < |items| && picks[k].id in elems &&
    BuildItem(env, k, picks[k], elems[picks[k].id]) == Ok(items[k])
  }

  /** Digest IDs are exactly 0..n-1, in bijection with the elements, and entry k digests the
      item stored at position k. */
  lemma DigestIDsAreABijection(env: Env, alg: bytes, elems: Elements, picks: seq<Pick>, items: seq<bytes>)
    requires InElements(elems, picks) && Encodable(env, elems, picks) && items == BuiltItems(env, elems, picks)
    requires ValidPicks(elems, picks)
    ensures |items| == |elems| == |picks| && forall id | id in elems :: OnePosition(picks, id)
    ensures forall k: nat :: k in DigestsOf(env, alg, items) <==> k < |items|
    ensures forall k: nat | k < |items| :: DigestsOf(env, alg, items)[k] == env.hash(alg, items[k])
    ensures forall k: nat | k < |items| :: StoredInPlace(env, elems, picks, items, k)
  {
    hide Encodable, BuildItem, OnePosition;
    PicksCount(elems, picks);
  }

  // ----- the signed object -----

  /** One issuing run: what was asked for and what was drawn. */
  datatype Issuance = Issuance(t: DocumentTemplate, deviceKey: PublicKey, ch: Choices)

  ghost predicate Ran(env: Env, e: Issuance) {
    ValidChoices(e.t, e.ch) && ChoicesInTemplate(e.t, e.ch) && AllEncodable(env, e.t, e.ch)
  }

  ghost function Stored(env: Env, e: Issuance): NameSpaceItems
    requires Ran(env, e)
  {
    BuiltNameSpaces(env, e.t, e.ch)
  }

  ghost function Tables(env: Env, e: Issuance): map<bytes, DigestIDs>
    requires Ran(env, e)
  {
    DigestTables(env, TemplateAlg(e.t), Stored(env, e))
  }

  lemma StoredAt(env: Env, e: Issuance, n: bytes)
    requires Ran(env, e) && n in e.t.namespaces
    ensures n in e.ch && ValidPicks(e.t.namespaces[n], e.ch[n])
    ensures InElements(e.t.namespaces[n], e.ch[n]) && Encodable(env, e.t.namespaces[n], e.ch[n])
    ensures n in Stored(env, e) && n in Tables(env, e)
    ensures Stored(env, e)[n] == BuiltItems(env, e.t.namespaces[n], e.ch[n])
    ensures Tables(env, e)[n] == DigestsOf(env, TemplateAlg(e.t), Stored(env, e)[n])
  {
    hide TemplateAlg, Encodable, ValidPicks, InElements, DigestsOf, BuiltItems;
  }

  /** The bytes the issuer key is asked to sign. */
  ghost function SealedMso(env: Env, e: Issuance): Result<bytes>
    requires Ran(env, e)
  {
    IssuedMsoBytes(env, e.t, e.deviceKey, Tables(env, e))
  }

  /** The object as the issuer builds it. */
  ghost function MsoOf(env: Env, e: Issuance): MobileSecurityObject
    requires Ran(env, e) && SealedMso(env, e).Ok?
  {
    IssuedMso(e.t, SealedKey(env, e.t, e.deviceKey).value, EncodeStatus(e.t.status).value, Tables(env, e))
  }

  lemma SealedKeyFacts(env: Env, t: DocumentTemplate, deviceKey: PublicKey)
    requires SealedKey(env, t, deviceKey).Ok?
    ensures var raw := SealedKey(env, t, deviceKey).value;
            raw != [] && RawOk(raw) && InLimits(Embed(raw), 1) && ParseCOSEKey(env, raw) == Ok(deviceKey)
    ensures t.docType != [] && AllowedDigestAlg(TemplateAlg(t))
  {
    hide AllowedDigestAlg, TemplateAlg, ParseCOSEKey, InLimits, KeyStruct, WF, Print, RawOk, Embed, FieldSize;
    KeyRoundTrip(env, deviceKey);
    EmbedPrint(KeyStruct(deviceKey.curve, PointX(deviceKey.point), PointY(deviceKey.point)));
  }

  /** The sealed object reads back as the template: only the times change, to what the wire
      carries. */
  lemma SealedMsoReads(env: Env, e: Issuance)
    requires Ran(env, e) && SealedMso(env, e).Ok?
    ensures DecodeMso(env, SealedMso(env, e).value) ==
            if MsoReadable(env, MsoOf(env, e)) && InLimits(MkStruct(MsoFields(env, MsoOf(env, e))), MAX_NESTED_LEVELS)
            then Ok(MsoOf(env, e).(validityInfo := WireValidity(env, e.t.validityInfo).value)) else Err(ErrMalformed)
    ensures MsoReadable(env, MsoOf(env, e)) ==> WireValidity(env, e.t.validityInfo).Some?
  {
    hide SealedKey, EncodeStatus, EncodeMso, DecodeMso, MsoReadable, InLimits, WireValidity, MkStruct,
         MsoFields, Tables, Ran, TemplateAlg;
    SealedKeyFacts(env, e.t, e.deviceKey);
    if MsoReadable(env, MsoOf(env, e)) {
      ReadableValidity(env, MsoOf(env, e));
    }
    MsoRoundTrip(env, MsoOf(env, e));
  }

  /** The sealed object of such a template reads: its texts are UTF-8, its tables keep within the
      decoder's limits and its times have text that parses. */
  predicate ObjectReads(env: Env, t: DocumentTemplate) {
    Utf8(t.docType) && |t.namespaces| <= MAX_MAP_PAIRS &&
    (forall ns | ns in t.namespaces :: Utf8(ns) && |t.namespaces[ns]| <= MAX_ARRAY_ELEMENTS) &&
    WireValidity(env, t.validityInfo).Some?
  }

  /** The template's times as the wire carries them. */
  function WireTimes(env: Env, t: DocumentTemplate): ValidityInfo
    requires ObjectReads(env, t)
  {
    WireValidity(env, t.validityInfo).value
  }

  lemma AllowedIsAscii(alg: bytes)
    requires AllowedDigestAlg(alg)
    ensures Utf8(alg)
  {
    hide Utf8;
    AsciiIsUtf8(alg);
  }

  lemma VersionIsAscii()
    ensures Utf8(Ascii("1.0"))
  {
    hide Utf8;
    AsciiIsUtf8(Ascii("1.0"));
  }

  lemma TableSizes(env: Env, e: Issuance)
    requires Ran(env, e)
    ensures Stored(env, e).Keys == Tables(env, e).Keys == e.t.namespaces.Keys
    ensures |Stored(env, e)| == |Tables(env, e)| == |e.t.namespaces|
    ensures forall ns | ns in e.t.namespaces :: |Tables(env, e)[ns]| == |Stored(env, e)[ns]| == |e.t.namespaces[ns]|
  {
    hide BuildItem, Encodable, ValidPicks;
    forall ns | ns in e.t.namespaces ensures |Tables(env, e)[ns]| == |Stored(env, e)[ns]| == |e.t.namespaces[ns]| {
      PicksCount(e.t.namespaces[ns], e.ch[ns]);
      DigestsCount(env, TemplateAlg(e.t), Stored(env, e)[ns]);
    }
    assert Stored(env, e).Keys == Tables(env, e).Keys == e.t.namespaces.Keys;
    KeyCount(Stored(env, e));
    KeyCount(Tables(env, e));
    KeyCount(e.t.namespaces);
  }

  lemma KeyCount<K, V>(m: map<K, V>)
    ensures |m| == |m.Keys|
  {
  }

  lemma {:induction false} DigestsCount(env: Env, alg: bytes, items: seq<bytes>)
    ensures |DigestsOf(env, alg, items)| == |items|
  {
    if items == [] {
      assert DigestsOf(env, alg, items) == map[];
    } else {
      var front := items[..|items| - 1];
      DigestsCount(env, alg, front);
      DigestsStep(env, alg, front, items[|items| - 1]);
      assert items == front + [items[|items| - 1]];
    }
  }

  lemma SealedMsoParts(env: Env, e: Issuance)
    requires Ran(env, e) && SealedMso(env, e).Ok?
    ensures SealedKey(env, e.t, e.deviceKey).Ok? && EncodeStatus(e.t.status).Ok? &&
            EncodeMso(env, MsoOf(env, e)) == SealedMso(env, e)
  {
    hide SealedKey, EncodeStatus, EncodeMso, Tables, Ran;
  }

  lemma MsoFits(env: Env, m: MobileSecurityObject)
    requires InLimits(Embed(m.deviceKey), 1) && (m.status != [] ==> InLimits(Embed(m.status), 2))
    ensures InLimits(MkStruct(MsoFields(env, m)), MAX_NESTED_LEVELS) <==>
            |m.valueDigests| <= MAX_MAP_PAIRS &&
            forall ns | ns in m.valueDigests :: |m.valueDigests[ns]| <= MAX_MAP_PAIRS
  {
    hide InLimits, Embed, MkStruct, MsoFields;
    InLimitsMonotone(Embed(m.deviceKey), 1, MAX_NESTED_LEVELS - 2);
    if m.status != [] {
      InLimitsMonotone(Embed(m.status), 2, MAX_NESTED_LEVELS - 1);
    }
    MsoInLimits(env, m, MAX_NESTED_LEVELS);
  }

  lemma SealedRaws(env: Env, e: Issuance)
    requires Ran(env, e) && SealedMso(env, e).Ok?
    ensures var m := MsoOf(env, e);
            InLimits(Embed(m.deviceKey), 1) && (m.status != [] ==> InLimits(Embed(m.status), 2)) &&
            m.valueDigests == Tables(env, e) && m.docType == e.t.docType && m.digestAlgorithm == TemplateAlg(e.t) &&
            m.validityInfo == e.t.validityInfo && m.version == Ascii("1.0") && AllowedDigestAlg(m.digestAlgorithm)
  {
    hide SealedMso, Ran, TemplateAlg, AllowedDigestAlg, Tables, InLimits, Embed, SealedKey, EncodeStatus,
         ParseCOSEKey, ParseMSOStatus, WireStatus, RawOk, Ascii;
    SealedMsoParts(env, e);
    SealedKeyFacts(env, e.t, e.deviceKey);
    StatusReadBack(env, e.t.status);
  }

  /** The tables have the template's sizes and names. */
  lemma TablesFit(env: Env, e: Issuance)
    requires Ran(env, e)
    ensures (|Tables(env, e)| <= MAX_MAP_PAIRS && forall ns | ns in Tables(env, e) ::
            |Tables(env, e)[ns]| <= MAX_MAP_PAIRS)
            <==>
            (|e.t.namespaces| <= MAX_MAP_PAIRS &&
             forall ns | ns in e.t.namespaces :: |e.t.namespaces[ns]| <= MAX_ARRAY_ELEMENTS)
  {
    hide Stored, Ran, TemplateAlg, Tables;
    TableSizes(env, e);
  }

  lemma NamesOfTables(env: Env, e: Issuance)
    requires Ran(env, e)
    ensures (forall ns | ns in Tables(env, e) :: Utf8(ns)) <==> forall ns | ns in e.t.namespaces :: Utf8(ns)
  {
    hide Stored, Ran, TemplateAlg, Tables, Utf8;
    TableSizes(env, e);
  }

  lemma SealedReads(env: Env, e: Issuance)
    requires Ran(env, e) && SealedMso(env, e).Ok?
    ensures MsoReadable(env, MsoOf(env, e)) && InLimits(MkStruct(MsoFields(env, MsoOf(env, e))), MAX_NESTED_LEVELS) <==>
            ObjectReads(env, e.t)
  {
    hide SealedMso, Ran, TemplateAlg, AllowedDigestAlg, Tables, InLimits, Embed, MkStruct, MsoFields, Utf8,
           WireValidity,
         MsoOf, Ascii;
    SealedRaws(env, e);
    MsoFits(env, MsoOf(env, e));
    TablesFit(env, e);
    NamesOfTables(env, e);
    AllowedIsAscii(TemplateAlg(e.t));
    VersionIsAscii();
  }

  /** The sealed object decodes exactly when the template's object reads, and then it is the
      template's with the wire's times. */
  lemma SealedVerdict(env: Env, e: Issuance)
    requires Ran(env, e) && SealedMso(env, e).Ok?
    ensures DecodeMso(env, SealedMso(env, e).value) ==
            if ObjectReads(env, e.t) then Ok(MsoOf(env, e).(validityInfo := WireTimes(env, e.t))) else Err(ErrMalformed)
  {
    hide SealedMso, MsoOf, MsoReadable, InLimits, WireValidity, DecodeMso, Ran, MkStruct, MsoFields, Utf8;
    SealedReads(env, e);
    SealedMsoReads(env, e);
  }

  // ----- integrity of what was issued -----

  /** The template's elements as encoding and decoding give them. */
  function ReceivedAll(env: Env, t: DocumentTemplate): Disclosed {
    map ns | ns in t.namespaces :: ReceivedPart(env, t.namespaces[ns], t.namespaces[ns].Keys)
  }

  predicate AllArriving(env: Env, t: DocumentTemplate) {
    forall ns | ns in t.namespaces :: Arriving(env, t.namespaces[ns], t.namespaces[ns].Keys)
  }

  lemma StoredVerdict(env: Env, e: Issuance, mso: MobileSecurityObject, ns: bytes)
    requires Ran(env, e) && ns in e.t.namespaces && ns in Stored(env, e)
    requires mso.digestAlgorithm == TemplateAlg(e.t) && mso.valueDigests == Tables(env, e)
    ensures CheckNameSpace(env, mso, ns, Stored(env, e)[ns]).ToOption() ==
            var elems := e.t.namespaces[ns];
            if Arriving(env, elems, elems.Keys) then Some(ReceivedPart(env, elems, elems.Keys)) else None
  {
    hide TemplateAlg, CheckItems, Encodable, ValidPicks, DigestsOf, Arriving, ReceivedPart, BuiltItems;
    NameSpaceVerdict(env, TemplateAlg(e.t), e.t.namespaces[ns], e.ch[ns]);
  }

  /** Whatever the order and the salts, the issued namespaces pass exactly when every element of
      the template arrives, and yield the template's elements as encoding and decoding give
      them. */
  lemma IssuedIntegrity(env: Env, e: Issuance, mso: MobileSecurityObject)
    requires Ran(env, e)
    requires mso.digestAlgorithm == TemplateAlg(e.t) && mso.valueDigests == Tables(env, e) &&
             AllowedDigestAlg(TemplateAlg(e.t))
    ensures Integrity(env, mso, Stored(env, e)) == if AllArriving(env, e.t) then Some(ReceivedAll(env, e.t)) else None
  {
    hide AllowedDigestAlg, TemplateAlg, Integrity, CheckNameSpace, Stored, Tables, Ran, Arriving, ReceivedPart;
    TableSizes(env, e);
    forall ns | ns in e.t.namespaces
      ensures CheckNameSpace(env, mso, ns, Stored(env, e)[ns]).ToOption() ==
              var elems := e.t.namespaces[ns];
              if Arriving(env, elems, elems.Keys) then Some(ReceivedPart(env, elems, elems.Keys)) else None
    {
      StoredVerdict(env, e, mso, ns);
    }
    if AllArriving(env, e.t) {
      IntegrityDone(env, mso, Stored(env, e), ReceivedAll(env, e.t));
    } else {
      var ns :| ns in e.t.namespaces && !Arriving(env, e.t.namespaces[ns], e.t.namespaces[ns].Keys);
      IntegrityFails(env, mso, Stored(env, e), ns);
    }
  }

  /** Two runs over one template, in any orders and with any salts, get the same verdict and the
      same map. */
  lemma OrderIsInvisible(env: Env, a: Issuance, b: Issuance, ma: MobileSecurityObject, mb: MobileSecurityObject)
    requires Ran(env, a) && Ran(env, b) && a.t == b.t && AllowedDigestAlg(TemplateAlg(a.t))
    requires ma.digestAlgorithm == TemplateAlg(a.t) && ma.valueDigests == Tables(env, a)
    requires mb.digestAlgorithm == TemplateAlg(b.t) && mb.valueDigests == Tables(env, b)
    ensures Integrity(env, ma, Stored(env, a)) == Integrity(env, mb, Stored(env, b))
  {
    hide Integrity, Stored, Tables, AllowedDigestAlg, TemplateAlg, Ran;
    IssuedIntegrity(env, a, ma);
    IssuedIntegrity(env, b, mb);
  }
}
