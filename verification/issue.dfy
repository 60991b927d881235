/**
 Issuing a credential. The two map iterations of the issuer visit their keys in an arbitrary
 order and every element gets an arbitrary 32-byte salt; `Choices` records both, and every
 result holds for all of them.
 */
module Issuing {
  import opened Basics
  import opened CborSyntax
  import opened Codec
  import opened Structs
  import opened Primitives
  import opened GoValues
  import opened CoseSign1
  import opened CoseKey
  import opened Wire
  import opened Responses
  import opened StatusRefs

  type Elements = map<bytes, GoVal>

  datatype DocumentTemplate = DocumentTemplate(
    docType: bytes,
    namespaces: map<bytes, Elements>,
    validityInfo: ValidityInfo,
    digestAlg: bytes,
    status: Option<StatusRef>)

  /** The document-signer key and the certificate chain stamped on every credential. */
  datatype Issuer = Issuer(signer: Signer, x5chain: seq<bytes>)

  // ----- the arbitrary choices of one run -----

  const SALT_LENGTH: nat := 32

  datatype Pick = Pick(id: bytes, salt: bytes)

  type Choices = map<bytes, seq<Pick>>

  /** The picks visit every element exactly once. */
  ghost predicate ValidPicks(elems: Elements, picks: seq<Pick>) {
    (forall i | 0 <= i < |picks| :: picks[i].id in elems && |picks[i].salt| == SALT_LENGTH) &&
    (forall i, j | 0 <= i < j < |picks| :: picks[i].id != picks[j].id) &&
    (forall id | id in elems :: exists i :: 0 <= i < |picks| && picks[i].id == id)
  }

  ghost predicate ValidChoices(t: DocumentTemplate, ch: Choices) {
    ch.Keys == t.namespaces.Keys && forall ns | ns in ch :: ValidPicks(t.namespaces[ns], ch[ns])
  }

  // ----- what one run builds -----

  /** The item stored at position `k`: its digest ID is its position. */
  function BuildItem(env: Env, k: nat, p: Pick, v: GoVal): Result<bytes> {
    var value :- Encode(ValueItem(env, v));
    EncodeIssuerSignedItem(IssuerSignedItem(k, p.salt, p.id, value))
  }

  predicate InElements(elems: Elements, picks: seq<Pick>) {
    forall i | 0 <= i < |picks| :: picks[i].id in elems
  }

  predicate Encodable(env: Env, elems: Elements, picks: seq<Pick>)
    requires InElements(elems, picks)
  {
    forall k | 0 <= k < |picks| :: BuildItem(env, k, picks[k], elems[picks[k].id]).Ok?
  }

  function BuiltItems(env: Env, elems: Elements, picks: seq<Pick>): (r: seq<bytes>)
    requires InElements(elems, picks) && Encodable(env, elems, picks)
    ensures |r| == |picks|
    ensures forall k | 0 <= k < |picks| :: BuildItem(env, k, picks[k], elems[picks[k].id]) == Ok(r[k])
  {
    seq(|picks|, k requires 0 <= k < |picks| => BuildItem(env, k, picks[k], elems[picks[k].id]).value)
  }

  /** The digest table of one namespace: position k maps to the digest of the item there. */
  function DigestsOf(env: Env, alg: bytes, items: seq<bytes>): DigestIDs {
    map k: nat | k < |items| :: env.hash(alg, items[k])
  }

  predicate ChoicesInTemplate(t: DocumentTemplate, ch: Choices) {
    ch.Keys == t.namespaces.Keys && forall ns | ns in ch :: InElements(t.namespaces[ns], ch[ns])
  }

  predicate AllEncodable(env: Env, t: DocumentTemplate, ch: Choices)
    requires ChoicesInTemplate(t, ch)
  {
    forall ns | ns in t.namespaces :: Encodable(env, t.namespaces[ns], ch[ns])
  }

  function BuiltNameSpaces(env: Env, t: DocumentTemplate, ch: Choices): NameSpaceItems
    requires ChoicesInTemplate(t, ch) && AllEncodable(env, t, ch)
  {
    map ns | ns in t.namespaces :: BuiltItems(env, t.namespaces[ns], ch[ns])
  }

  function DigestTables(env: Env, alg: bytes, ns: NameSpaceItems): map<bytes, DigestIDs> {
    map n | n in ns :: DigestsOf(env, alg, ns[n])
  }

  function TemplateAlg(t: DocumentTemplate): bytes {
    if t.digestAlg == [] then Ascii("SHA-256") else t.digestAlg
  }

  function IssuedMso(t: DocumentTemplate, deviceKey: bytes, status: bytes, valueDigests: map<bytes,
      DigestIDs>): MobileSecurityObject {
    MobileSecurityObject(Ascii("1.0"), TemplateAlg(t), valueDigests, deviceKey, t.docType, t.validityInfo, status)
  }

  /** The device key and the status reference as they are sealed. */
  function SealedKey(env: Env, t: DocumentTemplate, deviceKey: PublicKey): Result<bytes> {
    if t.docType == [] then Err(ErrUnsupported)
    else if !AllowedDigestAlg(TemplateAlg(t)) then Err(ErrDigestAlg)
    else if deviceKey.NonEcKey? then Err(ErrUnsupported)
    else EncodeCOSEKey(env, deviceKey)
  }

  /** MobileSecurityObjectBytes of one run. */
  function IssuedMsoBytes(env: Env, t: DocumentTemplate, deviceKey: PublicKey, valueDigests: map<bytes,
      DigestIDs>): Result<bytes> {
    var key :- SealedKey(env, t, deviceKey);
    var status :- EncodeStatus(t.status);
    EncodeMso(env, IssuedMso(t, key, status, valueDigests))
  }

  /** Everything after the two loops. */
  function Assemble(env: Env, issuer: Issuer, t: DocumentTemplate, deviceKey: PublicKey,
                    ns: NameSpaceItems, valueDigests: map<bytes, DigestIDs>): Result<bytes> {
    var msoBytes :- IssuedMsoBytes(env, t, deviceKey, valueDigests);
    var issuerAuth :- SignCOSEWithX5Chain(issuer.signer, issuer.x5chain, msoBytes);
    EncodeIssuerSigned(IssuerSigned(ns, issuerAuth))
  }

  /** The credential issued under the given choices. */
  function Issue(env: Env, issuer: Issuer, t: DocumentTemplate, deviceKey: PublicKey, ch: Choices): Result<bytes>
    requires ChoicesInTemplate(t, ch)
  {
    var _ :- SealedKey(env, t, deviceKey);
    if !AllEncodable(env, t, ch) then Err(ErrTooLarge)
    else
      var ns := BuiltNameSpaces(env, t, ch);
      Assemble(env, issuer, t, deviceKey, ns, DigestTables(env, TemplateAlg(t), ns))
  }

  // ----- the loops -----

  /** `picks` is a possible beginning: it leaves exactly `todo` to visit. */
  ghost predicate PartialPicks(elems: Elements, picks: seq<Pick>, todo: set<bytes>) {
    todo <= elems.Keys &&
    (forall i | 0 <= i < |picks| :: picks[i].id in elems && picks[i].id !in todo && |picks[i].salt| == SALT_LENGTH) &&
    (forall i, j | 0 <= i < j < |picks| :: picks[i].id != picks[j].id) &&
    (forall id | id in elems && id !in todo :: exists i :: 0 <= i < |picks| && picks[i].id == id)
  }

  lemma PartialStep(elems: Elements, picks: seq<Pick>, todo: set<bytes>, id: bytes, salt: bytes)
    requires PartialPicks(elems, picks, todo) && id in todo && |salt| == SALT_LENGTH
    ensures PartialPicks(elems, picks + [Pick(id, salt)], todo - {id})
  {
    var next := picks + [Pick(id, salt)];
    assert next[|picks|].id == id;
    forall x | x in elems && x !in todo - {id}
      ensures exists i :: 0 <= i < |next| && next[i].id == x
    {
      if x != id {
        var i :| 0 <= i < |picks| && picks[i].id == x;
        assert next[i].id == x;
      }
    }
  }

  lemma PartialDone(elems: Elements, picks: seq<Pick>)
    requires PartialPicks(elems, picks, {})
    ensures ValidPicks(elems, picks)
  {
  }

  lemma {:induction false} PartialCompletes(elems: Elements, picks: seq<Pick>, todo: set<bytes>)
      returns (all: seq<Pick>)
    requires PartialPicks(elems, picks, todo)
    ensures ValidPicks(elems, all) && |picks| <= |all| && all[..|picks|] == picks
    decreases |todo|
  {
    hide PartialPicks, ValidPicks;
    if todo == {} {
      PartialDone(elems, picks);
      all := picks;
    } else {
      var id :| id in todo;
      PartialStep(elems, picks, todo, id, Zeros(SALT_LENGTH));
      all := PartialCompletes(elems, picks + [Pick(id, Zeros(SALT_LENGTH))], todo - {id});
      assert all[..|picks|] == all[..|picks| + 1][..|picks|];
    }
  }

  lemma PicksExist(elems: Elements)
    ensures exists picks :: ValidPicks(elems, picks)
  {
    var picks := PartialCompletes(elems, [], elems.Keys);
  }

  ghost function AnyPicks(elems: Elements): (r: seq<Pick>)
    ensures ValidPicks(elems, r)
  {
    PicksExist(elems);
    var picks :| ValidPicks(elems, picks);
    picks
  }

  ghost function AnyChoices(t: DocumentTemplate): (ch: Choices)
    ensures ValidChoices(t, ch)
  {
    map ns | ns in t.namespaces :: AnyPicks(t.namespaces[ns])
  }

  /** The only way to fail on an element is a size no head can carry. */
  lemma BuildItemFails(env: Env, k: nat, p: Pick, v: GoVal)
    requires BuildItem(env, k, p, v).Err?
    ensures BuildItem(env, k, p, v) == Err(ErrTooLarge)
  {
    hide ValueItem, WF, MkStruct, ItemFields, Print;
    if WF(ValueItem(env, v)) {
      EmbedPrint(ValueItem(env, v));
    }
  }

  /** Any 32 bytes at all. */
  method RandomSalt() returns (salt: bytes)
    ensures |salt| == SALT_LENGTH
  {
    assert |Zeros(SALT_LENGTH)| == SALT_LENGTH;
    salt :| |salt| == SALT_LENGTH;
  }

  /** The inner loop's state: items, digests and picks describe the elements visited so far. */
  ghost predicate Visited(env: Env, alg: bytes, elems: Elements, picks: seq<Pick>, todo: set<bytes>,
      items: seq<bytes>, ids: DigestIDs) {
    PartialPicks(elems, picks, todo) && |picks| == |items| && ids == DigestsOf(env, alg, items) &&
    forall k | 0 <= k < |items| :: BuildItem(env, k, picks[k], elems[picks[k].id]) == Ok(items[k])
  }

  lemma VisitNone(env: Env, alg: bytes, elems: Elements)
    ensures Visited(env, alg, elems, [], elems.Keys, [], map[])
  {
  }

  lemma DigestsStep(env: Env, alg: bytes, items: seq<bytes>, b: bytes)
    ensures DigestsOf(env, alg, items + [b]) == DigestsOf(env, alg, items)[|items| := env.hash(alg, b)]
  {
  }

  lemma VisitNext(env: Env, alg: bytes, elems: Elements, picks: seq<Pick>, todo: set<bytes>, items: seq<bytes>,
      ids: DigestIDs, p: Pick, b: bytes)
    requires Visited(env, alg, elems, picks, todo, items, ids)
    requires p.id in todo && p.id in elems && |p.salt| == SALT_LENGTH &&
             BuildItem(env, |items|, p, elems[p.id]) == Ok(b)
    ensures Visited(env, alg, elems, picks + [p], todo - {p.id}, items + [b], ids[|items| := env.hash(alg, b)])
  {
    hide BuildItem, DigestsOf;
    PartialStep(elems, picks, todo, p.id, p.salt);
    DigestsStep(env, alg, items, b);
    assert p == Pick(p.id, p.salt);
    forall k | 0 <= k < |items| + 1
      ensures (picks + [p])[k].id in elems && BuildItem(env, k, (picks + [p])[k], elems[(picks + [p])[k].id]) ==
              Ok((items + [b])[k])
    {
      if k < |items| {
        assert (picks + [p])[k] == picks[k] && (items + [b])[k] == items[k];
      }
    }
    hide PartialPicks;
  }

  lemma VisitFails(env: Env, alg: bytes, elems: Elements, picks: seq<Pick>, todo: set<bytes>, items: seq<bytes>,
      ids: DigestIDs, p: Pick)
    returns (all: seq<Pick>)
    requires Visited(env, alg, elems, picks, todo, items, ids)
    requires p.id in todo && p.id in elems && |p.salt| == SALT_LENGTH && BuildItem(env, |items|, p, elems[p.id]).Err?
    ensures ValidPicks(elems, all) && InElements(elems, all) && !Encodable(env, elems, all)
  {
    PartialStep(elems, picks, todo, p.id, p.salt);
    hide BuildItem;
    var k := |items|;
    all := PartialCompletes(elems, picks + [p], todo - {p.id});
    assert all[k] == all[..k + 1][k] == p;
  }

  lemma BuiltItemsAre(env: Env, elems: Elements, picks: seq<Pick>, items: seq<bytes>)
    requires InElements(elems, picks) && |picks| == |items|
    requires forall k | 0 <= k < |items| :: BuildItem(env, k, picks[k], elems[picks[k].id]) == Ok(items[k])
    ensures Encodable(env, elems, picks) && BuiltItems(env, elems, picks) == items
  {
    hide BuildItem;
    assert Encodable(env, elems, picks);
    hide Encodable;
    var r := BuiltItems(env, elems, picks);
    forall k | 0 <= k < |items| ensures r[k] == items[k] {
      assert BuildItem(env, k, picks[k], elems[picks[k].id]) == Ok(r[k]);
    }
  }

  lemma VisitedAll(env: Env, alg: bytes, elems: Elements, picks: seq<Pick>, items: seq<bytes>, ids: DigestIDs)
    requires Visited(env, alg, elems, picks, {}, items, ids)
    ensures NameSpaceDone(env, alg, elems, picks, items, ids)
  {
    hide BuildItem, DigestsOf, PartialPicks, ValidPicks, Encodable, BuiltItems;
    PartialDone(elems, picks);
    assert InElements(elems, picks) by { DoneInElements(elems, picks); }
    hide InElements;
    BuiltItemsAre(env, elems, picks, items);
  }

  lemma DoneInElements(elems: Elements, picks: seq<Pick>)
    requires ValidPicks(elems, picks)
    ensures InElements(elems, picks)
  {
  }

  /** One namespace is finished: its items, its digest table and its picks belong together. */
  ghost predicate NameSpaceDone(env: Env, alg: bytes, elems: Elements, picks: seq<Pick>, items: seq<bytes>,
      ids: DigestIDs) {
    ValidPicks(elems, picks) && Encodable(env, elems, picks) && items == BuiltItems(env, elems, picks) &&
      ids == DigestsOf(env, alg, items)
  }

  /** What the inner loop returns when it draws `picks`. */
  ghost predicate NameSpaceOutcome(env: Env, alg: bytes, elems: Elements, picks: seq<Pick>,
      r: Result<(seq<bytes>, DigestIDs)>) {
    match r
    case Ok(p) => NameSpaceDone(env, alg, elems, picks, p.0, p.1)
    case Err(e) =>
      e == ErrTooLarge && ValidPicks(elems, picks) && InElements(elems, picks) && !Encodable(env, elems, picks)
  }

  /** The inner loop: items, digests and the running digest ID advance together. */
  method IssueNameSpace(env: Env, alg: bytes, elems: Elements) returns (r: Result<(seq<bytes>, DigestIDs)>)
    ensures exists picks :: NameSpaceOutcome(env, alg, elems, picks, r)
  {
    hide BuildItem, Visited, NameSpaceDone, ValidPicks, InElements, Encodable, DigestsOf;
    ghost var picks: seq<Pick> := [];
    var digestID := 0;
    var ids: DigestIDs := map[];
    var items: seq<bytes> := [];
    var todo := elems.Keys;
    VisitNone(env, alg, elems);
    while todo != {}
      invariant todo <= elems.Keys && |items| == digestID
      invariant Visited(env, alg, elems, picks, todo, items, ids)
      decreases |todo|
    {
      var id :| id in todo;
      var salt := RandomSalt();
      var itemBytes := BuildItem(env, digestID, Pick(id, salt), elems[id]);
      if itemBytes.Err? {
        BuildItemFails(env, digestID, Pick(id, salt), elems[id]);
        ghost var all := VisitFails(env, alg, elems, picks, todo, items, ids, Pick(id, salt));
        assert NameSpaceOutcome(env, alg, elems, all, Err(ErrTooLarge));
        return Err(itemBytes.error);
      }
      VisitNext(env, alg, elems, picks, todo, items, ids, Pick(id, salt), itemBytes.value);
      picks := picks + [Pick(id, salt)];
      todo := todo - {id};
      ids := ids[digestID := env.hash(alg, itemBytes.value)];
      items := items + [itemBytes.value];
      digestID := digestID + 1;
    }
    VisitedAll(env, alg, elems, picks, items, ids);
    assert NameSpaceOutcome(env, alg, elems, picks, Ok((items, ids)));
    return Ok((items, ids));
  }

  /** The outer loop's state. */
  ghost predicate Finished(env: Env, t: DocumentTemplate, ch: Choices, todo: set<bytes>, ns: NameSpaceItems,
      vd: map<bytes, DigestIDs>) {
    ValidChoices(t, ch) && ns.Keys == vd.Keys == t.namespaces.Keys - todo &&
    forall n | n in ns :: NameSpaceDone(env, TemplateAlg(t), t.namespaces[n], ch[n], ns[n], vd[n])
  }

  lemma FinishNone(env: Env, t: DocumentTemplate, ch: Choices)
    requires ValidChoices(t, ch)
    ensures Finished(env, t, ch, t.namespaces.Keys, map[], map[])
  {
  }

  lemma ValidChoicesFit(t: DocumentTemplate, ch: Choices)
    requires ValidChoices(t, ch)
    ensures ChoicesInTemplate(t, ch)
  {
  }

  lemma UpdateChoices(t: DocumentTemplate, ch: Choices, n: bytes, picks: seq<Pick>)
    requires ValidChoices(t, ch) && n in t.namespaces && ValidPicks(t.namespaces[n], picks)
    ensures ValidChoices(t, ch[n := picks])
  {
    hide ValidPicks;
  }

  lemma DoneIsValid(env: Env, alg: bytes, elems: Elements, picks: seq<Pick>, items: seq<bytes>, ids: DigestIDs)
    requires NameSpaceDone(env, alg, elems, picks, items, ids)
    ensures ValidPicks(elems, picks)
  {
  }

  lemma FinishNext(env: Env, t: DocumentTemplate, ch: Choices, todo: set<bytes>, ns: NameSpaceItems, vd: map<bytes,
      DigestIDs>,
                   n: bytes, picks: seq<Pick>, items: seq<bytes>, ids: DigestIDs)
    requires Finished(env, t, ch, todo, ns, vd) && n in todo && n in t.namespaces
    requires NameSpaceDone(env, TemplateAlg(t), t.namespaces[n], picks, items, ids)
    ensures Finished(env, t, ch[n := picks], todo - {n}, ns[n := items], vd[n := ids])
  {
    hide NameSpaceDone, ValidPicks, TemplateAlg, ValidChoices;
    DoneIsValid(env, TemplateAlg(t), t.namespaces[n], picks, items, ids);
    UpdateChoices(t, ch, n, picks);
    assert ns[n := items].Keys == vd[n := ids].Keys == t.namespaces.Keys - (todo - {n});
    forall m | m in ns[n := items]
      ensures m in t.namespaces && m in ch[n := picks]
      ensures NameSpaceDone(env, TemplateAlg(t), t.namespaces[m], ch[n := picks][m], ns[n := items][m], vd[n := ids][m])
    {
      ChoicesKeys(t, ch[n := picks]);
      if m != n {
        assert m in ns && m in vd && m in ch by { ChoicesKeys(t, ch); }
      }
    }
  }

  lemma ChoicesKeys(t: DocumentTemplate, ch: Choices)
    requires ValidChoices(t, ch)
    ensures ch.Keys == t.namespaces.Keys
  {
  }

  lemma FinishFails(env: Env, t: DocumentTemplate, ch: Choices, todo: set<bytes>, ns: NameSpaceItems, vd: map<bytes,
      DigestIDs>,
                    n: bytes, picks: seq<Pick>)
    requires Finished(env, t, ch, todo, ns, vd) && n in todo && n in t.namespaces
    requires ValidPicks(t.namespaces[n], picks) && InElements(t.namespaces[n], picks) &&
             !Encodable(env, t.namespaces[n], picks)
    ensures ValidChoices(t, ch[n := picks]) && ChoicesInTemplate(t, ch[n := picks]) &&
            !AllEncodable(env, t, ch[n := picks])
  {
    hide NameSpaceDone, ValidPicks, Encodable;
    var next := ch[n := picks];
    assert ValidChoices(t, next);
    ValidChoicesFit(t, next);
    assert next[n] == picks;
  }

  lemma FinishedItems(env: Env, t: DocumentTemplate, ch: Choices, ns: NameSpaceItems, vd: map<bytes, DigestIDs>)
    requires Finished(env, t, ch, {}, ns, vd) && ChoicesInTemplate(t, ch)
    ensures AllEncodable(env, t, ch) && ns == BuiltNameSpaces(env, t, ch)
  {
    hide Encodable, BuiltItems, DigestsOf, ValidPicks, InElements, TemplateAlg, ValidChoices;
    assert forall n | n in t.namespaces :: n in ns;
  }

  lemma FinishedAll(env: Env, t: DocumentTemplate, ch: Choices, ns: NameSpaceItems, vd: map<bytes, DigestIDs>)
    requires Finished(env, t, ch, {}, ns, vd)
    ensures ValidChoices(t, ch) && ChoicesInTemplate(t, ch) && AllEncodable(env, t, ch)
    ensures ns == BuiltNameSpaces(env, t, ch) && vd == DigestTables(env, TemplateAlg(t), ns)
  {
    ValidChoicesFit(t, ch);
    hide Encodable, BuiltItems, DigestsOf, ValidPicks, InElements, TemplateAlg;
    FinishedItems(env, t, ch, ns, vd);
    assert vd == DigestTables(env, TemplateAlg(t), ns) by {
      assert forall n | n in ns :: vd[n] == DigestsOf(env, TemplateAlg(t), ns[n]);
    }
  }

  /** `r` is what the run that draws `ch` returns. */
  ghost predicate IssuedUnder(env: Env, issuer: Issuer, t: DocumentTemplate, deviceKey: PublicKey, ch: Choices,
      r: Result<bytes>) {
    ValidChoices(t, ch) && ChoicesInTemplate(t, ch) && r == Issue(env, issuer, t, deviceKey, ch)
  }

  lemma RefusedAtOnce(env: Env, issuer: Issuer, t: DocumentTemplate, deviceKey: PublicKey, ch: Choices)
    requires ValidChoices(t, ch) && SealedKey(env, t, deviceKey).Err?
    ensures IssuedUnder(env, issuer, t, deviceKey, ch, Err(SealedKey(env, t, deviceKey).error))
  {
    ValidChoicesFit(t, ch);
    hide SealedKey, ValidChoices, ChoicesInTemplate, AllEncodable, BuiltNameSpaces, DigestTables, Assemble;
  }

  lemma RefusedInLoop(env: Env, issuer: Issuer, t: DocumentTemplate, deviceKey: PublicKey, ch: Choices,
                      todo: set<bytes>, ns: NameSpaceItems, vd: map<bytes, DigestIDs>, n: bytes, picks: seq<Pick>,
                      step: Result<(seq<bytes>, DigestIDs)>)
    requires SealedKey(env, t, deviceKey).Ok? && Finished(env, t, ch, todo, ns, vd) && n in todo && n in t.namespaces
    requires step.Err? && NameSpaceOutcome(env, TemplateAlg(t), t.namespaces[n], picks, step)
    ensures IssuedUnder(env, issuer, t, deviceKey, ch[n := picks], Err(step.error))
  {
    hide SealedKey, ValidChoices, ChoicesInTemplate, AllEncodable, BuiltNameSpaces, DigestTables, Assemble, Finished,
         ValidPicks, InElements, Encodable, TemplateAlg;
    FinishFails(env, t, ch, todo, ns, vd, n, picks);
  }

  lemma LoopsDone(env: Env, issuer: Issuer, t: DocumentTemplate, deviceKey: PublicKey, ch: Choices,
                  ns: NameSpaceItems, vd: map<bytes, DigestIDs>)
    requires SealedKey(env, t, deviceKey).Ok? && Finished(env, t, ch, {}, ns, vd)
    ensures IssuedUnder(env, issuer, t, deviceKey, ch, Assemble(env, issuer, t, deviceKey, ns, vd))
  {
    hide SealedKey, ValidChoices, ChoicesInTemplate, AllEncodable, BuiltNameSpaces, DigestTables, Assemble,
           Finished, TemplateAlg;
    FinishedAll(env, t, ch, ns, vd);
  }

  /** The whole issuing run: some valid order of namespaces and elements, some salts. */
  method IssueCredential(env: Env, issuer: Issuer, t: DocumentTemplate, deviceKey: PublicKey)
    returns (r: Result<bytes>)
    ensures exists ch :: IssuedUnder(env, issuer, t, deviceKey, ch, r)
  {
    hide *;
    ghost var ch := AnyChoices(t);
    var key := SealedKey(env, t, deviceKey);
    if key.Err? {
      RefusedAtOnce(env, issuer, t, deviceKey, ch);
      return Err(key.error);
    }
    var alg := TemplateAlg(t);
    var nameSpaces: NameSpaceItems := map[];
    var valueDigests: map<bytes, DigestIDs> := map[];
    var todo := t.namespaces.Keys;
    FinishNone(env, t, ch);
    while todo != {}
      invariant todo <= t.namespaces.Keys
      invariant Finished(env, t, ch, todo, nameSpaces, valueDigests)
      decreases |todo|
    {
      var ns :| ns in todo;
      var step := IssueNameSpace(env, alg, t.namespaces[ns]);
      ghost var picks :| NameSpaceOutcome(env, alg, t.namespaces[ns], picks, step);
      if step.Err? {
        RefusedInLoop(env, issuer, t, deviceKey, ch, todo, nameSpaces, valueDigests, ns, picks, step);
        return Err(step.error);
      }
      OutcomeDone(env, alg, t.namespaces[ns], picks, step);
      FinishNext(env, t, ch, todo, nameSpaces, valueDigests, ns, picks, step.value.0, step.value.1);
      ch := ch[ns := picks];
      nameSpaces := nameSpaces[ns := step.value.0];
      valueDigests := valueDigests[ns := step.value.1];
      todo := todo - {ns};
    }
    LoopsDone(env, issuer, t, deviceKey, ch, nameSpaces, valueDigests);
    return Assemble(env, issuer, t, deviceKey, nameSpaces, valueDigests);
  }

  lemma OutcomeDone(env: Env, alg: bytes, elems: Elements, picks: seq<Pick>, r: Result<(seq<bytes>, DigestIDs)>)
    requires NameSpaceOutcome(env, alg, elems, picks, r) && r.Ok?
    ensures NameSpaceDone(env, alg, elems, picks, r.value.0, r.value.1)
  {
    hide NameSpaceDone;
  }
}
