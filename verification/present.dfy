/** The wallet's side: disclosing a selection of the issued items. */
module Presenting {
  import opened Basics
  import opened CborSyntax
  import opened Codec
  import opened Primitives
  import opened GoValues
  import opened Wire
  import opened IssuerIntegrity

  type Request = map<bytes, seq<bytes>>

  function IdsOf(ids: seq<bytes>): set<bytes> {
    set id | id in ids
  }

  // ----- the selection -----

  /** The items kept so far and the identifiers still wanted. */
  datatype Selection = Selection(kept: seq<bytes>, want: set<bytes>)

  function SelectStep(s: Selection, raw: bytes): Result<Selection> {
    var isi :- DecodeIssuerSignedItem(raw);
    if isi.elementIdentifier in s.want
    then Ok(Selection(s.kept + [raw], s.want - {isi.elementIdentifier}))
    else Ok(s)
  }

  function Select(items: seq<bytes>, want: set<bytes>): Result<Selection> {
    if items == [] then Ok(Selection([], want))
    else
      var s :- Select(items[..|items| - 1], want);
      SelectStep(s, items[|items| - 1])
  }

  /** All items are examined before a missing identifier is reported. */
  function SelectNameSpace(ns: NameSpaceItems, n: bytes, ids: seq<bytes>): Result<seq<bytes>> {
    if n !in ns then Err(ErrUnsupported)
    else
      var s :- Select(ns[n], IdsOf(ids));
      if s.want != {} then Err(ErrUnsupported) else Ok(s.kept)
  }

  function SelectEach(ns: NameSpaceItems, disclose: Request): map<bytes, Option<seq<bytes>>> {
    map n | n in disclose :: SelectNameSpace(ns, n, disclose[n]).ToOption()
  }

  function SelectDisclosed(ns: NameSpaceItems, disclose: Request): Option<NameSpaceItems> {
    AllIn(SelectEach(ns, disclose))
  }

  ghost predicate SelectError(ns: NameSpaceItems, disclose: Request, e: Error) {
    exists n :: n in disclose && SelectNameSpace(ns, n, disclose[n]) == Err(e)
  }

  // ----- the loops -----

  method SelectItems(items: seq<bytes>, ids: seq<bytes>) returns (r: Result<Selection>)
    ensures r == Select(items, IdsOf(ids))
  {
    hide DecodeIssuerSignedItem;
    var want: set<bytes> := {};
    for i := 0 to |ids|
      invariant want == IdsOf(ids[..i])
    {
      assert ids[..i + 1] == ids[..i] + [ids[i]];
      want := want + {ids[i]};
    }
    assert ids[..|ids|] == ids;
    ghost var all := want;
    var kept: seq<bytes> := [];
    for i := 0 to |items|
      invariant Select(items[..i], all) == Ok(Selection(kept, want))
    {
      assert items[..i + 1][..i] == items[..i];
      var isi := DecodeIssuerSignedItem(items[i]);
      if isi.Err? {
        SelectFails(items, all, i + 1);
        return Err(isi.error);
      }
      if isi.value.elementIdentifier in want {
        kept := kept + [items[i]];
        want := want - {isi.value.elementIdentifier};
      }
    }
    assert items[..|items|] == items;
    return Ok(Selection(kept, want));
  }

  lemma {:induction false} SelectFails(items: seq<bytes>, want: set<bytes>, k: nat)
    requires k <= |items| && Select(items[..k], want).Err?
    ensures Select(items, want) == Select(items[..k], want)
  {
    if k == |items| {
      assert items[..k] == items;
    } else {
      hide SelectStep;
      var front := items[..|items| - 1];
      assert front[..k] == items[..k];
      SelectFails(front, want, k);
    }
  }

  lemma SelectDone(ns: NameSpaceItems, disclose: Request, out: NameSpaceItems)
    requires out.Keys == disclose.Keys
    requires forall n | n in out :: SelectNameSpace(ns, n, disclose[n]) == Ok(out[n])
    ensures SelectDisclosed(ns, disclose) == Some(out)
  {
    hide SelectNameSpace;
    AllInIs(SelectEach(ns, disclose), out);
  }

  lemma SelectNone(ns: NameSpaceItems, disclose: Request, n: bytes)
    requires n in disclose && SelectNameSpace(ns, n, disclose[n]).Err?
    ensures SelectDisclosed(ns, disclose) == None
  {
    hide SelectNameSpace;
    assert SelectEach(ns, disclose)[n] == None;
  }

  method SelectOneNameSpace(ns: NameSpaceItems, n: bytes, ids: seq<bytes>) returns (r: Result<seq<bytes>>)
    ensures r == SelectNameSpace(ns, n, ids)
  {
    hide Select;
    if n !in ns {
      return Err(ErrUnsupported);
    }
    var s :- SelectItems(ns[n], ids);
    if s.want != {} {
      return Err(ErrUnsupported);
    }
    return Ok(s.kept);
  }

  /** Requested namespaces are visited in an arbitrary order. */
  method SelectForDisclosure(ns: NameSpaceItems, disclose: Request) returns (r: Result<NameSpaceItems>)
    ensures r.ToOption() == SelectDisclosed(ns, disclose)
    ensures r.Err? ==> SelectError(ns, disclose, r.error)
  {
    hide SelectNameSpace, SelectDisclosed;
    var out: NameSpaceItems := map[];
    var todo := disclose.Keys;
    while todo != {}
      invariant todo <= disclose.Keys && out.Keys == disclose.Keys - todo
      invariant forall n | n in out :: SelectNameSpace(ns, n, disclose[n]) == Ok(out[n])
      decreases |todo|
    {
      var n :| n in todo;
      todo := todo - {n};
      var kept := SelectOneNameSpace(ns, n, disclose[n]);
      if kept.Err? {
        SelectNone(ns, disclose, n);
        return Err(kept.error);
      }
      out := out[n := kept.value];
    }
    SelectDone(ns, disclose, out);
    return Ok(out);
  }

  // ----- exactness -----

  function IdAt(raw: bytes): Option<bytes> {
    match DecodeIssuerSignedItem(raw)
    case Err(_) => None
    case Ok(isi) => Some(isi.elementIdentifier)
  }

  predicate Parses(items: seq<bytes>) {
    forall i | 0 <= i < |items| :: IdAt(items[i]).Some?
  }

  /** Item `i` is the first to carry its identifier. */
  predicate FirstAt(items: seq<bytes>, i: nat) {
    i < |items| && forall j | 0 <= j < i :: IdAt(items[j]) != IdAt(items[i])
  }

  /** `kept` consists, in order, of the items at the positions `at`: those that are the first
      of their identifier and whose identifier was asked for. */
  ghost predicate FirstOccurrences(items: seq<bytes>, want: set<bytes>, kept: seq<bytes>, at: seq<nat>) {
    |at| == |kept| &&
    (forall k | 0 <= k < |at| :: at[k] < |items| && kept[k] == items[at[k]]) &&
    (forall k, l | 0 <= k < l < |at| :: at[k] < at[l]) &&
    (forall i: nat | i < |items| :: i in at <==>
        FirstAt(items, i) && IdAt(items[i]).Some? && IdAt(items[i]).value in want)
  }

  /** The identifiers asked for that no item carries. */
  predicate Missing(items: seq<bytes>, want: set<bytes>, missing: set<bytes>) {
    missing <= want && forall id | id in want :: id in missing <==>
      forall i | 0 <= i < |items| :: IdAt(items[i]) != Some(id)
  }

  lemma SelectStepExact(s: Selection, raw: bytes)
    ensures SelectStep(s, raw).Ok? <==> IdAt(raw).Some?
    ensures IdAt(raw).Some? ==>
              SelectStep(s, raw).value ==
              if IdAt(raw).value in s.want then Selection(s.kept + [raw], s.want - {IdAt(raw).value}) else s
  {
    hide DecodeIssuerSignedItem;
  }

  lemma FirstAtExtends(front: seq<bytes>, last: bytes, i: nat)
    requires i < |front|
    ensures FirstAt(front + [last], i) <==> FirstAt(front, i)
  {
    hide IdAt;
    assert forall j | 0 <= j < |front| :: (front + [last])[j] == front[j];
  }

  /** The last item is kept exactly when its identifier is still missing. */
  lemma LastIsFirst(front: seq<bytes>, last: bytes, want: set<bytes>, missing: set<bytes>)
    requires Missing(front, want, missing) && IdAt(last).Some?
    ensures IdAt(last).value in missing <==> FirstAt(front + [last], |front|) && IdAt(last).value in want
  {
    hide IdAt;
    assert forall j | 0 <= j < |front| :: (front + [last])[j] == front[j];
    assert (front + [last])[|front|] == last;
  }

  lemma MissingStep(front: seq<bytes>, last: bytes, want: set<bytes>, missing: set<bytes>)
    requires Missing(front, want, missing) && IdAt(last).Some?
    ensures Missing(front + [last], want, missing - {IdAt(last).value})
  {
    hide IdAt;
    var items := front + [last];
    assert forall j | 0 <= j < |front| :: items[j] == front[j];
    assert items[|front|] == last;
    forall id | id in want
      ensures id in missing - {IdAt(last).value} <==> forall i | 0 <= i < |items| :: IdAt(items[i]) != Some(id)
    {
      if forall i | 0 <= i < |front| :: IdAt(front[i]) != Some(id) {
        if id != IdAt(last).value {
          assert forall i | 0 <= i < |items| :: IdAt(items[i]) != Some(id);
        }
      } else {
        var i :| 0 <= i < |front| && IdAt(front[i]) == Some(id);
        assert IdAt(items[i]) == Some(id);
      }
    }
  }

  lemma OccurrencesSkip(front: seq<bytes>, last: bytes, want: set<bytes>, kept: seq<bytes>, at: seq<nat>)
    requires FirstOccurrences(front, want, kept, at)
    requires !(FirstAt(front + [last], |front|) && IdAt(last).Some? && IdAt(last).value in want)
    ensures FirstOccurrences(front + [last], want, kept, at)
  {
    hide IdAt, FirstAt;
    var items := front + [last];
    forall i: nat | i < |items|
      ensures i in at <==> FirstAt(items, i) && IdAt(items[i]).Some? && IdAt(items[i]).value in want
    {
      if i < |front| {
        FirstAtExtends(front, last, i);
        assert items[i] == front[i];
      } else {
        assert items[i] == last;
      }
    }
  }

  lemma OccurrencesKeep(front: seq<bytes>, last: bytes, want: set<bytes>, kept: seq<bytes>, at: seq<nat>)
    requires FirstOccurrences(front, want, kept, at)
    requires FirstAt(front + [last], |front|) && IdAt(last).Some? && IdAt(last).value in want
    ensures FirstOccurrences(front + [last], want, kept + [last], at + [|front|])
  {
    hide IdAt, FirstAt;
    var items := front + [last];
    var next := at + [|front|];
    assert next[|at|] == |front|;
    forall i: nat | i < |items|
      ensures i in next <==> FirstAt(items, i) && IdAt(items[i]).Some? && IdAt(items[i]).value in want
    {
      if i < |front| {
        FirstAtExtends(front, last, i);
        assert items[i] == front[i];
      } else {
        assert items[i] == last;
      }
    }
  }

  lemma SelectEmpty(want: set<bytes>)
    ensures Select([], want) == Ok(Selection([], want)) && Parses([])
    ensures FirstOccurrences([], want, [], []) && Missing([], want, want)
  {
  }

  lemma SelectUnfolds(front: seq<bytes>, last: bytes, want: set<bytes>)
    ensures Select(front + [last], want) ==
            match Select(front, want) case Err(e) => Err(e) case Ok(s) => SelectStep(s, last)
  {
    hide SelectStep;
    assert (front + [last])[..|front|] == front;
  }

  /** Selecting keeps an order-preserving sub-list: the first occurrence of each identifier
      asked for, once each, whatever duplicates the request or the credential contains. */
  lemma {:induction false} SelectExact(items: seq<bytes>, want: set<bytes>) returns (at: seq<nat>)
    ensures Select(items, want).Ok? <==> Parses(items)
    ensures Parses(items) ==>
              FirstOccurrences(items, want, Select(items, want).value.kept, at) &&
              Missing(items, want, Select(items, want).value.want)
  {
    hide IdAt, FirstAt, Missing, FirstOccurrences, SelectStep, Parses, Select;
    if items == [] {
      at := [];
      SelectEmpty(want);
    } else {
      var front, last := items[..|items| - 1], items[|items| - 1];
      assert items == front + [last];
      at := SelectExact(front, want);
      SelectUnfolds(front, last, want);
      ParsesStep(front, last);
      if Parses(front) {
        var s := Select(front, want).value;
        SelectStepExact(s, last);
        if IdAt(last).Some? {
          LastIsFirst(front, last, want, s.want);
          MissingStep(front, last, want, s.want);
          if IdAt(last).value in s.want {
            OccurrencesKeep(front, last, want, s.kept, at);
            at := at + [|front|];
          } else {
            OccurrencesSkip(front, last, want, s.kept, at);
            assert s.want - {IdAt(last).value} == s.want;
          }
        }
      }
    }
  }

  lemma ParsesStep(front: seq<bytes>, last: bytes)
    ensures Parses(front + [last]) <==> Parses(front) && IdAt(last).Some?
  {
    hide IdAt;
    var items := front + [last];
    assert items[|front|] == last && forall j | 0 <= j < |front| :: items[j] == front[j];
    if Parses(items) {
      forall j | 0 <= j < |front| ensures IdAt(front[j]).Some? { assert IdAt(items[j]).Some?; }
    }
  }

  /** Some item carries the identifier. */
  predicate Carries(items: seq<bytes>, id: bytes) {
    exists i :: 0 <= i < |items| && IdAt(items[i]) == Some(id)
  }

  /** When every examined item parses, a namespace can be selected exactly when the credential
      has it and carries every identifier asked for. */
  lemma SelectNameSpaceExact(ns: NameSpaceItems, n: bytes, ids: seq<bytes>)
    requires n in ns ==> Parses(ns[n])
    ensures SelectNameSpace(ns, n, ids).Ok? <==> n in ns && forall id | id in ids :: Carries(ns[n], id)
  {
    hide IdAt;
    if n in ns {
      var at := SelectExact(ns[n], IdsOf(ids));
      var missing := Select(ns[n], IdsOf(ids)).value.want;
      hide Select, FirstOccurrences, Parses;
      if missing == {} {
        forall id | id in ids ensures Carries(ns[n], id) {
          assert id in IdsOf(ids) && id !in missing;
          var i :| 0 <= i < |ns[n]| && IdAt(ns[n][i]) == Some(id);
        }
      } else {
        var id :| id in missing;
        assert id in ids && !Carries(ns[n], id);
      }
    }
  }

  /** A disclosure succeeds exactly when everything requested is there. */
  lemma SelectDisclosedExact(ns: NameSpaceItems, disclose: Request)
    requires forall n | n in disclose && n in ns :: Parses(ns[n])
    ensures SelectDisclosed(ns, disclose).Some? <==>
            forall n | n in disclose :: n in ns && forall id | id in disclose[n] :: Carries(ns[n], id)
    ensures SelectDisclosed(ns, disclose).Some? ==>
            SelectDisclosed(ns, disclose).value.Keys == disclose.Keys &&
            forall n | n in disclose :: SelectNameSpace(ns, n, disclose[n]) ==
              Ok(SelectDisclosed(ns, disclose).value[n])
  {
    hide SelectNameSpace, Carries, Parses;
    forall n | n in disclose
      ensures SelectNameSpace(ns, n, disclose[n]).Ok? <==> n in ns && forall id | id in disclose[n] ::
              Carries(ns[n], id)
    {
      SelectNameSpaceExact(ns, n, disclose[n]);
    }
    assert forall n | n in disclose :: SelectEach(ns, disclose)[n].Some? <==> SelectNameSpace(ns, n, disclose[n]).Ok?;
  }

  // ----- selective disclosure is restriction -----

  /** No identifier occurs twice. */
  predicate UniqueIds(items: seq<bytes>) {
    forall i, j | 0 <= i < j < |items| :: IdAt(items[i]) != IdAt(items[j])
  }

  lemma ReadItemId(env: Env, raw: bytes)
    requires ReadItem(env, raw).Some?
    ensures IdAt(raw) == Some(ReadItem(env, raw).value.id)
  {
    hide DecodeIssuerSignedItem, DecodeElementValue;
  }

  function RestrictTo(full: map<bytes, GoVal>, ids: set<bytes>): map<bytes, GoVal> {
    map id | id in ids && id in full :: full[id]
  }

  lemma UniqueValue(env: Env, items: seq<bytes>, full: map<bytes, GoVal>, i: nat, id: bytes)
    requires UniqueIds(items) && LastOccurrences(env, items, full)
    requires i < |items| && IdAt(items[i]) == Some(id)
    ensures id in full && ReadItem(env, items[i]) == Some(Checked(id, full[id]))
  {
    hide IdAt, ReadItem;
    ReadItemId(env, items[i]);
    var j: nat :| LastAt(env, items, j, Checked(id, full[id]));
    ReadItemId(env, items[j]);
    assert i == j;
  }

  lemma FirstOfItsId(items: seq<bytes>, i: nat)
    requires UniqueIds(items) && i < |items|
    ensures FirstAt(items, i)
  {
    hide IdAt;
  }

  /** In a namespace without repeated identifiers, an identifier that is not missing was kept,
      with the value the full namespace gives it. */
  lemma KeptItem(env: Env, items: seq<bytes>, want: set<bytes>, s: Selection, at: seq<nat>, full: map<bytes, GoVal>,
      id: bytes) returns (k: nat)
    requires UniqueIds(items) && LastOccurrences(env, items, full)
    requires FirstOccurrences(items, want, s.kept, at) && Missing(items, want, s.want) && s.want == {}
    requires id in want
    ensures id in full && LastAt(env, s.kept, k, Checked(id, full[id]))
  {
    hide IdAt, ReadItem, FirstAt, LastOccurrences;
    var i: nat :| i < |items| && IdAt(items[i]) == Some(id);
    FirstOfItsId(items, i);
    UniqueValue(env, items, full, i, id);
    assert i in at;
    k :| 0 <= k < |at| && at[k] == i;
    assert s.kept[k] == items[i];
    forall l | k < l < |s.kept| ensures !HasId(env, s.kept[l], id) {
      assert at[k] < at[l] && IdAt(items[at[l]]) != IdAt(items[i]);
      if ReadItem(env, s.kept[l]).Some? {
        ReadItemId(env, s.kept[l]);
      }
    }
  }

  lemma KeptOccurrences(env: Env, items: seq<bytes>, want: set<bytes>, s: Selection, at: seq<nat>, full: map<bytes,
      GoVal>)
    requires UniqueIds(items) && LastOccurrences(env, items, full)
    requires FirstOccurrences(items, want, s.kept, at) && Missing(items, want, s.want) && s.want == {}
    ensures LastOccurrences(env, s.kept, RestrictTo(full, want))
  {
    var out := RestrictTo(full, want);
    forall k | 0 <= k < |s.kept|
      ensures ReadItem(env, s.kept[k]).Some? && ReadItem(env, s.kept[k]).value.id in out
    {
      hide IdAt, ReadItem, FirstAt;
      var i := at[k];
      assert i in at && s.kept[k] == items[i];
      assert ReadItem(env, items[i]).Some?;
      ReadItemId(env, items[i]);
    }
    hide IdAt, ReadItem, FirstAt, UniqueIds, LastOccurrences, FirstOccurrences, Missing, LastAt;
    forall id | id in out
      ensures exists k :: LastAt(env, s.kept, k, Checked(id, out[id]))
    {
      var k := KeptItem(env, items, want, s, at, full, id);
    }
    LastOccurrencesIntro(env, s.kept, out);
  }

  lemma LastOccurrencesIntro(env: Env, items: seq<bytes>, out: map<bytes, GoVal>)
    requires forall i | 0 <= i < |items| :: ReadItem(env, items[i]).Some? && ReadItem(env, items[i]).value.id in out
    requires forall id | id in out :: exists i :: LastAt(env, items, i, Checked(id, out[id]))
    ensures LastOccurrences(env, items, out)
  {
    hide ReadItem, LastAt;
  }

  lemma MatchingItemsParse(env: Env, alg: bytes, digestIDs: DigestIDs, items: seq<bytes>)
    requires CheckItems(env, alg, digestIDs, items).Ok?
    ensures Parses(items)
  {
    CheckItemsExact(env, alg, digestIDs, items);
    forall i | 0 <= i < |items| ensures IdAt(items[i]).Some? {
      assert Matches(env, alg, digestIDs, items[i]);
      hide DecodeIssuerSignedItem, CheckItems;
      ReadItemId(env, items[i]);
    }
  }

  lemma KeptMatch(env: Env, alg: bytes, digestIDs: DigestIDs, items: seq<bytes>, want: set<bytes>, kept: seq<bytes>,
      at: seq<nat>)
    requires CheckItems(env, alg, digestIDs, items).Ok? && FirstOccurrences(items, want, kept, at)
    ensures CheckItems(env, alg, digestIDs, kept).Ok? && LastOccurrences(env, kept,
            CheckItems(env, alg, digestIDs, kept).value)
  {
    hide CheckItems, Matches, IdAt, FirstAt, LastOccurrences;
    CheckItemsExact(env, alg, digestIDs, items);
    CheckItemsExact(env, alg, digestIDs, kept);
  }

  /** Whatever a namespace verifies to, a selection from it verifies to the requested part. */
  lemma SelectionVerifies(env: Env, alg: bytes, digestIDs: DigestIDs, items: seq<bytes>, want: set<bytes>)
    requires CheckItems(env, alg, digestIDs, items).Ok? && UniqueIds(items)
    requires Select(items, want).Ok? && Select(items, want).value.want == {}
    ensures CheckItems(env, alg, digestIDs, Select(items, want).value.kept) ==
            Ok(RestrictTo(CheckItems(env, alg, digestIDs, items).value, want))
  {
    hide CheckItems, Select, Matches, IdAt, UniqueIds, FirstOccurrences, LastOccurrences, Missing,
         RestrictTo, Parses;
    var full := CheckItems(env, alg, digestIDs, items).value;
    MatchingItemsParse(env, alg, digestIDs, items);
    CheckItemsExact(env, alg, digestIDs, items);
    var at := SelectExact(items, want);
    var s := Select(items, want).value;
    KeptMatch(env, alg, digestIDs, items, want, s.kept, at);
    KeptOccurrences(env, items, want, s, at, full);
    LastOccurrencesUnique(env, s.kept, CheckItems(env, alg, digestIDs, s.kept).value, RestrictTo(full, want));
  }

  /** The disclosed part of a full result. */
  function RestrictDisclosed(full: Disclosed, disclose: Request): Disclosed {
    map n | n in disclose && n in full :: RestrictTo(full[n], IdsOf(disclose[n]))
  }

  lemma SelectedNameSpaceVerifies(env: Env, mso: MobileSecurityObject, ns: NameSpaceItems, n: bytes, ids: seq<bytes>)
    requires n in ns && CheckNameSpace(env, mso, n, ns[n]).Ok? && UniqueIds(ns[n])
    requires SelectNameSpace(ns, n, ids).Ok?
    ensures CheckNameSpace(env, mso, n, SelectNameSpace(ns, n, ids).value) ==
            Ok(RestrictTo(CheckNameSpace(env, mso, n, ns[n]).value, IdsOf(ids)))
  {
    hide CheckItems, Select, UniqueIds, RestrictTo;
    SelectionVerifies(env, mso.digestAlgorithm, mso.valueDigests[n], ns[n], IdsOf(ids));
  }

  lemma IntegrityAt(env: Env, mso: MobileSecurityObject, ns: NameSpaceItems)
    requires Integrity(env, mso, ns).Some?
    ensures AllowedDigestAlg(mso.digestAlgorithm) && Integrity(env, mso, ns).value.Keys == ns.Keys
    ensures forall n | n in ns :: CheckNameSpace(env, mso, n, ns[n]) == Ok(Integrity(env, mso, ns).value[n])
  {
    hide CheckNameSpace, AllowedDigestAlg;
    assert forall n | n in ns :: CheckEach(env, mso, ns)[n] == CheckNameSpace(env, mso, n, ns[n]).ToOption();
  }

  lemma SelectedAt(ns: NameSpaceItems, disclose: Request)
    requires SelectDisclosed(ns, disclose).Some?
    ensures SelectDisclosed(ns, disclose).value.Keys == disclose.Keys
    ensures forall n | n in disclose ::
              n in ns && SelectNameSpace(ns, n, disclose[n]) == Ok(SelectDisclosed(ns, disclose).value[n])
  {
    hide Select;
    assert forall n | n in disclose :: SelectEach(ns, disclose)[n] == SelectNameSpace(ns, n, disclose[n]).ToOption();
  }

  /** Selective disclosure is restriction: any selection from a credential that passes the
      integrity check passes it too, and yields exactly the requested part of the full result. */
  lemma SelectionIsRestriction(env: Env, mso: MobileSecurityObject, ns: NameSpaceItems, disclose: Request)
    requires Integrity(env, mso, ns).Some? && SelectDisclosed(ns, disclose).Some?
    requires forall n | n in disclose && n in ns :: UniqueIds(ns[n])
    ensures Integrity(env, mso, SelectDisclosed(ns, disclose).value) ==
            Some(RestrictDisclosed(Integrity(env, mso, ns).value, disclose))
  {
    hide Integrity, SelectDisclosed, SelectNameSpace, CheckNameSpace, UniqueIds, AllowedDigestAlg, RestrictTo;
    IntegrityAt(env, mso, ns);
    SelectedAt(ns, disclose);
    var full := Integrity(env, mso, ns).value;
    var sub := SelectDisclosed(ns, disclose).value;
    var out := RestrictDisclosed(full, disclose);
    assert out.Keys == sub.Keys;
    forall n | n in out ensures CheckNameSpace(env, mso, n, sub[n]) == Ok(out[n]) {
      SelectedNameSpaceVerifies(env, mso, ns, n, disclose[n]);
    }
    IntegrityDone(env, mso, sub, out);
  }
}
