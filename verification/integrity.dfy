/** Issuer-data integrity: every presented item against the digest table of its own namespace. */
module IssuerIntegrity {
  import opened Basics
  import opened CborSyntax
  import opened Codec
  import opened Primitives
  import opened GoValues
  import opened Wire

  type Disclosed = map<bytes, map<bytes, GoVal>>

  datatype Checked = Checked(id: bytes, value: GoVal)

  function DecodeElementValue(env: Env, raw: bytes): Result<GoVal> {
    var x :- Decode(raw);
    OrMalformed(ReadValue(env, x))
  }

  /** One item, digested over its exact wire bytes. */
  function CheckItem(env: Env, alg: bytes, digestIDs: DigestIDs, raw: bytes): Result<Checked> {
    var isi :- DecodeIssuerSignedItem(raw);
    if isi.digestID !in digestIDs then Err(ErrIntegrity)
    else if env.hash(alg, raw) != digestIDs[isi.digestID] then Err(ErrIntegrity)
    else
      var value :- DecodeElementValue(env, isi.elementValue);
      Ok(Checked(isi.elementIdentifier, value))
  }

  /** The items in wire order; a repeated identifier overwrites. */
  function CheckItems(env: Env, alg: bytes, digestIDs: DigestIDs, items: seq<bytes>): Result<map<bytes, GoVal>> {
    if items == [] then Ok(map[])
    else
      var out :- CheckItems(env, alg, digestIDs, items[..|items| - 1]);
      var c :- CheckItem(env, alg, digestIDs, items[|items| - 1]);
      Ok(out[c.id := c.value])
  }

  function CheckNameSpace(env: Env, mso: MobileSecurityObject, n: bytes, items: seq<bytes>): Result<map<bytes, GoVal>> {
    if n !in mso.valueDigests then Err(ErrIntegrity)
    else CheckItems(env, mso.digestAlgorithm, mso.valueDigests[n], items)
  }

  function CheckEach(env: Env, mso: MobileSecurityObject, ns: NameSpaceItems): map<bytes, Option<map<bytes, GoVal>>> {
    map n | n in ns :: CheckNameSpace(env, mso, n, ns[n]).ToOption()
  }

  /** What the check returns when it succeeds: no order of the namespaces is involved. */
  function Integrity(env: Env, mso: MobileSecurityObject, ns: NameSpaceItems): Option<Disclosed> {
    if !AllowedDigestAlg(mso.digestAlgorithm) then None else AllIn(CheckEach(env, mso, ns))
  }

  /** The error comes from the algorithm, or from some namespace that fails. */
  ghost predicate IntegrityError(env: Env, mso: MobileSecurityObject, ns: NameSpaceItems, e: Error) {
    if !AllowedDigestAlg(mso.digestAlgorithm) then e == ErrDigestAlg
    else exists n :: n in ns && CheckNameSpace(env, mso, n, ns[n]) == Err(e)
  }

  // ----- the loops -----

  method CheckItemsInOrder(env: Env, alg: bytes, digestIDs: DigestIDs, items: seq<bytes>)
      returns (r: Result<map<bytes, GoVal>>)
    ensures r == CheckItems(env, alg, digestIDs, items)
  {
    hide CheckItem;
    var nsOut: map<bytes, GoVal> := map[];
    for i := 0 to |items|
      invariant CheckItems(env, alg, digestIDs, items[..i]) == Ok(nsOut)
    {
      var c := CheckItem(env, alg, digestIDs, items[i]);
      assert items[..i + 1][..i] == items[..i];
      if c.Err? {
        FailurePropagates(env, alg, digestIDs, items, i + 1);
        return Err(c.error);
      }
      nsOut := nsOut[c.value.id := c.value.value];
    }
    assert items[..|items|] == items;
    return Ok(nsOut);
  }

  lemma {:induction false} FailurePropagates(env: Env, alg: bytes, digestIDs: DigestIDs, items: seq<bytes>, k: nat)
    requires k <= |items| && CheckItems(env, alg, digestIDs, items[..k]).Err?
    ensures CheckItems(env, alg, digestIDs, items) == CheckItems(env, alg, digestIDs, items[..k])
  {
    if k == |items| {
      assert items[..k] == items;
    } else {
      hide CheckItem;
      var front := items[..|items| - 1];
      assert front[..k] == items[..k];
      FailurePropagates(env, alg, digestIDs, front, k);
    }
  }

  lemma IntegrityDone(env: Env, mso: MobileSecurityObject, ns: NameSpaceItems, out: Disclosed)
    requires AllowedDigestAlg(mso.digestAlgorithm) && out.Keys == ns.Keys
    requires forall n | n in out :: CheckNameSpace(env, mso, n, ns[n]) == Ok(out[n])
    ensures Integrity(env, mso, ns) == Some(out)
  {
    hide CheckNameSpace, AllowedDigestAlg;
    AllInIs(CheckEach(env, mso, ns), out);
  }

  lemma IntegrityFails(env: Env, mso: MobileSecurityObject, ns: NameSpaceItems, n: bytes)
    requires AllowedDigestAlg(mso.digestAlgorithm) && n in ns && CheckNameSpace(env, mso, n, ns[n]).Err?
    ensures Integrity(env, mso, ns) == None
    ensures IntegrityError(env, mso, ns, CheckNameSpace(env, mso, n, ns[n]).error)
  {
    hide CheckNameSpace, AllowedDigestAlg;
    assert CheckEach(env, mso, ns)[n] == None;
  }

  lemma AlgorithmRefused(env: Env, mso: MobileSecurityObject, ns: NameSpaceItems)
    requires !AllowedDigestAlg(mso.digestAlgorithm)
    ensures Integrity(env, mso, ns) == None && IntegrityError(env, mso, ns, ErrDigestAlg)
  {
    hide AllowedDigestAlg;
  }

  /** One pass of the outer loop's body. */
  method CheckOneNameSpace(env: Env, mso: MobileSecurityObject, n: bytes, items: seq<bytes>)
      returns (r: Result<map<bytes, GoVal>>)
    ensures r == CheckNameSpace(env, mso, n, items)
  {
    hide CheckItems;
    if n !in mso.valueDigests {
      return Err(ErrIntegrity);
    }
    r := CheckItemsInOrder(env, mso.digestAlgorithm, mso.valueDigests[n], items);
  }

  /** Namespaces are visited in an arbitrary order; the outcome does not depend on it. */
  method VerifyIssuerIntegrity(env: Env, mso: MobileSecurityObject, ns: NameSpaceItems) returns (r: Result<Disclosed>)
    ensures r.ToOption() == Integrity(env, mso, ns)
    ensures r.Err? ==> IntegrityError(env, mso, ns, r.error)
  {
    hide *;
    if !AllowedDigestAlg(mso.digestAlgorithm) {
      AlgorithmRefused(env, mso, ns);
      r := Err(ErrDigestAlg);
      OptionOf(r);
      return;
    }
    var out: Disclosed := map[];
    var todo := ns.Keys;
    while todo != {}
      invariant todo <= ns.Keys && out.Keys == ns.Keys - todo
      invariant forall n | n in out :: CheckNameSpace(env, mso, n, ns[n]) == Ok(out[n])
      decreases |todo|
    {
      var n :| n in todo;
      todo := todo - {n};
      var nsOut := CheckOneNameSpace(env, mso, n, ns[n]);
      if nsOut.Err? {
        IntegrityFails(env, mso, ns, n);
        r := Err(nsOut.error);
        OptionOf(r);
        return;
      }
      out := out[n := nsOut.value];
    }
    IntegrityDone(env, mso, ns, out);
    r := Ok(out);
    OptionOf(r);
  }

  // ----- when the check succeeds, and with what -----

  /** The identifier and decoded value an item carries. */
  function ReadItem(env: Env, raw: bytes): Option<Checked> {
    match DecodeIssuerSignedItem(raw)
    case Err(_) => None
    case Ok(isi) =>
      match DecodeElementValue(env, isi.elementValue)
      case Err(_) => None
      case Ok(v) => Some(Checked(isi.elementIdentifier, v))
  }

  /** The digest listed for the item's own ID is the digest of its exact bytes. */
  predicate Listed(env: Env, alg: bytes, digestIDs: DigestIDs, raw: bytes) {
    match DecodeIssuerSignedItem(raw)
    case Err(_) => false
    case Ok(isi) => isi.digestID in digestIDs && digestIDs[isi.digestID] == env.hash(alg, raw)
  }

  /** The item parses, its digest is listed, its value decodes. */
  predicate Matches(env: Env, alg: bytes, digestIDs: DigestIDs, raw: bytes) {
    ReadItem(env, raw).Some? && Listed(env, alg, digestIDs, raw)
  }

  lemma CheckItemExact(env: Env, alg: bytes, digestIDs: DigestIDs, raw: bytes)
    ensures CheckItem(env, alg, digestIDs, raw).ToOption() ==
            if Matches(env, alg, digestIDs, raw) then ReadItem(env, raw) else None
  {
    hide DecodeIssuerSignedItem, DecodeElementValue;
  }

  predicate HasId(env: Env, raw: bytes, id: bytes) {
    ReadItem(env, raw).Some? && ReadItem(env, raw).value.id == id
  }

  /** Item `i` carries `c`, and no later item carries the same identifier. */
  predicate LastAt(env: Env, items: seq<bytes>, i: nat, c: Checked) {
    i < |items| && ReadItem(env, items[i]) == Some(c) && forall j | i < j < |items| :: !HasId(env, items[j], c.id)
  }

  /** `out` maps each identifier that occurs to the value of its last occurrence, and nothing else. */
  ghost predicate LastOccurrences(env: Env, items: seq<bytes>, out: map<bytes, GoVal>) {
    (forall i | 0 <= i < |items| :: ReadItem(env, items[i]).Some? && ReadItem(env, items[i]).value.id in out) &&
    (forall id | id in out :: exists i :: LastAt(env, items, i, Checked(id, out[id])))
  }

  lemma LastIsUnique(env: Env, items: seq<bytes>, i: nat, j: nat, c: Checked, d: Checked)
    requires LastAt(env, items, i, c) && LastAt(env, items, j, d) && c.id == d.id
    ensures i == j && c == d
  {
    hide ReadItem;
    assert HasId(env, items[i], c.id) && HasId(env, items[j], c.id);
  }

  /** The items determine the map: two maps of last occurrences are the same map. */
  lemma LastOccurrencesUnique(env: Env, items: seq<bytes>, a: map<bytes, GoVal>, b: map<bytes, GoVal>)
    requires LastOccurrences(env, items, a) && LastOccurrences(env, items, b)
    ensures a == b
  {
    hide ReadItem;
    forall id | id in a ensures id in b && b[id] == a[id] {
      var i :| LastAt(env, items, i, Checked(id, a[id]));
      assert id in b;
      var j :| LastAt(env, items, j, Checked(id, b[id]));
      LastIsUnique(env, items, i, j, Checked(id, a[id]), Checked(id, b[id]));
    }
    forall id | id in b ensures id in a {
      var j :| LastAt(env, items, j, Checked(id, b[id]));
    }
  }

  lemma LastOccurrencesStep(env: Env, front: seq<bytes>, last: bytes, before: map<bytes, GoVal>, c: Checked)
    requires LastOccurrences(env, front, before) && ReadItem(env, last) == Some(c)
    ensures LastOccurrences(env, front + [last], before[c.id := c.value])
  {
    hide ReadItem;
    var items := front + [last];
    var out := before[c.id := c.value];
    assert items[|front|] == last;
    assert forall i | 0 <= i < |front| :: items[i] == front[i];
    assert LastAt(env, items, |front|, c);
    forall id | id in out
      ensures exists i :: LastAt(env, items, i, Checked(id, out[id]))
    {
      if id == c.id {
        assert Checked(id, out[id]) == c;
      } else {
        var i :| LastAt(env, front, i, Checked(id, before[id]));
        assert LastAt(env, items, i, Checked(id, before[id]));
      }
    }
  }

  predicate AllMatch(env: Env, alg: bytes, digestIDs: DigestIDs, items: seq<bytes>) {
    forall i | 0 <= i < |items| :: Matches(env, alg, digestIDs, items[i])
  }

  lemma AllMatchStep(env: Env, alg: bytes, digestIDs: DigestIDs, front: seq<bytes>, last: bytes)
    ensures AllMatch(env, alg, digestIDs, front + [last]) <==>
            AllMatch(env, alg, digestIDs, front) && Matches(env, alg, digestIDs, last)
  {
    hide Matches;
    var items := front + [last];
    assert items[|front|] == last && forall i | 0 <= i < |front| :: items[i] == front[i];
    if AllMatch(env, alg, digestIDs, items) {
      forall i | 0 <= i < |front| ensures Matches(env, alg, digestIDs, front[i]) {
        assert Matches(env, alg, digestIDs, items[i]);
      }
    }
  }

  lemma CheckItemsUnfolds(env: Env, alg: bytes, digestIDs: DigestIDs, front: seq<bytes>, last: bytes)
    ensures CheckItems(env, alg, digestIDs, front + [last]) ==
            var out := CheckItems(env, alg, digestIDs, front);
            var c := CheckItem(env, alg, digestIDs, last);
            if out.Err? then out else if c.Err? then Err(c.error) else Ok(out.value[c.value.id := c.value.value])
  {
    hide CheckItem;
    assert (front + [last])[..|front|] == front;
  }

  lemma NothingToCheck(env: Env, alg: bytes, digestIDs: DigestIDs)
    ensures CheckItems(env, alg, digestIDs, []) == Ok(map[]) && LastOccurrences(env, [], map[])
  {
  }

  lemma CheckItemMatches(env: Env, alg: bytes, digestIDs: DigestIDs, raw: bytes)
    ensures CheckItem(env, alg, digestIDs, raw).Ok? <==> Matches(env, alg, digestIDs, raw)
    ensures CheckItem(env, alg, digestIDs, raw).Ok? ==>
              ReadItem(env, raw) == Some(CheckItem(env, alg, digestIDs, raw).value)
  {
    CheckItemExact(env, alg, digestIDs, raw);
    assert Matches(env, alg, digestIDs, raw) ==> ReadItem(env, raw).Some?;
    hide CheckItem, ReadItem, Matches;
  }

  lemma {:induction false} CheckItemsExact(env: Env, alg: bytes, digestIDs: DigestIDs, items: seq<bytes>)
    ensures CheckItems(env, alg, digestIDs, items).Ok? <==> AllMatch(env, alg, digestIDs, items)
    ensures CheckItems(env, alg, digestIDs, items).Ok? ==>
              LastOccurrences(env, items, CheckItems(env, alg, digestIDs, items).value)
  {
    hide CheckItem, CheckItems, ReadItem, Matches, LastOccurrences;
    if items == [] {
      NothingToCheck(env, alg, digestIDs);
    } else {
      var front, last := items[..|items| - 1], items[|items| - 1];
      assert items == front + [last];
      CheckItemsExact(env, alg, digestIDs, front);
      CheckItemsUnfolds(env, alg, digestIDs, front, last);
      CheckItemMatches(env, alg, digestIDs, last);
      AllMatchStep(env, alg, digestIDs, front, last);
      hide AllMatch;
      if CheckItems(env, alg, digestIDs, items).Ok? {
        LastOccurrencesStep(env, front, last, CheckItems(env, alg, digestIDs, front).value,
                            CheckItem(env, alg, digestIDs, last).value);
      }
    }
  }

  /** Every item of the namespace matches the table the object lists for that namespace. */
  predicate NameSpaceMatches(env: Env, mso: MobileSecurityObject, n: bytes, items: seq<bytes>) {
    n in mso.valueDigests && AllMatch(env, mso.digestAlgorithm, mso.valueDigests[n], items)
  }

  lemma CheckNameSpaceExact(env: Env, mso: MobileSecurityObject, n: bytes, items: seq<bytes>)
    ensures CheckNameSpace(env, mso, n, items).Ok? <==> NameSpaceMatches(env, mso, n, items)
    ensures CheckNameSpace(env, mso, n, items).Ok? ==> LastOccurrences(env, items,
            CheckNameSpace(env, mso, n, items).value)
  {
    hide CheckItems, Matches, LastOccurrences;
    if n in mso.valueDigests {
      CheckItemsExact(env, mso.digestAlgorithm, mso.valueDigests[n], items);
    }
  }

  /** Success is exactly: allowed algorithm, listed namespaces, matching items. The result
      holds, per namespace, the last value of each identifier and nothing else. */
  lemma IntegrityExact(env: Env, mso: MobileSecurityObject, ns: NameSpaceItems)
    ensures Integrity(env, mso, ns).Some? <==>
            AllowedDigestAlg(mso.digestAlgorithm) && forall n | n in ns :: NameSpaceMatches(env, mso, n, ns[n])
    ensures Integrity(env, mso, ns).Some? ==>
            Integrity(env, mso, ns).value.Keys == ns.Keys &&
            forall n | n in ns :: LastOccurrences(env, ns[n], Integrity(env, mso, ns).value[n])
  {
    hide CheckNameSpace, NameSpaceMatches, LastOccurrences, AllowedDigestAlg;
    forall n | n in ns
      ensures CheckEach(env, mso, ns)[n].Some? <==> NameSpaceMatches(env, mso, n, ns[n])
      ensures CheckEach(env, mso, ns)[n].Some? ==> LastOccurrences(env, ns[n], CheckEach(env, mso, ns)[n].value)
    {
      CheckNameSpaceExact(env, mso, n, ns[n]);
    }
    hide CheckEach;
    assert CheckEach(env, mso, ns).Keys == ns.Keys by { CheckEachKeys(env, mso, ns); }
  }

  lemma CheckEachKeys(env: Env, mso: MobileSecurityObject, ns: NameSpaceItems)
    ensures CheckEach(env, mso, ns).Keys == ns.Keys
  {
  }
}
