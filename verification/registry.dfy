/** The descriptive report over a verified document: identifiers and flags, never a value. */
module Registry {
  import opened Basics
  import opened GoValues
  import opened IssuerIntegrity
  import opened Verification

  // ----- type hooks -----

  /** The dynamic type of an element value. */
  datatype Kind =
    | KindNil | KindBool | KindInt | KindBig | KindString | KindBytes | KindTime
    | KindList | KindMap | KindTag | KindPrim

  function KindOf(v: GoVal): Kind {
    match v
    case GNil => KindNil
    case GBool(_) => KindBool
    case GInt(_) => KindInt
    case GBig(_) => KindBig
    case GStr(_) => KindString
    case GBytes(_) => KindBytes
    case GTime(_) => KindTime
    case GList(_) => KindList
    case GMap(_) => KindMap
    case GTag(_, _) => KindTag
    case GPrim(_, _) => KindPrim
  }

  /** No hook accepts any value. */
  datatype Hook = NoHook | IsBool | IsBytes | IsString

  predicate Validates(h: Hook, v: GoVal) {
    match h
    case NoHook => true
    case IsBool => v.GBool?
    case IsBytes => v.GBytes?
    case IsString => v.GStr?
  }

  // ----- specifications -----

  datatype ElementSpec = ElementSpec(pii: bool, validate: Hook)
  datatype PatternSpec = PatternSpec(matches: bytes -> bool, pii: bool, validate: Hook)
  datatype NamespaceSpec = NamespaceSpec(elements: map<bytes, ElementSpec>, patterns: seq<PatternSpec>)
  type DocTypes = map<bytes, map<bytes, NamespaceSpec>>

  /** An element's flags, and whether it is registered at all. */
  datatype Resolved = Resolved(pii: bool, validate: Hook, known: bool)

  const UNKNOWN: Resolved := Resolved(false, NoHook, false)

  predicate IsDigit(b: Byte) { '0' as int <= b <= '9' as int }

  /** age_over_ followed by one digit or more. */
  predicate AgeOver(id: bytes) {
    var p := Ascii("age_over_");
    |id| > |p| && id[..|p|] == p && forall i | |p| <= i < |id| :: IsDigit(id[i])
  }

  method AgeOverPattern(id: bytes) returns (r: bool)
    ensures r <==> AgeOver(id)
  {
    hide Ascii;
    var p := Ascii("age_over_");
    if |id| < |p| || id[..|p|] != p || |id| == |p| {
      return false;
    }
    for i := |p| to |id|
      invariant forall j | |p| <= j < i :: IsDigit(id[j])
    {
      if !IsDigit(id[i]) {
        return false;
      }
    }
    return true;
  }

  /** Pattern `i` is the first that matches. */
  ghost predicate FirstMatch(patterns: seq<PatternSpec>, id: bytes, i: nat) {
    i < |patterns| && patterns[i].matches(id) && forall j | 0 <= j < i :: !patterns[j].matches(id)
  }

  /** An exact name wins over every pattern, an earlier pattern over a later one. */
  ghost predicate Resolves(spec: Option<NamespaceSpec>, id: bytes, r: Resolved) {
    match spec
    case None => r == UNKNOWN
    case Some(s) =>
      if id in s.elements then r == Resolved(s.elements[id].pii, s.elements[id].validate, true)
      else
        (exists i: nat :: FirstMatch(s.patterns, id, i) && r ==
          Resolved(s.patterns[i].pii, s.patterns[i].validate, true)) ||
        (r == UNKNOWN && forall i | 0 <= i < |s.patterns| :: !s.patterns[i].matches(id))
  }

  lemma ResolvesUniquely(spec: Option<NamespaceSpec>, id: bytes, a: Resolved, b: Resolved)
    requires Resolves(spec, id, a) && Resolves(spec, id, b)
    ensures a == b
  {
    if spec.Some? && id !in spec.value.elements && a != UNKNOWN && b != UNKNOWN {
      var i: nat :| FirstMatch(spec.value.patterns, id, i) &&
        a == Resolved(spec.value.patterns[i].pii, spec.value.patterns[i].validate, true);
      var j: nat :| FirstMatch(spec.value.patterns, id, j) &&
        b == Resolved(spec.value.patterns[j].pii, spec.value.patterns[j].validate, true);
      assert i == j;
    }
  }

  method ResolveElement(spec: Option<NamespaceSpec>, id: bytes) returns (r: Resolved)
    ensures Resolves(spec, id, r)
  {
    if spec.None? {
      return UNKNOWN;
    }
    var s := spec.value;
    if id in s.elements {
      return Resolved(s.elements[id].pii, s.elements[id].validate, true);
    }
    for i := 0 to |s.patterns|
      invariant forall j | 0 <= j < i :: !s.patterns[j].matches(id)
    {
      if s.patterns[i].matches(id) {
        assert FirstMatch(s.patterns, id, i);
        return Resolved(s.patterns[i].pii, s.patterns[i].validate, true);
      }
    }
    return UNKNOWN;
  }

  // ----- sorted keys -----

  predicate Before(a: bytes, b: bytes) { LexLe(a, b) && a != b }

  lemma BeforeFacts(a: bytes, b: bytes, c: bytes)
    ensures Before(a, b) ==> !Before(b, a)
    ensures Before(a, b) && Before(b, c) ==> Before(a, c)
    ensures a == b || Before(a, b) || Before(b, a)
  {
    LexTotal(a, b);
    if LexLe(a, b) && LexLe(b, a) { LexAntisymmetric(a, b); }
    if LexLe(a, b) && LexLe(b, c) {
      LexTransitive(a, b, c);
      if a == c { LexAntisymmetric(a, b); }
    }
  }

  predicate Increasing(s: seq<bytes>) {
    forall i, j | 0 <= i < j < |s| :: Before(s[i], s[j])
  }

  /** The keys of a map in strictly increasing order. */
  ghost predicate SortedKeys(s: seq<bytes>, keys: set<bytes>) {
    Increasing(s) && forall k :: k in s <==> k in keys
  }

  lemma SameEmptiness<T(!new)>(s: seq<T>, t: seq<T>)
    requires forall e :: e in s <==> e in t
    ensures s == [] <==> t == []
  {
    if s != [] { assert s[0] in t; }
    if t != [] { assert t[0] in s; }
  }

  /** There is only one such order, so the order in which a map yields its keys is forgotten. */
  lemma {:induction false} SortedKeysUnique(s: seq<bytes>, t: seq<bytes>, keys: set<bytes>)
    requires SortedKeys(s, keys) && SortedKeys(t, keys)
    ensures s == t
    decreases |s|
  {
    hide Before;
    SameEmptiness(s, t);
    if s != [] {
      assert s[0] in t && t[0] in s;
      BeforeFacts(s[0], t[0], t[0]);
      assert s[0] == t[0];
      TailKeys(s, keys);
      TailKeys(t, keys);
      SortedKeysUnique(s[1..], t[1..], keys - {s[0]});
      assert s == [s[0]] + s[1..] && t == [t[0]] + t[1..];
    }
  }

  lemma TailKeys(s: seq<bytes>, keys: set<bytes>)
    requires SortedKeys(s, keys) && s != []
    ensures SortedKeys(s[1..], keys - {s[0]})
  {
    hide LexLe;
    forall k ensures k in s[1..] <==> k in keys - {s[0]} {
      if k in s[1..] {
        var i :| 1 <= i < |s| && s[i] == k;
        assert Before(s[0], s[i]);
      } else if k in keys {
        assert k in s;
      }
    }
  }

  /** Puts `x` in front of the first larger key. */
  function Insert(s: seq<bytes>, x: bytes): (r: seq<bytes>)
    ensures |r| == |s| + 1
  {
    if s == [] then [x]
    else if LexLe(x, s[0]) then [x] + s
    else [s[0]] + Insert(s[1..], x)
  }

  lemma {:induction false} InsertSorts(s: seq<bytes>, x: bytes, keys: set<bytes>)
    requires SortedKeys(s, keys) && x !in keys
    ensures SortedKeys(Insert(s, x), keys + {x})
    decreases |s|
  {
    if s != [] {
      hide LexLe;
      assert s[0] in keys;
      BeforeFacts(x, s[0], s[0]);
      var rest := s[1..];
      if LexLe(x, s[0]) {
        forall i | 0 <= i < |s| ensures Before(x, s[i]) { BeforeFacts(x, s[0], s[i]); }
        InFront(x, s);
        assert forall k :: k in [x] + s <==> k in keys + {x};
      } else {
        TailKeys(s, keys);
        InsertSorts(rest, x, keys - {s[0]});
        var r := Insert(rest, x);
        forall i | 0 <= i < |r| ensures Before(s[0], r[i]) {
          assert r[i] in r;
          if r[i] != x {
            assert r[i] in rest;
            var j :| 1 <= j < |s| && s[j] == r[i];
          }
        }
        InFront(s[0], r);
        assert forall k :: k in [s[0]] + r <==> k in keys + {x};
      }
    }
  }

  lemma InFront(x: bytes, s: seq<bytes>)
    requires Increasing(s) && forall i | 0 <= i < |s| :: Before(x, s[i])
    ensures Increasing([x] + s)
  {
    hide Before;
  }

  /** The library sort, on keys that are all distinct. */
  method SortStrings(s: seq<bytes>, ghost keys: set<bytes>) returns (r: seq<bytes>)
    requires (forall i, j | 0 <= i < j < |s| :: s[i] != s[j]) && forall k :: k in s <==> k in keys
    ensures SortedKeys(r, keys)
  {
    hide LexLe;
    r := [];
    ghost var done: set<bytes> := {};
    for i := 0 to |s|
      invariant SortedKeys(r, done) && forall k :: k in done <==> k in s[..i]
    {
      assert s[..i + 1] == s[..i] + [s[i]];
      assert s[i] !in done;
      InsertSorts(r, s[i], done);
      r := Insert(r, s[i]);
      done := done + {s[i]};
    }
    assert s[..|s|] == s;
    assert done == keys;
  }

  lemma Appended(keys: seq<bytes>, k: bytes)
    requires k !in keys && forall i, j | 0 <= i < j < |keys| :: keys[i] != keys[j]
    ensures forall i, j | 0 <= i < j < |keys| + 1 :: (keys + [k])[i] != (keys + [k])[j]
    ensures forall x :: x in keys + [k] <==> x in keys || x == k
  {
    var next := keys + [k];
    forall i, j | 0 <= i < j < |next| ensures next[i] != next[j] {
      assert next[i] == keys[i];
    }
  }

  /** Collects the keys in whatever order the map yields them, then sorts. */
  method KeysInOrder<V>(m: map<bytes, V>) returns (out: seq<bytes>)
    ensures SortedKeys(out, m.Keys)
  {
    var keys: seq<bytes> := [];
    var todo := m.Keys;
    while todo != {}
      invariant todo <= m.Keys
      invariant forall k :: k in keys <==> k in m.Keys - todo
      invariant forall i, j | 0 <= i < j < |keys| :: keys[i] != keys[j]
      decreases |todo|
    {
      var k :| k in todo;
      Appended(keys, k);
      todo := todo - {k};
      keys := keys + [k];
    }
    out := SortStrings(keys, m.Keys);
  }

  // ----- the report -----

  datatype ElementReport = ElementReport(
    namespace: bytes, identifier: bytes, known: bool, pii: bool, typeValid: bool)

  datatype DocumentReport = DocumentReport(docType: bytes, knownDocType: bool, elements: seq<ElementReport>)

  function SpecFor(docTypes: DocTypes, docType: bytes, ns: bytes): Option<NamespaceSpec> {
    if docType in docTypes && ns in docTypes[docType] then Some(docTypes[docType][ns]) else None
  }

  /** What the report must say about one element. */
  ghost predicate Describes(docTypes: DocTypes, docType: bytes, e: ElementReport, v: GoVal) {
    exists r :: Resolves(SpecFor(docTypes, docType, e.namespace), e.identifier, r) &&
                e.known == r.known && e.pii == r.pii && e.typeValid == Validates(r.validate, v)
  }

  predicate RowBefore(a: ElementReport, b: ElementReport) {
    Before(a.namespace, b.namespace) || (a.namespace == b.namespace && Before(a.identifier, b.identifier))
  }

  predicate RowsIncreasing(rows: seq<ElementReport>) {
    forall i, j | 0 <= i < j < |rows| :: RowBefore(rows[i], rows[j])
  }

  predicate HasRow(rows: seq<ElementReport>, ns: bytes, id: bytes) {
    exists i :: 0 <= i < |rows| && rows[i].namespace == ns && rows[i].identifier == id
  }

  /** Every row describes a disclosed element. */
  ghost predicate RowsDescribe(docTypes: DocTypes, docType: bytes, namespaces: Disclosed, rows: seq<ElementReport>) {
    forall i | 0 <= i < |rows| ::
      rows[i].namespace in namespaces && rows[i].identifier in namespaces[rows[i].namespace] &&
      Describes(docTypes, docType, rows[i], namespaces[rows[i].namespace][rows[i].identifier])
  }

  /** One row for each disclosed element, strictly increasing by namespace, then identifier. */
  ghost predicate IsReport(docTypes: DocTypes, vd: VerifiedDocument, rep: DocumentReport) {
    rep.docType == vd.docType && (rep.knownDocType <==> vd.docType in docTypes) &&
    RowsIncreasing(rep.elements) && RowsDescribe(docTypes, vd.docType, vd.namespaces, rep.elements) &&
    forall ns, id | ns in vd.namespaces && id in vd.namespaces[ns] :: HasRow(rep.elements, ns, id)
  }

  /** The rows so far cover the namespaces before `n` entirely and, of the current one, the
      identifiers before `m`. */
  ghost predicate Covers(namespaces: Disclosed, nss: seq<bytes>, n: nat, ids: seq<bytes>, m: nat,
      rows: seq<ElementReport>) {
    n <= |nss| && m <= |ids| && (m > 0 ==> n < |nss|) &&
    (forall i | 0 <= i < |rows| ::
       rows[i].namespace in nss[..n] || (m > 0 && rows[i].namespace == nss[n] && rows[i].identifier in ids[..m])) &&
    (forall ns, id | ns in nss[..n] && ns in namespaces && id in namespaces[ns] :: HasRow(rows, ns, id)) &&
    (forall id | m > 0 && id in ids[..m] :: HasRow(rows, nss[n], id))
  }

  lemma RowLater(nss: seq<bytes>, ids: seq<bytes>, n: nat, m: nat, a: ElementReport, b: ElementReport)
    requires Increasing(nss) && Increasing(ids) && n < |nss| && m < |ids|
    requires a.namespace in nss[..n] || (m > 0 && a.namespace == nss[n] && a.identifier in ids[..m])
    requires b.namespace == nss[n] && b.identifier == ids[m]
    ensures RowBefore(a, b)
  {
    hide Before;
  }

  lemma HasRowStep(rows: seq<ElementReport>, e: ElementReport)
    ensures forall ns, id | HasRow(rows, ns, id) :: HasRow(rows + [e], ns, id)
    ensures HasRow(rows + [e], e.namespace, e.identifier)
  {
    forall ns, id | HasRow(rows, ns, id) ensures HasRow(rows + [e], ns, id) {
      var i :| 0 <= i < |rows| && rows[i].namespace == ns && rows[i].identifier == id;
      assert (rows + [e])[i] == rows[i];
    }
    assert (rows + [e])[|rows|] == e;
  }

  lemma CoversStep(namespaces: Disclosed, nss: seq<bytes>, n: nat, ids: seq<bytes>, m: nat,
      rows: seq<ElementReport>, e: ElementReport)
    requires Covers(namespaces, nss, n, ids, m, rows) && n < |nss| && m < |ids| && e.namespace == nss[n] &&
             e.identifier == ids[m]
    ensures Covers(namespaces, nss, n, ids, m + 1, rows + [e])
  {
    hide HasRow;
    HasRowStep(rows, e);
    assert ids[..m + 1] == ids[..m] + [ids[m]];
  }

  lemma RowsStep(nss: seq<bytes>, ids: seq<bytes>, namespaces: Disclosed, n: nat, m: nat, rows: seq<ElementReport>,
      e: ElementReport)
    requires Covers(namespaces, nss, n, ids, m, rows) && n < |nss| && m < |ids| && e.namespace == nss[n] &&
             e.identifier == ids[m]
    requires Increasing(nss) && Increasing(ids) && RowsIncreasing(rows)
    ensures RowsIncreasing(rows + [e])
  {
    hide RowBefore, HasRow, Increasing;
    forall i | 0 <= i < |rows| ensures RowBefore(rows[i], e) {
      RowLater(nss, ids, n, m, rows[i], e);
    }
  }

  lemma CoversNext(namespaces: Disclosed, nss: seq<bytes>, n: nat, ids: seq<bytes>, rows: seq<ElementReport>)
    requires Covers(namespaces, nss, n, ids, |ids|, rows) && n < |nss| && nss[n] in namespaces &&
             SortedKeys(ids, namespaces[nss[n]].Keys)
    ensures Covers(namespaces, nss, n + 1, [], 0, rows)
  {
    hide HasRow, Increasing;
    assert nss[..n + 1] == nss[..n] + [nss[n]];
    assert ids[..|ids|] == ids;
    forall id | id in namespaces[nss[n]] ensures HasRow(rows, nss[n], id) {
      assert id in ids;
    }
  }

  lemma CoversStart(namespaces: Disclosed, nss: seq<bytes>, n: nat, ids: seq<bytes>, rows: seq<ElementReport>)
    requires Covers(namespaces, nss, n, [], 0, rows)
    ensures Covers(namespaces, nss, n, ids, 0, rows)
  {
    hide HasRow;
  }

  lemma CoversAll(namespaces: Disclosed, nss: seq<bytes>, rows: seq<ElementReport>)
    requires Covers(namespaces, nss, |nss|, [], 0, rows) && SortedKeys(nss, namespaces.Keys)
    ensures forall ns, id | ns in namespaces && id in namespaces[ns] :: HasRow(rows, ns, id)
  {
    hide HasRow, Increasing;
    assert nss[..|nss|] == nss;
  }

  lemma DescribesStep(docTypes: DocTypes, docType: bytes, namespaces: Disclosed, rows: seq<ElementReport>,
      e: ElementReport)
    requires RowsDescribe(docTypes, docType, namespaces, rows)
    requires e.namespace in namespaces && e.identifier in namespaces[e.namespace] &&
             Describes(docTypes, docType, e, namespaces[e.namespace][e.identifier])
    ensures RowsDescribe(docTypes, docType, namespaces, rows + [e])
  {
    hide Describes;
  }

  method DescribeElement(docTypes: DocTypes, docType: bytes, ns: bytes, id: bytes, v: GoVal) returns (e: ElementReport)
    ensures e.namespace == ns && e.identifier == id && Describes(docTypes, docType, e, v)
  {
    hide Resolves;
    var r := ResolveElement(SpecFor(docTypes, docType, ns), id);
    e := ElementReport(ns, id, r.known, r.pii, Validates(r.validate, v));
    assert Resolves(SpecFor(docTypes, docType, e.namespace), e.identifier, r);
  }

  method Report(docTypes: DocTypes, vd: VerifiedDocument) returns (rep: DocumentReport)
    ensures IsReport(docTypes, vd, rep)
  {
    hide Describes, RowsIncreasing, RowsDescribe, Covers, Increasing, HasRow;
    var rows: seq<ElementReport> := [];
    var nss := KeysInOrder(vd.namespaces);
    assert RowsIncreasing(rows) && RowsDescribe(docTypes, vd.docType, vd.namespaces, rows) &&
           Covers(vd.namespaces, nss, 0, [], 0, rows) by {
      NoRows(docTypes, vd, nss);
    }
    for n := 0 to |nss|
      invariant RowsIncreasing(rows) && RowsDescribe(docTypes, vd.docType, vd.namespaces, rows)
      invariant Covers(vd.namespaces, nss, n, [], 0, rows)
    {
      assert nss[n] in vd.namespaces.Keys;
      var elems := vd.namespaces[nss[n]];
      var ids := KeysInOrder(elems);
      CoversStart(vd.namespaces, nss, n, ids, rows);
      for m := 0 to |ids|
        invariant RowsIncreasing(rows) && RowsDescribe(docTypes, vd.docType, vd.namespaces, rows)
        invariant Covers(vd.namespaces, nss, n, ids, m, rows)
      {
        assert ids[m] in elems.Keys;
        var e := DescribeElement(docTypes, vd.docType, nss[n], ids[m], elems[ids[m]]);
        RowsStep(nss, ids, vd.namespaces, n, m, rows, e);
        CoversStep(vd.namespaces, nss, n, ids, m, rows, e);
        DescribesStep(docTypes, vd.docType, vd.namespaces, rows, e);
        rows := rows + [e];
      }
      CoversNext(vd.namespaces, nss, n, ids, rows);
    }
    CoversAll(vd.namespaces, nss, rows);
    rep := DocumentReport(vd.docType, vd.docType in docTypes, rows);
  }

  lemma NoRows(docTypes: DocTypes, vd: VerifiedDocument, nss: seq<bytes>)
    ensures RowsIncreasing([]) && RowsDescribe(docTypes, vd.docType, vd.namespaces, []) &&
            Covers(vd.namespaces, nss, 0, [], 0, [])
  {
  }

  // ----- value-free -----

  /** The two documents disclose the same elements, with values of the same dynamic types. */
  predicate SameKinds(a: Disclosed, b: Disclosed) {
    a.Keys == b.Keys && forall ns | ns in a ::
      a[ns].Keys == b[ns].Keys && forall id | id in a[ns] :: KindOf(a[ns][id]) == KindOf(b[ns][id])
  }

  lemma HooksSeeKinds(h: Hook, v: GoVal, w: GoVal)
    requires KindOf(v) == KindOf(w)
    ensures Validates(h, v) == Validates(h, w)
  {
  }

  lemma RowsAgree(docTypes: DocTypes, docType: bytes, e: ElementReport, f: ElementReport, v: GoVal, w: GoVal)
    requires Describes(docTypes, docType, e, v) && Describes(docTypes, docType, f, w) && KindOf(v) == KindOf(w)
    requires e.namespace == f.namespace && e.identifier == f.identifier
    ensures e == f
  {
    hide Resolves;
    var r :| Resolves(SpecFor(docTypes, docType, e.namespace), e.identifier, r) &&
             e.known == r.known && e.pii == r.pii && e.typeValid == Validates(r.validate, v);
    var q :| Resolves(SpecFor(docTypes, docType, f.namespace), f.identifier, q) &&
             f.known == q.known && f.pii == q.pii && f.typeValid == Validates(q.validate, w);
    ResolvesUniquely(SpecFor(docTypes, docType, e.namespace), e.identifier, r, q);
    HooksSeeKinds(r.validate, v, w);
  }

  lemma RowBeforeFacts(a: ElementReport, b: ElementReport)
    ensures RowBefore(a, b) ==> !RowBefore(b, a) && a != b
  {
    BeforeFacts(a.namespace, b.namespace, b.namespace);
    BeforeFacts(a.identifier, b.identifier, b.identifier);
    hide LexLe;
  }

  /** Two strictly increasing lists with the same members are the same list. */
  lemma {:induction false} RowsUnique(s: seq<ElementReport>, t: seq<ElementReport>)
    requires RowsIncreasing(s) && RowsIncreasing(t) && forall e :: e in s <==> e in t
    ensures s == t
    decreases |s|
  {
    hide RowBefore;
    SameEmptiness(s, t);
    if s != [] {
      assert s[0] in t && t[0] in s;
      RowBeforeFacts(s[0], t[0]);
      assert s[0] == t[0];
      forall e ensures e in s[1..] <==> e in t[1..] {
        RowsTail(s, e);
        RowsTail(t, e);
      }
      RowsUnique(s[1..], t[1..]);
      assert s == [s[0]] + s[1..] && t == [t[0]] + t[1..];
    }
  }

  lemma RowsTail(s: seq<ElementReport>, e: ElementReport)
    requires RowsIncreasing(s) && s != []
    ensures e in s[1..] <==> e in s && e != s[0]
  {
    hide RowBefore;
    if e in s[1..] {
      var i :| 1 <= i < |s| && s[i] == e;
      RowBeforeFacts(s[0], s[i]);
    }
  }

  lemma RowCarriesOver(docTypes: DocTypes, a: VerifiedDocument, b: VerifiedDocument, p: DocumentReport,
      q: DocumentReport, e: ElementReport)
    requires IsReport(docTypes, a, p) && IsReport(docTypes, b, q) && a.docType == b.docType &&
             SameKinds(a.namespaces, b.namespaces)
    requires e in p.elements
    ensures e in q.elements
  {
    hide Describes, RowsIncreasing;
    var i :| 0 <= i < |p.elements| && p.elements[i] == e;
    assert HasRow(q.elements, e.namespace, e.identifier);
    var j :| 0 <= j < |q.elements| && q.elements[j].namespace == e.namespace &&
      q.elements[j].identifier == e.identifier;
    RowsAgree(docTypes, a.docType, e, q.elements[j], a.namespaces[e.namespace][e.identifier],
      b.namespaces[e.namespace][e.identifier]);
  }

  /** The report is value-free: documents with the same type and keys whose values agree in
      dynamic type have identical reports. In particular a document has only one report,
      whatever order its maps yield their keys in. */
  lemma ReportIsValueFree(docTypes: DocTypes, a: VerifiedDocument, b: VerifiedDocument, p: DocumentReport,
      q: DocumentReport)
    requires IsReport(docTypes, a, p) && IsReport(docTypes, b, q)
    requires a.docType == b.docType && SameKinds(a.namespaces, b.namespaces)
    ensures p == q
  {
    hide IsReport, RowsIncreasing;
    forall e ensures e in p.elements <==> e in q.elements {
      if e in p.elements { RowCarriesOver(docTypes, a, b, p, q, e); }
      if e in q.elements { RowCarriesOver(docTypes, b, a, q, p, e); }
    }
    assert RowsIncreasing(p.elements) && RowsIncreasing(q.elements) && p.docType == q.docType &&
           p.knownDocType == q.knownDocType by {
      ReportParts(docTypes, a, p);
      ReportParts(docTypes, b, q);
    }
    RowsUnique(p.elements, q.elements);
  }

  lemma ReportParts(docTypes: DocTypes, vd: VerifiedDocument, rep: DocumentReport)
    requires IsReport(docTypes, vd, rep)
    ensures RowsIncreasing(rep.elements) && rep.docType == vd.docType && (rep.knownDocType <==> vd.docType in docTypes)
  {
  }
}
