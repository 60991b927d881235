/**
 Go maps and structs on the wire: canonical encoding and tolerant decoding are inverse.
 */
module Structs {
  import opened Basics
  import opened CborSyntax
  import opened Codec

  // ----- canonical maps -----

  predicate Distinct(ks: seq<Key>) {
    forall i, j | 0 <= i < j < |ks| :: ks[i] != ks[j]
  }

  lemma SortKeysDistinct(s: set<Key>)
    ensures Distinct(SortKeys(s))
  {
    forall i, j | 0 <= i < j < |s| ensures SortKeys(s)[i] != SortKeys(s)[j] {
      SortKeysSorted(s, i, j);
    }
  }

  lemma KeyOfKeyItem(k: Key)
    ensures KeyOf(KeyItem(k)) == if Readable(k) then Some(k) else None
  {
  }

  function Restrict<K, V>(m: map<K, V>, ks: seq<K>): map<K, V>
    requires forall k | k in ks :: k in m
  {
    map k | k in ks :: m[k]
  }

  lemma KeyMapStep(k: Key, v: Item, tail: seq<Item>)
    ensures KeyMap([KeyItem(k), v] + tail) ==
            match KeyMap(tail)
            case None => None
            case Some(m) => if Readable(k) && k !in m then Some(m[k := v]) else None
  {
    var kvs := [KeyItem(k), v] + tail;
    KeyOfKeyItem(k);
    hide KeyOf, KeyItem, Readable;
    assert kvs[2..] == tail;
  }

  lemma RestrictStep(ks: seq<Key>, m: map<Key, Item>)
    requires ks != [] && (forall k | k in ks :: k in m) && Distinct(ks)
    ensures Restrict(m, ks) == Restrict(m, ks[1..])[ks[0] := m[ks[0]]]
    ensures ks[0] !in Restrict(m, ks[1..])
  {
    assert ks == [ks[0]] + ks[1..];
  }

  predicate AllReadable(ks: seq<Key>) {
    forall k | k in ks :: Readable(k)
  }

  lemma {:induction false} KeyMapFlatPairs(ks: seq<Key>, m: map<Key, Item>)
    requires forall k | k in ks :: k in m
    requires Distinct(ks)
    ensures KeyMap(FlatPairs(ks, m)) == if AllReadable(ks) then Some(Restrict(m, ks)) else None
  {
    if ks == [] {
      assert Restrict(m, ks) == map[];
    } else {
      KeyMapFlatPairs(ks[1..], m);
      KeyMapStep(ks[0], m[ks[0]], FlatPairs(ks[1..], m));
      RestrictStep(ks, m);
      assert AllReadable(ks) <==> Readable(ks[0]) && AllReadable(ks[1..]) by {
        assert ks == [ks[0]] + ks[1..];
      }
      hide KeyItem, Readable, KeyMap, Restrict, Distinct, AllReadable;
    }
  }

  /** A decoded canonical map is the map that was encoded, unless a text key is not UTF-8. */
  lemma AsMapMkMap(m: map<Key, Item>)
    ensures AsMap(MkMap(m)) == if forall k | k in m :: Readable(k) then Some(m) else None
  {
    hide SortKeys, FlatPairs, KeyMap, Readable;
    var ks := SortKeys(m.Keys);
    SortKeysDistinct(m.Keys);
    KeyMapFlatPairs(ks, m);
    assert Restrict(m, ks) == m;
  }

  lemma {:induction false} FlatPairsChildren(ks: seq<Key>, m: map<Key, Item>)
    requires forall k | k in ks :: k in m
    ensures forall x | x in FlatPairs(ks, m) :: exists k :: k in ks && (x == KeyItem(k) || x == m[k])
    ensures forall k | k in ks :: KeyItem(k) in FlatPairs(ks, m) && m[k] in FlatPairs(ks, m)
  {
    if ks == [] {
      assert FlatPairs(ks, m) == [];
    } else {
      var tail := FlatPairs(ks[1..], m);
      FlatPairsChildren(ks[1..], m);
      assert FlatPairs(ks, m) == [KeyItem(ks[0]), m[ks[0]]] + tail;
      hide KeyItem, FlatPairs;
      assert ks == [ks[0]] + ks[1..];
      forall x | x in FlatPairs(ks, m)
        ensures exists k :: k in ks && (x == KeyItem(k) || x == m[k])
      {
        if x in tail {
          var k :| k in ks[1..] && (x == KeyItem(k) || x == m[k]);
          assert k in ks;
        } else {
          assert ks[0] in ks && (x == KeyItem(ks[0]) || x == m[ks[0]]);
        }
      }
    }
  }

  predicate KeyFits(k: Key) {
    match k
    case KText(s) => |s| < 0x1_0000_0000_0000_0000
    case KInt(n) => -0x1_0000_0000_0000_0000 <= n < 0x1_0000_0000_0000_0000
  }

  lemma KeyItemWF(k: Key)
    ensures WF(KeyItem(k)) <==> KeyFits(k)
  {
  }

  lemma FlatPairsWF(ks: seq<Key>, m: map<Key, Item>)
    requires forall k | k in ks :: k in m
    ensures (forall c | c in FlatPairs(ks, m) :: WF(c)) <==> forall k | k in ks :: KeyFits(k) && WF(m[k])
  {
    FlatPairsChildren(ks, m);
    forall k | k in ks ensures WF(KeyItem(k)) <==> KeyFits(k) { KeyItemWF(k); }
    hide FlatPairs, KeyItem, KeyFits, WF;
  }

  lemma MkMapWF(m: map<Key, Item>)
    ensures WF(MkMap(m)) <==>
            |m| < 0x1_0000_0000_0000_0000 && forall k | k in m :: KeyFits(k) && WF(m[k])
  {
    hide FlatPairs, SortKeys, KeyFits;
    var ks := SortKeys(m.Keys);
    assert |ks| == |m| && PairCount(FlatPairs(ks, m)) == |m|;
    FlatPairsWF(ks, m);
  }

  lemma KeysInLimits(levels: nat)
    ensures forall k :: InLimits(KeyItem(k), levels)
  {
  }

  lemma FlatPairsInLimits(ks: seq<Key>, m: map<Key, Item>, levels: nat)
    requires forall k | k in ks :: k in m
    ensures (forall c | c in FlatPairs(ks, m) :: InLimits(c, levels)) <==> forall k | k in ks :: InLimits(m[k], levels)
  {
    FlatPairsChildren(ks, m);
    KeysInLimits(levels);
    hide FlatPairs, KeyItem, InLimits;
  }

  lemma MkMapInLimits(m: map<Key, Item>, levels: nat)
    ensures InLimits(MkMap(m), levels) <==>
            levels > 0 && |m| <= MAX_MAP_PAIRS && forall k | k in m :: InLimits(m[k], levels - 1)
  {
    hide FlatPairs, SortKeys;
    var ks := SortKeys(m.Keys);
    assert |ks| == |m| && PairCount(FlatPairs(ks, m)) == |m|;
    if levels > 0 {
      FlatPairsInLimits(ks, m, levels - 1);
    }
  }

  // ----- maps with text keys and with unsigned keys -----

  function TextKeys(m: map<bytes, Item>): map<Key, Item> {
    map s | s in m :: KText(s) := m[s]
  }

  function MkTextMap(m: map<bytes, Item>): Item { MkMap(TextKeys(m)) }

  function AsTextMap(x: Item): (r: Option<map<bytes, Item>>)
    ensures r.Some? ==> forall s | s in r.value :: x.Map? && r.value[s] in x.kvs
  {
    match AsMap(x)
    case None => None
    case Some(m) =>
      if AllText(m) then Some(StripText(m)) else None
  }

  predicate AllText(m: map<Key, Item>) {
    forall k | k in m :: k.KText?
  }

  function StripText(m: map<Key, Item>): (r: map<bytes, Item>)
    requires AllText(m)
    ensures forall s | s in r :: KText(s) in m && r[s] == m[KText(s)]
  {
    map k | k in m :: k.s := m[k]
  }

  lemma StripTextKeys(m: map<bytes, Item>)
    ensures AllText(TextKeys(m)) && StripText(TextKeys(m)) == m
  {
    var t := TextKeys(m);
    assert forall s | s in m :: KText(s) in t && KText(s).s == s;
  }

  lemma TextKeysSize(m: map<bytes, Item>)
    ensures |TextKeys(m)| == |m|
    decreases |m|
  {
    if m != map[] {
      var s :| s in m;
      var rest := m - {s};
      TextKeysSize(rest);
      assert TextKeys(m) == TextKeys(rest)[KText(s) := m[s]];
      assert m == rest[s := m[s]];
    }
  }

  lemma TextKeysReadable(m: map<bytes, Item>)
    ensures (forall k | k in TextKeys(m) :: Readable(k)) <==> forall s | s in m :: Utf8(s)
  {
    assert forall s | s in m :: KText(s) in TextKeys(m) && (Readable(KText(s)) <==> Utf8(s));
    hide Utf8;
  }

  lemma AsTextMapMkTextMap(m: map<bytes, Item>)
    ensures AsTextMap(MkTextMap(m)) == if forall s | s in m :: Utf8(s) then Some(m) else None
  {
    AsMapMkMap(TextKeys(m));
    StripTextKeys(m);
    TextKeysReadable(m);
    hide AsMap, MkMap, Readable, StripText, AllText, TextKeys, Utf8;
  }

  lemma MkTextMapWF(m: map<bytes, Item>)
    ensures WF(MkTextMap(m)) <==>
            |m| < 0x1_0000_0000_0000_0000 && forall s | s in m :: |s| < 0x1_0000_0000_0000_0000 && WF(m[s])
  {
    hide MkMap, WF;
    var t := TextKeys(m);
    TextKeysSize(m);
    MkMapWF(t);
    assert forall s | s in m :: KText(s) in t && t[KText(s)] == m[s];
    assert forall s: bytes :: KeyFits(KText(s)) <==> |s| < 0x1_0000_0000_0000_0000;
    hide KeyFits;
  }

  lemma MkTextMapInLimits(m: map<bytes, Item>, levels: nat)
    ensures InLimits(MkTextMap(m), levels) <==>
            levels > 0 && |m| <= MAX_MAP_PAIRS && forall s | s in m :: InLimits(m[s], levels - 1)
  {
    var t := TextKeys(m);
    TextKeysSize(m);
    MkMapInLimits(t, levels);
    assert forall s | s in m :: KText(s) in t && t[KText(s)] == m[s];
    hide MkMap, InLimits;
  }

  function UintKeys(m: map<nat, Item>): map<Key, Item>
  {
    map n | n in m :: KInt(n) := m[n]
  }

  function MkUintMap(m: map<nat, Item>): Item
  {
    MkMap(UintKeys(m))
  }

  function AsUintMap(x: Item): (r: Option<map<nat, Item>>)
    ensures r.Some? ==> forall n | n in r.value :: x.Map? && r.value[n] in x.kvs
  {
    match AsMap(x)
    case None => None
    case Some(m) =>
      if AllUint(m) then Some(StripUint(m)) else None
  }

  predicate AllUint(m: map<Key, Item>) {
    forall k | k in m :: k.KInt? && k.n >= 0
  }

  function StripUint(m: map<Key, Item>): (r: map<nat, Item>)
    requires AllUint(m)
    ensures forall n | n in r :: KInt(n) in m && r[n] == m[KInt(n)]
  {
    map k | k in m :: k.n as nat := m[k]
  }

  lemma StripUintKeys(m: map<nat, Item>)
    ensures AllUint(UintKeys(m)) && StripUint(UintKeys(m)) == m
  {
    var t := UintKeys(m);
    assert forall n | n in m :: KInt(n) in t && KInt(n).n == n;
  }

  lemma UintKeysSize(m: map<nat, Item>)
    ensures |UintKeys(m)| == |m|
    decreases |m|
  {
    if m != map[] {
      var n :| n in m;
      var rest := m - {n};
      UintKeysSize(rest);
      assert UintKeys(m) == UintKeys(rest)[KInt(n) := m[n]];
      assert m == rest[n := m[n]];
    }
  }

  lemma AsUintMapMkUintMap(m: map<nat, Item>)
    ensures AsUintMap(MkUintMap(m)) == Some(m)
  {
    AsMapMkMap(UintKeys(m));
    StripUintKeys(m);
    assert forall k | k in UintKeys(m) :: Readable(k);
    hide AsMap, MkMap, StripUint, Readable, UintKeys, AllUint;
  }

  lemma MkUintMapWF(m: map<nat, Item>)
    ensures WF(MkUintMap(m)) <==>
            |m| < 0x1_0000_0000_0000_0000 && forall n | n in m :: n < 0x1_0000_0000_0000_0000 && WF(m[n])
  {
    hide MkMap, WF;
    var t := UintKeys(m);
    UintKeysSize(m);
    MkMapWF(t);
    assert forall n | n in m ::
              KInt(n) in t && t[KInt(n)] == m[n] && (KeyFits(KInt(n)) <==> n < 0x1_0000_0000_0000_0000);
    hide KeyFits;
  }

  lemma MkUintMapInLimits(m: map<nat, Item>, levels: nat)
    ensures InLimits(MkUintMap(m), levels) <==>
            levels > 0 && |m| <= MAX_MAP_PAIRS && forall n | n in m :: InLimits(m[n], levels - 1)
  {
    var t := UintKeys(m);
    UintKeysSize(m);
    MkMapInLimits(t, levels);
    assert forall n | n in m :: KInt(n) in t && t[KInt(n)] == m[n];
    hide MkMap, InLimits;
  }

  // ----- structs -----

  /** The field names of the wire structs. */
  datatype Name =
    | FVersion | FDocuments | FDocumentErrors | FStatus
    | FDocType | FIssuerSigned | FDeviceSigned | FErrors
    | FNameSpaces | FIssuerAuth
    | FDigestID | FRandom | FElementIdentifier | FElementValue
    | FDigestAlgorithm | FValueDigests | FDeviceKeyInfo | FValidityInfo
    | FDeviceKey | FKeyAuthorizations | FKeyInfo
    | FSigned | FValidFrom | FValidUntil | FExpectedUpdate
    | FDeviceAuth | FDeviceSignature | FDeviceMac
    | FStatusList | FIdx | FUri

  function Spelling(n: Name): string {
    match n
    case FVersion => "version"
    case FDocuments => "documents"
    case FDocumentErrors => "documentErrors"
    case FStatus => "status"
    case FDocType => "docType"
    case FIssuerSigned => "issuerSigned"
    case FDeviceSigned => "deviceSigned"
    case FErrors => "errors"
    case FNameSpaces => "nameSpaces"
    case FIssuerAuth => "issuerAuth"
    case FDigestID => "digestID"
    case FRandom => "random"
    case FElementIdentifier => "elementIdentifier"
    case FElementValue => "elementValue"
    case FDigestAlgorithm => "digestAlgorithm"
    case FValueDigests => "valueDigests"
    case FDeviceKeyInfo => "deviceKeyInfo"
    case FValidityInfo => "validityInfo"
    case FDeviceKey => "deviceKey"
    case FKeyAuthorizations => "keyAuthorizations"
    case FKeyInfo => "keyInfo"
    case FSigned => "signed"
    case FValidFrom => "validFrom"
    case FValidUntil => "validUntil"
    case FExpectedUpdate => "expectedUpdate"
    case FDeviceAuth => "deviceAuth"
    case FDeviceSignature => "deviceSignature"
    case FDeviceMac => "deviceMac"
    case FStatusList => "status_list"
    case FIdx => "idx"
    case FUri => "uri"
  }

  function NameBytes(n: Name): bytes { Ascii(Spelling(n)) }

  /** Length, first and last character tell the names apart. */
  function NameWith(length: nat, first: int, last: int): Name {
    match length
    case 3 => if first == 'u' as int then FUri else FIdx
    case 6 =>
      if first == 'r' as int then FRandom else if first == 'e' as int then FErrors
      else if last == 's' as int then FStatus else FSigned
    case 7 => if first == 'v' as int then FVersion else if first == 'd' as int then FDocType else FKeyInfo
    case 8 => FDigestID
    case 9 =>
      if first == 'v' as int then FValidFrom else if last == 's' as int then FDocuments
      else if last == 'y' as int then FDeviceKey else FDeviceMac
    case 10 =>
      if first == 'n' as int then FNameSpaces else if first == 'i' as int then FIssuerAuth
      else if first == 'v' as int then FValidUntil else FDeviceAuth
    case 11 => FStatusList
    case 12 =>
      if first == 'i' as int then FIssuerSigned else if first == 'd' as int then FDeviceSigned
      else if first == 'e' as int then FElementValue else if last == 's' as int then FValueDigests else FValidityInfo
    case 13 => FDeviceKeyInfo
    case 14 => if first == 'd' as int then FDocumentErrors else FExpectedUpdate
    case 15 => if last == 'm' as int then FDigestAlgorithm else FDeviceSignature
    case _ => if first == 'e' as int then FElementIdentifier else FKeyAuthorizations
  }

  lemma ShortSpellingRecovered(n: Name)
    requires |Spelling(n)| <= 9
    ensures var s := Spelling(n);
            0 < |s| && s[0] as int < 128 && s[|s| - 1] as int < 128 &&
            NameWith(|s|, s[0] as int, s[|s| - 1] as int) == n
  {
  }

  lemma LongSpellingRecovered(n: Name)
    requires |Spelling(n)| > 9
    ensures var s := Spelling(n);
            |s| < 100 && s[0] as int < 128 && s[|s| - 1] as int < 128 &&
            NameWith(|s|, s[0] as int, s[|s| - 1] as int) == n
  {
  }

  lemma SpellingRecovered(n: Name)
    ensures var s := Spelling(n);
            0 < |s| < 100 && s[0] as int < 128 && s[|s| - 1] as int < 128 &&
            NameWith(|s|, s[0] as int, s[|s| - 1] as int) == n
  {
    hide Spelling, NameWith;
    if |Spelling(n)| <= 9 { ShortSpellingRecovered(n); } else { LongSpellingRecovered(n); }
  }

  lemma NameRecovered(n: Name)
    ensures var b := NameBytes(n); 0 < |b| < 100 && NameWith(|b|, b[0], b[|b| - 1]) == n
  {
    hide Ascii, Spelling, NameWith;
    SpellingRecovered(n);
  }

  lemma NameBytesInjective(a: Name, b: Name)
    requires NameBytes(a) == NameBytes(b)
    ensures a == b
  {
    hide NameBytes, NameWith;
    NameRecovered(a);
    NameRecovered(b);
  }

  lemma NameBytesReadable(n: Name)
    ensures Utf8(NameBytes(n))
  {
    hide Spelling;
    AsciiIsUtf8(NameBytes(n));
  }

  lemma NamesInjective()
    ensures forall a, b :: NameBytes(a) == NameBytes(b) ==> a == b
  {
    forall a, b | NameBytes(a) == NameBytes(b) ensures a == b {
      NameBytesInjective(a, b);
    }
  }

  function FieldKeys(m: map<Name, Item>): map<Key, Item> {
    hide NameBytes;
    NamesInjective();
    map n | n in m :: KText(NameBytes(n)) := m[n]
  }

  const ENVELOPE_NAMES: set<Name> := {
    FVersion, FDocuments, FDocumentErrors, FStatus, FDocType, FIssuerSigned, FDeviceSigned, FErrors
  }
  const ITEM_NAMES: set<Name> := {FNameSpaces, FIssuerAuth, FDigestID, FRandom, FElementIdentifier, FElementValue}
  const OBJECT_NAMES: set<Name> := {
    FDigestAlgorithm, FValueDigests, FDeviceKeyInfo, FValidityInfo, FDeviceKey, FKeyAuthorizations, FKeyInfo
  }
  const OTHER_NAMES: set<Name> := {
    FSigned, FValidFrom, FValidUntil, FExpectedUpdate, FDeviceAuth, FDeviceSignature, FDeviceMac,
    FStatusList, FIdx, FUri
  }
  const ALL_NAMES: set<Name> := ENVELOPE_NAMES + ITEM_NAMES + OBJECT_NAMES + OTHER_NAMES

  lemma AllNames(n: Name)
    ensures n in ALL_NAMES
  {
    match n case _ =>
  }

  lemma NameCounts()
    ensures |ENVELOPE_NAMES| <= 8 && |ITEM_NAMES| <= 6 && |OBJECT_NAMES| <= 7 && |OTHER_NAMES| <= 10
  {
  }

  lemma NameTotal()
    ensures |ALL_NAMES| <= 31
  {
    NameCounts();
    hide ENVELOPE_NAMES, ITEM_NAMES, OBJECT_NAMES, OTHER_NAMES;
  }

  lemma FieldKeysSize(m: map<Name, Item>)
    ensures |FieldKeys(m)| == |m| <= 31
  {
    FieldKeysCount(m);
    NameTotal();
    hide FieldKeys, ALL_NAMES;
    forall n | n in m ensures n in ALL_NAMES { AllNames(n); }
    SubsetSize(m.Keys, ALL_NAMES);
  }

  lemma FieldKeysAt(m: map<Name, Item>)
    ensures forall n | n in m :: KText(NameBytes(n)) in FieldKeys(m) && FieldKeys(m)[KText(NameBytes(n))] == m[n]
    ensures forall k | k in FieldKeys(m) :: exists n | n in m :: k == KText(NameBytes(n))
  {
    NamesInjective();
    hide NameBytes;
  }

  lemma FieldKeysCount(m: map<Name, Item>)
    ensures |FieldKeys(m)| == |m|
    decreases |m|
  {
    if m == map[] {
      assert FieldKeys(m) == map[];
    } else {
      hide FieldKeys, NameBytes;
      var n :| n in m;
      var rest := m - {n};
      assert m == rest[n := m[n]];
      FieldKeysCount(rest);
      FieldKeysStep(rest, n, m[n]);
    }
  }

  lemma FieldKeysStep(rest: map<Name, Item>, n: Name, v: Item)
    requires n !in rest
    ensures FieldKeys(rest[n := v]) == FieldKeys(rest)[KText(NameBytes(n)) := v]
    ensures KText(NameBytes(n)) !in FieldKeys(rest)
  {
    NamesInjective();
    hide NameBytes;
  }

  lemma SubsetSize<T>(a: set<T>, b: set<T>)
    requires a <= b
    ensures |a| <= |b|
    decreases |a|
  {
    if a != {} {
      var x :| x in a;
      SubsetSize(a - {x}, b - {x});
    }
  }

  /** A struct, as a canonical map from its field names. */
  function MkStruct(m: map<Name, Item>): Item { MkMap(FieldKeys(m)) }

  /** The known fields of a struct; members that are not modelled are tolerated. */
  function FieldsOf(x: Item): Option<map<Name, Item>> {
    match AsMap(x)
    case None => None
    case Some(m) => Some(KnownFields(m))
  }

  function KnownFields(m: map<Key, Item>): map<Name, Item> {
    map n | n in ALL_NAMES && KText(NameBytes(n)) in m :: m[KText(NameBytes(n))]
  }

  lemma KnownFieldKeys(m: map<Name, Item>)
    ensures KnownFields(FieldKeys(m)) == m
  {
    FieldKeysAt(m);
    var r := KnownFields(FieldKeys(m));
    forall n ensures n in r <==> n in m {
      AllNames(n);
      if n in r {
        var j :| j in m && KText(NameBytes(n)) == KText(NameBytes(j));
        NameBytesInjective(n, j);
      }
    }
    hide NameBytes, FieldKeys, ALL_NAMES;
  }

  lemma FieldKeysReadable(m: map<Name, Item>)
    ensures forall k | k in FieldKeys(m) :: Readable(k) && KeyFits(k)
  {
    forall n ensures Utf8(NameBytes(n)) && |NameBytes(n)| < 100 {
      NameBytesReadable(n);
      NameRecovered(n);
    }
    hide NameBytes, Utf8;
  }

  lemma FieldsOfMkStruct(m: map<Name, Item>)
    ensures FieldsOf(MkStruct(m)) == Some(m)
  {
    AsMapMkMap(FieldKeys(m));
    FieldKeysReadable(m);
    KnownFieldKeys(m);
    hide AsMap, MkMap, FieldKeys, KnownFields;
  }

  lemma MkStructWF(m: map<Name, Item>)
    ensures WF(MkStruct(m)) <==> forall n | n in m :: WF(m[n])
  {
    MkMapWF(FieldKeys(m));
    FieldKeysReadable(m);
    FieldKeysSize(m);
    FieldKeysAt(m);
    hide NameBytes, MkMap, FieldKeys, WF, KeyFits;
  }

  lemma MkStructInLimits(m: map<Name, Item>, levels: nat)
    ensures InLimits(MkStruct(m), levels) <==> levels > 0 && forall n | n in m :: InLimits(m[n], levels - 1)
  {
    MkMapInLimits(FieldKeys(m), levels);
    FieldKeysSize(m);
    FieldKeysAt(m);
    hide NameBytes, MkMap, FieldKeys, InLimits;
  }
}
