/**
 The one decoder and the one deterministic encoder: hardened limits, UTF-8 checking,
 duplicate-key rejection, trailing-data rejection, and canonical map-key order.
 */
module Codec {
  import opened Basics
  import opened CborSyntax

  const MAX_NESTED_LEVELS: nat := 16
  const MAX_ARRAY_ELEMENTS: nat := 65536
  const MAX_MAP_PAIRS: nat := 65536

  // ----- decoding -----

  /** Containers nest at most `levels` deep and none is too large. A tag takes up a level only
      when it directly wraps another tag. */
  predicate InLimits(x: Item, levels: nat) {
    match x
    case Array(_, items) =>
      levels > 0 && |items| <= MAX_ARRAY_ELEMENTS && forall c | c in items :: InLimits(c, levels - 1)
    case Map(_, kvs) =>
      levels > 0 && PairCount(kvs) <= MAX_MAP_PAIRS && forall c | c in kvs :: InLimits(c, levels - 1)
    case Tag(_, _, content) =>
      if content.Tag? then levels > 0 && InLimits(content, levels - 1) else InLimits(content, levels)
    case _ => true
  }

  /** Exactly one top-level item within the limits. */
  function Decode(raw: bytes): (r: Result<Item>)
  {
    match ParseWhole(raw)
    case None => Err(ErrMalformed)
    case Some(x) => if InLimits(x, MAX_NESTED_LEVELS) then Ok(x) else Err(ErrMalformed)
  }

  datatype Step = Value(item: Item) | Bad | EndOfInput

  /** A stream decoder over one byte slice. */
  class StreamDecoder {
    const data: bytes
    var off: nat

    ghost predicate Valid()
      reads this
    {
      off <= |data|
    }

    constructor (raw: bytes)
      ensures Valid() && data == raw && off == 0
    {
      data, off := raw, 0;
    }

    /** Reads the next item, or reports that nothing at all is left. */
    method Next() returns (r: Step)
      requires Valid()
      modifies this
      ensures Valid()
      ensures r.EndOfInput? <==> old(off) == |data|
      ensures r.Value? <==>
                Parse(data[old(off)..]).Some? && InLimits(Parse(data[old(off)..]).value.item, MAX_NESTED_LEVELS)
      ensures r.Value? ==> r.item == Parse(data[old(off)..]).value.item
      ensures r.Value? ==> data[off..] == Parse(data[old(off)..]).value.rest
      ensures !r.Value? ==> off == old(off)
    {
      if off == |data| {
        return EndOfInput;
      }
      match Parse(data[off..]) {
        case None => return Bad;
        case Some(p) =>
          if !InLimits(p.item, MAX_NESTED_LEVELS) {
            return Bad;
          }
          PrintParse(data[off..]);
          ghost var rest := data[off..];
          assert rest[|rest| - |p.rest|..] == p.rest;
          off := |data| - |p.rest|;
          assert data[off..] == p.rest;
          return Value(p.item);
      }
    }
  }

  /** Two reads of one stream: the first must yield the item, the second must find nothing. */
  method DecodeStream(raw: bytes) returns (r: Result<Item>)
    ensures r == Decode(raw)
  {
    var dec := new StreamDecoder(raw);
    assert raw[0..] == raw;
    var first := dec.Next();
    if !first.Value? {
      return Err(ErrMalformed);
    }
    var second := dec.Next();
    if second != EndOfInput {
      return Err(ErrMalformed);
    }
    return Ok(first.item);
  }

  /** What was decoded prints back to exactly the bytes received. */
  lemma DecodeIsExact(raw: bytes)
    requires Decode(raw).Ok?
    ensures WF(Decode(raw).value) && Print(Decode(raw).value) == raw
    ensures InLimits(Decode(raw).value, MAX_NESTED_LEVELS)
  {
    PrintParseWhole(raw);
  }

  /** The decoder accepts exactly the byte strings that are the print of one item within the
      limits, and then returns that item. */
  lemma DecodeAccepts(raw: bytes)
    ensures Decode(raw).Ok? <==> exists x :: WF(x) && InLimits(x, MAX_NESTED_LEVELS) && Print(x) == raw
    ensures forall x | WF(x) && InLimits(x, MAX_NESTED_LEVELS) && Print(x) == raw :: Decode(raw) == Ok(x)
  {
    if Decode(raw).Ok? {
      DecodeIsExact(raw);
    }
    forall x | WF(x) && InLimits(x, MAX_NESTED_LEVELS) && Print(x) == raw ensures Decode(raw) == Ok(x) {
      ParseWholePrint(x);
    }
    hide WF, InLimits, Print, Decode;
  }

  lemma {:induction false} InLimitsMonotone(x: Item, a: nat, b: nat)
    requires InLimits(x, a) && a <= b
    ensures InLimits(x, b)
    decreases x
  {
    match x
    case Array(_, items) =>
      forall c | c in items ensures InLimits(c, b - 1) { InLimitsMonotone(c, a - 1, b - 1); }
    case Map(_, kvs) =>
      forall c | c in kvs ensures InLimits(c, b - 1) { InLimitsMonotone(c, a - 1, b - 1); }
    case Tag(_, _, content) =>
      if content.Tag? { InLimitsMonotone(content, a - 1, b - 1); } else { InLimitsMonotone(content, a, b); }
    case _ =>
  }

  // ----- encoding -----

  function Encode(x: Item): (r: Result<bytes>)
  {
    if WF(x) then Ok(Print(x)) else Err(ErrTooLarge)
  }

  /** Decoding undoes encoding on every item within the limits, and refuses the others. */
  lemma DecodeEncode(x: Item)
    requires WF(x)
    ensures Encode(x) == Ok(Print(x))
    ensures Decode(Print(x)) == if InLimits(x, MAX_NESTED_LEVELS) then Ok(x) else Err(ErrMalformed)
  {
    ParseWholePrint(x);
  }

  const Null: Item := Simple(0, 22)

  predicate IsNil(x: Item) {
    x == Simple(0, 22) || x == Simple(0, 23)
  }

  function MkUInt(n: nat): Item { UInt(MinWidth(n), n) }

  function MkInt(n: int): Item {
    if n >= 0 then UInt(MinWidth(n), n) else NInt(MinWidth(-1 - n), -1 - n)
  }

  function MkBlob(b: bytes): Item { Blob(MinWidth(|b|), b) }

  function MkText(s: bytes): Item { Text(MinWidth(|s|), s) }

  function MkArray(items: seq<Item>): Item { Array(MinWidth(|items|), items) }

  function MkTag(n: nat, content: Item): Item { Tag(MinWidth(n), n, content) }

  lemma ArrayInjective(a: seq<Item>, b: seq<Item>)
    requires MkArray(a) == MkArray(b)
    ensures a == b
  {
  }

  lemma StringInjective(s: bytes, t: bytes)
    ensures MkText(s) == MkText(t) ==> s == t
    ensures MkBlob(s) == MkBlob(t) ==> s == t
  {
  }

  lemma ArrayWF(items: seq<Item>)
    requires |items| < 0x1_0000_0000_0000_0000 && forall c | c in items :: WF(c)
    ensures WF(MkArray(items))
  {
  }

  lemma StringWF(s: bytes)
    requires |s| < 0x1_0000_0000_0000_0000
    ensures WF(MkText(s)) && WF(MkBlob(s))
  {
  }

  // ----- raw messages -----

  /** A raw message is emitted verbatim; an empty one becomes null, anything that is not
      exactly one item cannot be encoded. */
  predicate RawOk(raw: bytes) {
    raw == [] || ParseWhole(raw).Some?
  }

  function Embed(raw: bytes): Item {
    if raw == [] then Null
    else match ParseWhole(raw) case Some(x) => x case None => Null
  }

  lemma EmbedIsVerbatim(raw: bytes)
    requires RawOk(raw)
    ensures WF(Embed(raw))
    ensures raw != [] ==> Print(Embed(raw)) == raw
  {
    if raw != [] {
      PrintParseWhole(raw);
    }
  }

  lemma EmbedPrint(x: Item)
    requires WF(x)
    ensures Print(x) != [] && RawOk(Print(x)) && Embed(Print(x)) == x
  {
    ParseWholePrint(x);
  }

  // ----- UTF-8 (RFC 3629) -----

  predicate Continuation(b: Byte) { 0x80 <= b < 0xC0 }

  /** The length of the well-formed sequence at the front of `s`, or 0. */
  function RuneLength(s: bytes): (r: nat)
    ensures r <= |s|
  {
    if s == [] then 0
    else if s[0] < 0x80 then 1
    else if 0xC2 <= s[0] <= 0xDF then
      if |s| >= 2 && Continuation(s[1]) then 2 else 0
    else if 0xE0 <= s[0] <= 0xEF then
      if |s| >= 3 && Continuation(s[1]) && Continuation(s[2]) && (s[0] == 0xE0 ==> s[1] >= 0xA0) &&
        (s[0] == 0xED ==> s[1] < 0xA0) then 3 else 0
    else if 0xF0 <= s[0] <= 0xF4 then
      if |s| >= 4 && Continuation(s[1]) && Continuation(s[2]) && Continuation(s[3]) &&
        (s[0] == 0xF0 ==> s[1] >= 0x90) && (s[0] == 0xF4 ==> s[1] < 0x90) then 4 else 0
    else 0
  }

  predicate Utf8(s: bytes) {
    s == [] || (RuneLength(s) > 0 && Utf8(s[RuneLength(s)..]))
  }

  lemma {:induction false} AsciiIsUtf8(s: bytes)
    requires forall i | 0 <= i < |s| :: s[i] < 0x80
    ensures Utf8(s)
  {
    if s != [] {
      assert RuneLength(s) == 1;
      AsciiIsUtf8(s[1..]);
    }
  }

  // ----- typed readers; CBOR null leaves a Go zero value -----

  function AsText(x: Item): Option<bytes> {
    if IsNil(x) then Some([])
    else if x.Text? && Utf8(x.s) then Some(x.s)
    else None
  }

  function AsBlob(x: Item): Option<bytes> {
    if IsNil(x) then Some([])
    else if x.Blob? then Some(x.b)
    else None
  }

  function AsUint(x: Item): Option<nat> {
    if IsNil(x) then Some(0)
    else if x.UInt? then Some(x.n)
    else None
  }

  /** A 64-bit signed integer. */
  function AsInt(x: Item): Option<int> {
    if IsNil(x) then Some(0)
    else if x.UInt? && x.n < 0x8000_0000_0000_0000 then Some(x.n)
    else if x.NInt? && x.n < 0x8000_0000_0000_0000 then Some(-1 - x.n)
    else None
  }

  function AsList(x: Item): Option<seq<Item>> {
    if IsNil(x) then Some([])
    else if x.Array? then Some(x.items)
    else None
  }

  // ----- maps -----

  datatype Key = KInt(n: int) | KText(s: bytes)

  function KeyItem(k: Key): Item {
    match k
    case KInt(n) => MkInt(n)
    case KText(s) => MkText(s)
  }

  function KeyOf(x: Item): Option<Key> {
    match x
    case UInt(_, n) => Some(KInt(n))
    case NInt(_, n) => Some(KInt(-1 - n))
    case Text(_, s) => if Utf8(s) then Some(KText(s)) else None
    case _ => None
  }

  predicate Readable(k: Key) {
    k.KText? ==> Utf8(k.s)
  }

  /** The pairs of a map, refused when two keys are the same value (section 5.6 of RFC 8949). */
  function KeyMap(kvs: seq<Item>): (r: Option<map<Key, Item>>)
    ensures r.Some? ==> forall k | k in r.value :: r.value[k] in kvs
  {
    if |kvs| < 2 then Some(map[])
    else
      match KeyOf(kvs[0])
      case None => None
      case Some(k) =>
        match KeyMap(kvs[2..])
        case None => None
        case Some(m) => if k in m then None else Some(m[k := kvs[1]])
  }

  /** The key and the value at position `i`. */
  function KeyAt(kvs: seq<Item>, i: nat): Option<Key>
    requires i < PairCount(kvs)
  {
    KeyOf(kvs[2 * i])
  }

  function ValueAt(kvs: seq<Item>, i: nat): Item
    requires i < PairCount(kvs)
  {
    kvs[2 * i + 1]
  }

  predicate KeysReadable(kvs: seq<Item>) {
    forall i | 0 <= i < PairCount(kvs) :: KeyAt(kvs, i).Some?
  }

  predicate KeysDistinct(kvs: seq<Item>) {
    forall i, j | 0 <= i < j < PairCount(kvs) :: KeyAt(kvs, i) != KeyAt(kvs, j)
  }

  /** The map holds exactly the pairs. */
  ghost predicate HoldsPairs(kvs: seq<Item>, m: map<Key, Item>) {
    (forall i | 0 <= i < PairCount(kvs) :: KeyAt(kvs, i).Some? && KeyAt(kvs, i).value in m &&
      m[KeyAt(kvs, i).value] == ValueAt(kvs, i)) &&
    forall k | k in m :: exists i: nat :: i < PairCount(kvs) && KeyAt(kvs, i) == Some(k)
  }

  lemma TailPairs(kvs: seq<Item>)
    requires |kvs| >= 2
    ensures PairCount(kvs) == PairCount(kvs[2..]) + 1
    ensures forall i: nat | i < PairCount(kvs[2..]) ::
              KeyAt(kvs[2..], i) == KeyAt(kvs, i + 1) && ValueAt(kvs[2..], i) == ValueAt(kvs, i + 1)
  {
    hide KeyOf;
  }

  lemma HoldsMore(kvs: seq<Item>, m: map<Key, Item>)
    requires |kvs| >= 2 && KeyOf(kvs[0]).Some? && HoldsPairs(kvs[2..], m) && KeyOf(kvs[0]).value !in m
    ensures HoldsPairs(kvs, m[KeyOf(kvs[0]).value := kvs[1]])
  {
    hide KeyOf;
    TailPairs(kvs);
    var k := KeyOf(kvs[0]).value;
    var next := m[k := kvs[1]];
    assert KeyAt(kvs, 0) == Some(k) && ValueAt(kvs, 0) == kvs[1];
    hide KeyAt, ValueAt;
    forall i | 0 <= i < PairCount(kvs)
      ensures KeyAt(kvs, i).Some? && KeyAt(kvs, i).value in next && next[KeyAt(kvs, i).value] == ValueAt(kvs, i)
    {
      if i > 0 { assert KeyAt(kvs, i) == KeyAt(kvs[2..], i - 1); }
    }
    forall j | j in next ensures exists i: nat :: i < PairCount(kvs) && KeyAt(kvs, i) == Some(j) {
      if j != k {
        var i: nat :| i < PairCount(kvs[2..]) && KeyAt(kvs[2..], i) == Some(j);
        assert KeyAt(kvs, i + 1) == Some(j);
      }
    }
  }

  lemma TailKeysFresh(kvs: seq<Item>, m: map<Key, Item>)
    requires |kvs| >= 2 && HoldsPairs(kvs[2..], m) && KeysDistinct(kvs[2..]) && KeysReadable(kvs[2..])
    ensures KeysReadable(kvs) <==> KeyOf(kvs[0]).Some?
    ensures KeyOf(kvs[0]).Some? ==> (KeysDistinct(kvs) <==> KeyOf(kvs[0]).value !in m)
  {
    hide KeyOf;
    TailPairs(kvs);
    assert KeyAt(kvs, 0) == KeyOf(kvs[0]);
    hide KeyAt, ValueAt;
    assert forall i: nat | 0 < i < PairCount(kvs) :: KeyAt(kvs, i) == KeyAt(kvs[2..], i - 1);
    if KeyOf(kvs[0]).Some? && KeyOf(kvs[0]).value in m {
      var i: nat :| i < PairCount(kvs[2..]) && KeyAt(kvs[2..], i) == Some(KeyOf(kvs[0]).value);
      assert KeyAt(kvs, i + 1) == KeyAt(kvs, 0);
    }
  }

  lemma TailFails(kvs: seq<Item>)
    requires |kvs| >= 2 && KeysReadable(kvs) && KeysDistinct(kvs)
    ensures KeysReadable(kvs[2..]) && KeysDistinct(kvs[2..])
  {
    hide KeyOf;
    TailPairs(kvs);
    hide KeyAt;
    forall i: nat | i < PairCount(kvs[2..]) ensures KeyAt(kvs[2..], i).Some? {
      assert KeyAt(kvs, i + 1).Some?;
    }
  }

  /** A map is read exactly when its keys are readable and no two are the same value; then it
      holds exactly the pairs. */
  lemma {:induction false} KeyMapExact(kvs: seq<Item>)
    ensures KeyMap(kvs).Some? <==> KeysReadable(kvs) && KeysDistinct(kvs)
    ensures KeyMap(kvs).Some? ==> HoldsPairs(kvs, KeyMap(kvs).value)
    decreases |kvs|
  {
    hide KeyOf;
    if |kvs| >= 2 {
      KeyMapExact(kvs[2..]);
      if KeyMap(kvs[2..]).Some? {
        var m := KeyMap(kvs[2..]).value;
        TailKeysFresh(kvs, m);
        if KeyOf(kvs[0]).Some? && KeyOf(kvs[0]).value !in m {
          HoldsMore(kvs, m);
        }
      } else if KeysReadable(kvs) && KeysDistinct(kvs) {
        TailFails(kvs);
      }
      hide KeyAt, ValueAt, HoldsPairs, KeysReadable, KeysDistinct;
    }
  }

  function AsMap(x: Item): (r: Option<map<Key, Item>>)
    ensures r.Some? ==> forall k | k in r.value :: x.Map? && r.value[k] in x.kvs
  {
    if IsNil(x) then Some(map[])
    else if x.Map? then KeyMap(x.kvs)
    else None
  }

  // ----- canonical key order -----

  function KeyBytes(k: Key): bytes { Print(KeyItem(k)) }

  predicate KeyLe(a: Key, b: Key) { LengthFirstLe(KeyBytes(a), KeyBytes(b)) }

  lemma HeadMajor(major: nat, w: nat, n: nat)
    requires major < 8
    ensures HeadBytes(major, w, n)[0] / 32 == major
  {
    hide BigEndian, AdditionalInfo;
    InitialByte(major, AdditionalInfo(w, n));
  }

  lemma KeyBytesShape(k: Key)
    ensures k.KText? ==> KeyBytes(k) == HeadBytes(3, MinWidth(|k.s|), |k.s|) + k.s
    ensures k.KInt? && k.n >= 0 ==> KeyBytes(k) == HeadBytes(0, MinWidth(k.n), k.n)
    ensures k.KInt? && k.n < 0 ==> KeyBytes(k) == HeadBytes(1, MinWidth(-1 - k.n), -1 - k.n)
    ensures KeyBytes(k)[0] / 32 == if k.KText? then 3 else if k.n >= 0 then 0 else 1
  {
    hide MinWidth, HeadBytes;
    match k
    case KText(s) => HeadMajor(3, MinWidth(|s|), |s|);
    case KInt(n) =>
      if n >= 0 {
        HeadMajor(0, MinWidth(n), n);
      } else {
        HeadMajor(1, MinWidth(-1 - n), -1 - n);
      }
  }

  /** Equal heads carry equal arguments. */
  lemma HeadInjective(major: nat, a: nat, b: nat)
    requires major < 8 && HeadBytes(major, MinWidth(a), a) == HeadBytes(major, MinWidth(b), b)
    ensures a == b
  {
    var wa, wb := MinWidth(a), MinWidth(b);
    assert |HeadBytes(major, wa, a)| == 1 + wa && |HeadBytes(major, wb, b)| == 1 + wb;
    if a < 0x1_0000_0000_0000_0000 {
      hide HeadBytes;
      assert HeadBytes(major, wa, a) + [] == HeadBytes(major, wa, a) &&
             HeadBytes(major, wb, b) + [] == HeadBytes(major, wb, b);
      ReadHeadBytes(major, wa, a, []);
      ReadHeadBytes(major, wb, b, []);
    }
  }

  /** The length of a text key's encoding determines the length of the text. */
  lemma TextLength(a: nat, b: nat)
    requires a + MinWidth(a) == b + MinWidth(b)
    requires AdditionalInfo(MinWidth(a), a) == AdditionalInfo(MinWidth(b), b)
    ensures a == b
  {
  }

  lemma KeyBytesInjective(a: Key, b: Key)
    requires KeyBytes(a) == KeyBytes(b)
    ensures a == b
  {
    KeyBytesShape(a);
    KeyBytesShape(b);
    hide KeyBytes, MinWidth;
    if a.KText? {
      var wa, wb := MinWidth(|a.s|), MinWidth(|b.s|);
      assert KeyBytes(a)[0] == 96 + AdditionalInfo(wa, |a.s|) && KeyBytes(b)[0] == 96 + AdditionalInfo(wb, |b.s|);
      TextLength(|a.s|, |b.s|);
      assert KeyBytes(a)[1 + wa..] == a.s && KeyBytes(b)[1 + wb..] == b.s;
    } else if a.n >= 0 {
      HeadInjective(0, a.n, b.n);
    } else {
      HeadInjective(1, -1 - a.n, -1 - b.n);
    }
  }

  lemma KeyOrder(a: Key, b: Key)
    ensures KeyLe(a, a) && (KeyLe(a, b) || KeyLe(b, a))
    ensures KeyLe(a, b) && KeyLe(b, a) ==> a == b
  {
    LexTotal(KeyBytes(a), KeyBytes(b));
    if KeyLe(a, b) && KeyLe(b, a) {
      LexAntisymmetric(KeyBytes(a), KeyBytes(b));
      KeyBytesInjective(a, b);
    }
  }

  lemma KeyLeTransitive(a: Key, b: Key, c: Key)
    requires KeyLe(a, b) && KeyLe(b, c)
    ensures KeyLe(a, c)
  {
    if |KeyBytes(a)| == |KeyBytes(c)| {
      LexTransitive(KeyBytes(a), KeyBytes(b), KeyBytes(c));
    }
  }

  predicate IsLeast(k: Key, s: set<Key>) {
    k in s && forall j | j in s :: KeyLe(k, j)
  }

  lemma {:induction false} LeastExists(s: set<Key>)
    requires s != {}
    ensures exists k :: IsLeast(k, s)
    decreases |s|
  {
    hide KeyLe;
    var x :| x in s;
    var t := s - {x};
    KeyOrder(x, x);
    if t == {} {
      assert s == {x};
      assert IsLeast(x, s);
    } else {
      LeastExists(t);
      var y :| IsLeast(y, t);
      KeyOrder(x, y);
      if KeyLe(y, x) {
        assert IsLeast(y, s);
      } else {
        forall j | j in s ensures KeyLe(x, j) {
          if j != x { KeyLeTransitive(x, y, j); }
        }
        assert IsLeast(x, s);
      }
    }
  }

  lemma LeastUnique(s: set<Key>)
    ensures forall a, b | IsLeast(a, s) && IsLeast(b, s) :: a == b
  {
    hide KeyLe;
    forall a, b | IsLeast(a, s) && IsLeast(b, s) ensures a == b { KeyOrder(a, b); }
  }

  function SortKeys(s: set<Key>): (r: seq<Key>)
    ensures |r| == |s|
    ensures forall k :: k in r <==> k in s
    decreases |s|
  {
    if s == {} then []
    else
      LeastExists(s);
      LeastUnique(s);
      var k :| IsLeast(k, s);
      [k] + SortKeys(s - {k})
  }

  /** The order really is canonical: strictly increasing, so no key twice. */
  lemma {:induction false} SortKeysSorted(s: set<Key>, i: nat, j: nat)
    requires i < j < |s|
    ensures KeyLe(SortKeys(s)[i], SortKeys(s)[j]) && SortKeys(s)[i] != SortKeys(s)[j]
    decreases |s|
  {
    hide KeyLe;
    var k := SortKeys(s)[0];
    var tail := SortKeys(s - {k});
    LeastUnique(s);
    assert IsLeast(k, s) && SortKeys(s) == [k] + tail;
    if i == 0 {
      assert tail[j - 1] in tail;
    } else {
      SortKeysSorted(s - {k}, i - 1, j - 1);
    }
  }

  /** Any strictly increasing enumeration of the keys is the canonical one. */
  lemma {:induction false} SortKeysIs(ks: seq<Key>, s: set<Key>)
    requires forall k :: k in ks <==> k in s
    requires forall i, j | 0 <= i < j < |ks| :: KeyLe(ks[i], ks[j]) && ks[i] != ks[j]
    ensures SortKeys(s) == ks
    decreases |s|
  {
    hide KeyLe;
    if ks == [] {
      assert s == {};
    } else {
      var k := ks[0];
      assert k in s;
      KeyOrder(k, k);
      assert IsLeast(k, s);
      LeastUnique(s);
      forall x ensures x in ks[1..] <==> x in s - {k} {
        if x in s - {k} { assert x in ks; }
      }
      SortKeysIs(ks[1..], s - {k});
      assert ks == [k] + ks[1..];
    }
  }

  function FlatPairs(ks: seq<Key>, m: map<Key, Item>): (r: seq<Item>)
    requires forall k | k in ks :: k in m
    ensures |r| == |ks| + |ks|
  {
    if ks == [] then [] else [KeyItem(ks[0]), m[ks[0]]] + FlatPairs(ks[1..], m)
  }

  /** A Go map or struct, keys in canonical order. */
  function MkMap(m: map<Key, Item>): Item {
    Map(MinWidth(|m|), FlatPairs(SortKeys(m.Keys), m))
  }
}
