/**
 Data element values: the dynamic values that encode and decode through an untyped target.
 Maps decode with string keys, tags 0 and 1 as times, tags 2 and 3 as big integers, and the
 self-describing tag is dropped. Floats and unassigned simple values stay opaque.
 */
module GoValues {
  import opened Basics
  import opened CborSyntax
  import opened Codec
  import opened Structs
  import opened Primitives

  /** `GBig` is an arbitrary-precision integer, `GTime` an instant. */
  datatype GoVal =
    | GNil
    | GBool(b: bool)
    | GInt(n: int)
    | GBig(big: int)
    | GStr(s: bytes)
    | GBytes(data: bytes)
    | GTime(t: Time)
    | GList(elems: seq<GoVal>)
    | GMap(entries: map<bytes, GoVal>)
    | GTag(number: nat, content: GoVal)
    | GPrim(w: nat, arg: nat)

  const TWO_63: int := 0x8000_0000_0000_0000
  const TWO_64: int := 0x1_0000_0000_0000_0000

  /** Tag 55799 of section 3.4.6 of RFC 8949. */
  const SELF_DESCRIBED: nat := 55799

  // ----- encoding -----

  /** Go's zero time is null; any other time is tag 0 around RFC 3339 text. */
  function TimeItem(env: Env, t: Time): Item {
    if t == ZERO_TIME then Null else MkTag(0, MkText(env.formatTime(t)))
  }

  /** The shortest big-endian form. */
  function Magnitude(n: nat): (r: bytes)
    ensures FromBigEndian(r) == n
  {
    if n == 0 then []
    else
      var r := Magnitude(n / 256) + [n % 256];
      assert r[..|r| - 1] == Magnitude(n / 256);
      r
  }

  /** A big integer is an integer when a head can carry it, and a bignum otherwise. */
  function BigItem(n: int): Item {
    if -TWO_64 <= n < TWO_64 then MkInt(n)
    else if n >= 0 then MkTag(2, MkBlob(Magnitude(n)))
    else MkTag(3, MkBlob(Magnitude(-1 - n)))
  }

  /** The zero tag value, number 0 around nil, is null. */
  function ValueItem(env: Env, v: GoVal): Item {
    match v
    case GNil => Null
    case GBool(b) => Simple(0, if b then 21 else 20)
    case GInt(n) => MkInt(n)
    case GBig(n) => BigItem(n)
    case GStr(s) => MkText(s)
    case GBytes(data) => MkBlob(data)
    case GTime(t) => TimeItem(env, t)
    case GList(elems) => MkArray(seq(|elems|, i requires 0 <= i < |elems| => ValueItem(env, elems[i])))
    case GMap(entries) => MkTextMap(map k | k in entries :: ValueItem(env, entries[k]))
    case GTag(number, content) =>
      if number == 0 && content == GNil then Null else MkTag(number, ValueItem(env, content))
    case GPrim(w, arg) => Simple(w, arg)
  }

  // ----- collecting -----

  /** All the values, if none is missing. */
  function AllOf<T>(s: seq<Option<T>>): (r: Option<seq<T>>)
    ensures r.Some? <==> forall i | 0 <= i < |s| :: s[i].Some?
    ensures r.Some? ==> |r.value| == |s| && forall i | 0 <= i < |s| :: r.value[i] == s[i].value
  {
    if forall i | 0 <= i < |s| :: s[i].Some?
    then Some(seq(|s|, i requires 0 <= i < |s| && s[i].Some? => s[i].value))
    else None
  }

  function AllIn<K, T>(m: map<K, Option<T>>): (r: Option<map<K, T>>)
    ensures r.Some? <==> forall k | k in m :: m[k].Some?
    ensures r.Some? ==> r.value.Keys == m.Keys && forall k | k in m :: r.value[k] == m[k].value
  {
    if forall k | k in m :: m[k].Some? then Some(map k | k in m :: m[k].value) else None
  }

  lemma AllInIs<K, T>(m: map<K, Option<T>>, want: map<K, T>)
    requires m.Keys == want.Keys && forall k | k in want :: m[k] == Some(want[k])
    ensures AllIn(m) == Some(want)
  {
    assert AllIn(m).value == want;
  }

  // ----- decoding -----

  /** Seconds from Go's zero time to 1970. */
  const UNIX_EPOCH: int := 62_135_596_800

  function EpochTime(seconds: int): Time { (UNIX_EPOCH + seconds) * SECOND }

  predicate IsFloatWidth(w: nat) { w == 2 || w == 4 || w == 8 }

  /** The content of tags 0 to 3 has one type each; a time must also parse. */
  function ReadBuiltIn(env: Env, tag: nat, content: Item): Option<GoVal>
    requires tag < 4
  {
    match (tag, content)
    case (0, Text(_, s)) => if Utf8(s) then TimeValue(env.parseTime(s)) else None
    case (1, UInt(_, n)) => if n < TWO_63 then Some(GTime(EpochTime(n))) else None
    case (1, NInt(_, n)) => if n < TWO_63 then Some(GTime(EpochTime(-1 - n))) else None
    case (1, Simple(w, bits)) => if IsFloatWidth(w) then Some(GTime(env.floatTime(w, bits))) else None
    case (2, Blob(_, b)) => Some(GBig(FromBigEndian(b)))
    case (3, Blob(_, b)) => Some(GBig(-1 - FromBigEndian(b)))
    case _ => None
  }

  function TimeValue(t: Option<Time>): Option<GoVal> {
    match t case None => None case Some(u) => Some(GTime(u))
  }

  /** Integers below the 64-bit signed range are big. */
  function IntValue(n: int): GoVal {
    if n >= -TWO_63 then GInt(n) else GBig(n)
  }

  function TagValue(tag: nat, v: Option<GoVal>): Option<GoVal> {
    match v case None => None case Some(c) => Some(GTag(tag, c))
  }

  function SimpleValue(w: nat, n: nat): GoVal {
    if w == 0 && (n == 20 || n == 21) then GBool(n == 21)
    else if w == 0 && (n == 22 || n == 23) then GNil
    else GPrim(w, n)
  }

  /** Decoding into an untyped target. Directly inside another tag, where `inTag` holds, the
      self-describing tag is kept. */
  function ReadIn(env: Env, x: Item, inTag: bool): Option<GoVal> {
    match x
    case UInt(_, n) => Some(GInt(n))
    case NInt(_, n) => Some(IntValue(-1 - n))
    case Blob(_, b) => Some(GBytes(b))
    case Text(_, s) => if Utf8(s) then Some(GStr(s)) else None
    case Array(_, items) =>
      (match AllOf(seq(|items|, i requires 0 <= i < |items| => ReadIn(env, items[i], false)))
       case None => None
       case Some(elems) => Some(GList(elems)))
    case Map(_, _) =>
      (match AsTextMap(x)
       case None => None
       case Some(m) =>
         match AllIn(map k | k in m :: ReadIn(env, m[k], false))
         case None => None
         case Some(entries) => Some(GMap(entries)))
    case Tag(_, n, content) =>
      if n < 4 then ReadBuiltIn(env, n, content)
      else if n == SELF_DESCRIBED && !inTag then ReadIn(env, content, false)
      else TagValue(n, ReadIn(env, content, true))
    case Simple(w, n) => Some(SimpleValue(w, n))
  }

  function ReadValue(env: Env, x: Item): Option<GoVal> { ReadIn(env, x, false) }

  // ----- what comes back -----

  /** A time comes back cut to what its text says, the zero time as nil. */
  function ReceivedTime(env: Env, t: Time): Option<GoVal> {
    if t == ZERO_TIME then Some(GNil)
    else if Utf8(env.formatTime(t)) then TimeValue(env.parseTime(env.formatTime(t)))
    else None
  }

  function ReceivedBig(n: int): GoVal {
    if -TWO_64 <= n < TWO_64 then IntValue(n) else GBig(n)
  }

  /** An integer content of tag 1. */
  function ReceivedEpoch(n: int): Option<GoVal> {
    if -TWO_63 <= n < TWO_63 then Some(GTime(EpochTime(n))) else None
  }

  function ReceivedBuiltIn(env: Env, tag: nat, content: GoVal): Option<GoVal>
    requires tag < 4
  {
    match (tag, content)
    case (0, GNil) => Some(GNil)
    case (0, GStr(s)) => if Utf8(s) then TimeValue(env.parseTime(s)) else None
    case (1, GInt(n)) => ReceivedEpoch(n)
    case (1, GBig(n)) => ReceivedEpoch(n)
    case (1, GPrim(w, bits)) => if IsFloatWidth(w) then Some(GTime(env.floatTime(w, bits))) else None
    case (2, GBytes(b)) => Some(GBig(FromBigEndian(b)))
    case (3, GBytes(b)) => Some(GBig(-1 - FromBigEndian(b)))
    case _ => None
  }

  /** What encoding and decoding make of a value, or that it is refused. */
  function ReceivedIn(env: Env, v: GoVal, inTag: bool): Option<GoVal> {
    match v
    case GNil => Some(GNil)
    case GBool(b) => Some(v)
    case GInt(n) => Some(IntValue(n))
    case GBig(n) => Some(ReceivedBig(n))
    case GStr(s) => if Utf8(s) then Some(v) else None
    case GBytes(_) => Some(v)
    case GTime(t) => ReceivedTime(env, t)
    case GList(elems) =>
      (match AllOf(seq(|elems|, i requires 0 <= i < |elems| => ReceivedIn(env, elems[i], false)))
       case None => None
       case Some(r) => Some(GList(r)))
    case GMap(entries) =>
      if exists k | k in entries :: !Utf8(k) then None
      else
        (match AllIn(map k | k in entries :: ReceivedIn(env, entries[k], false))
         case None => None
         case Some(r) => Some(GMap(r)))
    case GTag(n, content) =>
      if n < 4 then ReceivedBuiltIn(env, n, content)
      else if n == SELF_DESCRIBED && !inTag then ReceivedIn(env, content, false)
      else TagValue(n, ReceivedIn(env, content, true))
    case GPrim(w, arg) => Some(SimpleValue(w, arg))
  }

  function Received(env: Env, v: GoVal): Option<GoVal> { ReceivedIn(env, v, false) }

  lemma ReadInt(env: Env, n: int, inTag: bool)
    ensures ReadIn(env, MkInt(n), inTag) == Some(IntValue(n))
  {
  }

  lemma ReadBig(env: Env, n: int, inTag: bool)
    ensures ReadIn(env, BigItem(n), inTag) == Some(ReceivedBig(n))
  {
    hide Magnitude, FromBigEndian;
  }

  lemma ReadTimeValue(env: Env, t: Time, inTag: bool)
    ensures ReadIn(env, TimeItem(env, t), inTag) == ReceivedTime(env, t)
  {
  }

  /** No list, map or time becomes the content of a built-in tag that accepts it. */
  lemma CompoundItems(env: Env, v: GoVal)
    ensures v.GList? ==> ValueItem(env, v).Array?
    ensures v.GMap? ==> ValueItem(env, v).Map?
    ensures v.GTag? || v.GTime? ==> ValueItem(env, v).Tag? || ValueItem(env, v) == Null
  {
    hide Magnitude;
  }

  lemma ReadTimeText(env: Env, content: GoVal)
    requires content != GNil
    ensures ReadBuiltIn(env, 0, ValueItem(env, content)) == ReceivedBuiltIn(env, 0, content)
  {
    hide FromBigEndian, Utf8, Magnitude, MkTextMap, TimeValue, MkArray;
    CompoundItems(env, content);
  }

  lemma ReadEpoch(env: Env, content: GoVal)
    ensures ReadBuiltIn(env, 1, ValueItem(env, content)) == ReceivedBuiltIn(env, 1, content)
  {
    hide FromBigEndian, Utf8, Magnitude, MkTextMap, EpochTime, MkArray;
    CompoundItems(env, content);
  }

  lemma ReadBignum(env: Env, tag: nat, content: GoVal)
    requires tag == 2 || tag == 3
    ensures ReadBuiltIn(env, tag, ValueItem(env, content)) == ReceivedBuiltIn(env, tag, content)
  {
    hide FromBigEndian, Utf8, Magnitude, MkTextMap, MkArray;
    CompoundItems(env, content);
  }

  lemma ReadBuiltInItem(env: Env, tag: nat, content: GoVal)
    requires tag < 4 && !(tag == 0 && content == GNil)
    ensures ReadBuiltIn(env, tag, ValueItem(env, content)) == ReceivedBuiltIn(env, tag, content)
  {
    hide *;
    if tag == 0 {
      ReadTimeText(env, content);
    } else if tag == 1 {
      ReadEpoch(env, content);
    } else {
      ReadBignum(env, tag, content);
    }
  }

  lemma ReadListItem(env: Env, elems: seq<GoVal>, inTag: bool)
    requires forall i | 0 <= i < |elems| ::
               ReadIn(env, ValueItem(env, elems[i]), false) == ReceivedIn(env, elems[i], false)
    ensures ReadIn(env, ValueItem(env, GList(elems)), inTag) == ReceivedIn(env, GList(elems), inTag)
  {
    var items := seq(|elems|, i requires 0 <= i < |elems| => ValueItem(env, elems[i]));
    assert ValueItem(env, GList(elems)) == MkArray(items);
    var read := seq(|items|, i requires 0 <= i < |items| => ReadIn(env, items[i], false));
    assert read == seq(|elems|, i requires 0 <= i < |elems| => ReceivedIn(env, elems[i], false));
  }

  function ReadEach(env: Env, m: map<bytes, Item>): map<bytes, Option<GoVal>> {
    map k | k in m :: ReadIn(env, m[k], false)
  }

  function ReceivedEach(env: Env, m: map<bytes, GoVal>): map<bytes, Option<GoVal>> {
    map k | k in m :: ReceivedIn(env, m[k], false)
  }

  function MapValue(r: Option<map<bytes, GoVal>>): Option<GoVal> {
    match r case None => None case Some(entries) => Some(GMap(entries))
  }

  lemma ReadMapUnfolds(env: Env, x: Item, inTag: bool)
    requires x.Map?
    ensures ReadIn(env, x, inTag) ==
            match AsTextMap(x)
            case None => None
            case Some(m) => MapValue(AllIn(ReadEach(env, m)))
  {
    hide AsTextMap, AllIn;
    if AsTextMap(x).Some? {
      var m := AsTextMap(x).value;
      assert ReadEach(env, m) == map k | k in m :: ReadIn(env, m[k], false);
    }
  }

  lemma MkTextMapIsMap(m: map<bytes, Item>)
    ensures MkTextMap(m).Map?
  {
  }

  /** A canonical map reads as the map of what its members read as. */
  lemma ReadMapItem(env: Env, items: map<bytes, Item>, inTag: bool)
    ensures ReadIn(env, MkTextMap(items), inTag) ==
            if forall k | k in items :: Utf8(k) then MapValue(AllIn(ReadEach(env, items))) else None
  {
    hide Utf8, AsTextMap, MkTextMap, ReadIn, AllIn, ReadEach;
    MkTextMapIsMap(items);
    AsTextMapMkTextMap(items);
    ReadMapUnfolds(env, MkTextMap(items), inTag);
  }

  lemma ReadTextMapValue(env: Env, items: map<bytes, Item>, entries: map<bytes, GoVal>)
    requires items.Keys == entries.Keys
    requires forall k | k in items :: Utf8(k) && ReadValue(env, items[k]) == Some(entries[k])
    ensures ReadValue(env, MkTextMap(items)) == Some(GMap(entries))
  {
    hide Utf8, AllIn, ReadIn, MkTextMap;
    ReadMapItem(env, items, false);
    AllInIs(ReadEach(env, items), entries);
  }

  function EntryItems(env: Env, entries: map<bytes, GoVal>): map<bytes, Item> {
    map k | k in entries :: ValueItem(env, entries[k])
  }

  lemma EntriesItem(env: Env, entries: map<bytes, GoVal>)
    ensures ValueItem(env, GMap(entries)) == MkTextMap(EntryItems(env, entries))
  {
    hide MkTextMap, TimeItem, BigItem, MkInt, MkText, MkBlob, MkArray, MkTag;
    assert EntryItems(env, entries) == map k | k in entries :: ValueItem(env, entries[k]);
  }

  lemma ReceivedMap(env: Env, entries: map<bytes, GoVal>, inTag: bool)
    ensures ReceivedIn(env, GMap(entries), inTag) ==
            if forall k | k in entries :: Utf8(k) then MapValue(AllIn(ReceivedEach(env, entries))) else None
  {
    hide Utf8, AllIn;
    assert ReceivedEach(env, entries) == map k | k in entries :: ReceivedIn(env, entries[k], false);
  }

  lemma ReadEntries(env: Env, entries: map<bytes, GoVal>, inTag: bool)
    requires forall k | k in entries ::
               ReadIn(env, ValueItem(env, entries[k]), false) == ReceivedIn(env, entries[k], false)
    ensures ReadIn(env, ValueItem(env, GMap(entries)), inTag) == ReceivedIn(env, GMap(entries), inTag)
  {
    hide Utf8, AllIn, ReadIn, ReceivedIn, MkTextMap, ValueItem;
    EntriesItem(env, entries);
    ReceivedMap(env, entries, inTag);
    ReadMapItem(env, EntryItems(env, entries), inTag);
    assert ReadEach(env, EntryItems(env, entries)) == ReceivedEach(env, entries);
    assert EntryItems(env, entries).Keys == entries.Keys;
  }

  lemma TagItem(env: Env, number: nat, content: GoVal)
    requires !(number == 0 && content == GNil)
    ensures ValueItem(env, GTag(number, content)) == MkTag(number, ValueItem(env, content))
  {
    hide MkTag;
  }

  lemma ReadTagUnfolds(env: Env, number: nat, x: Item, inTag: bool)
    ensures ReadIn(env, MkTag(number, x), inTag) ==
            if number < 4 then ReadBuiltIn(env, number, x)
            else if number == SELF_DESCRIBED && !inTag then ReadIn(env, x, false)
            else TagValue(number, ReadIn(env, x, true))
  {
    hide ReadBuiltIn;
  }

  lemma ReadTagged(env: Env, number: nat, content: GoVal, inTag: bool)
    requires !(number == 0 && content == GNil)
    requires forall b :: ReadIn(env, ValueItem(env, content), b) == ReceivedIn(env, content, b)
    ensures ReadIn(env, ValueItem(env, GTag(number, content)), inTag) == ReceivedIn(env, GTag(number, content), inTag)
  {
    hide ReadBuiltIn, ReceivedBuiltIn, ReadIn, ValueItem, MkTag;
    TagItem(env, number, content);
    ReadTagUnfolds(env, number, ValueItem(env, content), inTag);
    if number < 4 {
      ReadBuiltInItem(env, number, content);
    }
  }

  /** Decoding an encoded value gives exactly what `Received` says, and refuses exactly the values
      it refuses. */
  lemma {:induction false} ReadInItem(env: Env, v: GoVal, inTag: bool)
    ensures ReadIn(env, ValueItem(env, v), inTag) == ReceivedIn(env, v, inTag)
    decreases v
  {
    match v
    case GInt(n) => ReadInt(env, n, inTag);
    case GBig(n) => ReadBig(env, n, inTag);
    case GTime(t) => ReadTimeValue(env, t, inTag);
    case GList(elems) =>
      forall i | 0 <= i < |elems|
        ensures ReadIn(env, ValueItem(env, elems[i]), false) == ReceivedIn(env, elems[i], false)
      {
        assert elems[i] in elems;
        ReadInItem(env, elems[i], false);
      }
      ReadListItem(env, elems, inTag);
    case GMap(entries) =>
      forall k | k in entries
        ensures ReadIn(env, ValueItem(env, entries[k]), false) == ReceivedIn(env, entries[k], false)
      {
        ReadInItem(env, entries[k], false);
      }
      ReadEntries(env, entries, inTag);
    case GTag(number, content) =>
      if !(number == 0 && content == GNil) {
        forall b ensures ReadIn(env, ValueItem(env, content), b) == ReceivedIn(env, content, b) {
          ReadInItem(env, content, b);
        }
        ReadTagged(env, number, content, inTag);
      }
    case _ =>
  }

  lemma ReadValueItem(env: Env, v: GoVal)
    ensures ReadValue(env, ValueItem(env, v)) == Received(env, v)
  {
    ReadInItem(env, v, false);
  }

  /** Values that come back as they are: integers of 64 bits, UTF-8 texts, times on whole seconds
      whose text parses, and tags other than the ones with a meaning. */
  predicate Clean(env: Env, v: GoVal) {
    match v
    case GInt(n) => -TWO_63 <= n
    case GBig(n) => n < -TWO_63 || TWO_64 <= n
    case GStr(s) => Utf8(s)
    case GTime(t) => t != ZERO_TIME && Utf8(env.formatTime(t)) && env.parseTime(env.formatTime(t)) == Some(t)
    case GList(elems) => forall e | e in elems :: Clean(env, e)
    case GMap(entries) => forall k | k in entries :: Utf8(k) && Clean(env, entries[k])
    case GTag(number, content) => number >= 4 && number != SELF_DESCRIBED && Clean(env, content)
    case GPrim(w, arg) => !(w == 0 && 20 <= arg <= 23)
    case _ => true
  }

  /** A clean value survives unchanged. */
  lemma {:induction false} CleanIsReceived(env: Env, v: GoVal, inTag: bool)
    requires Clean(env, v)
    ensures ReceivedIn(env, v, inTag) == Some(v)
    decreases v
  {
    match v
    case GList(elems) =>
      forall i | 0 <= i < |elems| ensures ReceivedIn(env, elems[i], false) == Some(elems[i]) {
        assert elems[i] in elems;
        CleanIsReceived(env, elems[i], false);
      }
      var r := seq(|elems|, i requires 0 <= i < |elems| => ReceivedIn(env, elems[i], false));
      assert AllOf(r).value == elems;
    case GMap(entries) =>
      forall k | k in entries ensures ReceivedIn(env, entries[k], false) == Some(entries[k]) {
        CleanIsReceived(env, entries[k], false);
      }
      ReceivedMap(env, entries, inTag);
      AllInIs(ReceivedEach(env, entries), entries);
    case GTag(_, content) => CleanIsReceived(env, content, true);
    case _ =>
  }

  /** Tags with a meaning are not carried as tags: a text under tag 0 must parse, and the
      self-describing tag disappears. */
  lemma BuiltInTags(env: Env, s: bytes, v: GoVal)
    requires Utf8(s)
    ensures Received(env, GTag(0, GStr(s))) == TimeValue(env.parseTime(s))
    ensures Received(env, GTag(SELF_DESCRIBED, v)) == Received(env, v)
    ensures Received(env, GTag(2, GStr(s))) == None
  {
    hide Utf8;
  }
}
