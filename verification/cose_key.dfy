/** COSE_Key (section 7 of RFC 9052) for EC2 keys on the three allowed curves. */
module CoseKey {
  import opened Basics
  import opened CborSyntax
  import opened Codec
  import opened Structs
  import opened Primitives
  import opened CoseSign1

  // ----- curves (section 7.1 of RFC 9053) -----

  function CurveForLabel(crv: int): Curve {
    match crv
    case 1 => P256
    case 2 => P384
    case 3 => P521
    case _ => OtherCurve
  }

  function LabelOf(c: Curve): int
    requires c != OtherCurve
  {
    match c case P256 => 1 case P384 => 2 case P521 => 3
  }

  /** Bytes of one coordinate: the field size in bits, rounded up. */
  function FieldSize(c: Curve): nat {
    match c
    case P256 => (256 + 7) / 8
    case P384 => (384 + 7) / 8
    case P521 => (521 + 7) / 8
    case OtherCurve => 0
  }

  /** The policy admits the three curves above and no other. */
  predicate AllowedCurve(c: Curve) { c != OtherCurve }

  /** An uncompressed point of the right length on the curve. */
  predicate ValidPoint(env: Env, c: Curve, point: bytes) {
    AllowedCurve(c) && |point| == 1 + 2 * FieldSize(c) && point[0] == 0x04 && env.onCurve(c, point)
  }

  predicate ValidKey(env: Env, key: PublicKey) {
    key.EcKey? && ValidPoint(env, key.curve, key.point)
  }

  // ----- encoding -----

  function KeyMembers(c: Curve, x: bytes, y: bytes): map<Key, Item>
    requires AllowedCurve(c)
  {
    map[KInt(1) := MkInt(2), KInt(-1) := MkInt(LabelOf(c)), KInt(-2) := MkBlob(x), KInt(-3) := MkBlob(y)]
  }

  function KeyStruct(c: Curve, x: bytes, y: bytes): Item
    requires AllowedCurve(c)
  {
    MkMap(KeyMembers(c, x, y))
  }

  /** The two halves of the SEC 1 encoding after its 0x04 byte. */
  function PointX(point: bytes): bytes
    requires |point| > 0
  {
    point[1..1 + (|point| - 1) / 2]
  }

  function PointY(point: bytes): bytes
    requires |point| > 0
  {
    point[1 + (|point| - 1) / 2..]
  }

  function EncodeCOSEKey(env: Env, key: PublicKey): Result<bytes> {
    if !ValidKey(env, key) then Err(ErrUnsupported)
    else Encode(KeyStruct(key.curve, PointX(key.point), PointY(key.point)))
  }

  // ----- parsing -----

  function PadPoint(size: nat, x: bytes, y: bytes): (r: bytes)
    requires |x| <= size && |y| <= size
  {
    [0x04] + (Zeros(size - |x|) + x) + (Zeros(size - |y|) + y)
  }

  /** A zeroed buffer, the 0x04 byte, and the coordinates copied to the right ends of their slots. */
  method FillPoint(size: nat, x: bytes, y: bytes) returns (pt: array<Byte>)
    requires |x| <= size && |y| <= size
    ensures fresh(pt) && pt[..] == PadPoint(size, x, y)
  {
    pt := new Byte[1 + 2 * size](_ => 0);
    pt[0] := 0x04;
    var atX, atY := 1 + size - |x|, 1 + 2 * size - |y|;
    for i := 0 to |x|
      invariant pt[0] == 0x04
      invariant forall k | 1 <= k < pt.Length :: pt[k] == if atX <= k < atX + i then x[k - atX] else 0
    {
      pt[atX + i] := x[i];
    }
    for i := 0 to |y|
      invariant pt[0] == 0x04
      invariant forall k | 1 <= k < pt.Length ::
                  pt[k] == if atX <= k < atX + |x| then x[k - atX] else if atY <= k < atY + i then y[k - atY] else 0
    {
      pt[atY + i] := y[i];
    }
  }

  function KeyOfCoordinates(env: Env, c: Curve, x: bytes, y: bytes): Result<PublicKey> {
    if |x| > FieldSize(c) || |y| > FieldSize(c) then Err(ErrMalformed)
    else
      var point := PadPoint(FieldSize(c), x, y);
      if ValidPoint(env, c, point) then Ok(EcKey(c, point)) else Err(ErrMalformed)
  }

  function IntMember(m: map<Key, Item>, crv: int): Option<int> {
    if KInt(crv) in m then AsInt(m[KInt(crv)]) else None
  }

  function BlobMember(m: map<Key, Item>, crv: int): Option<bytes> {
    if KInt(crv) in m then AsBlob(m[KInt(crv)]) else None
  }

  function KeyOfMembers(env: Env, m: map<Key, Item>): Result<PublicKey> {
    if IntMember(m, 1) != Some(2) then Err(ErrUnsupported)
    else
      match IntMember(m, -1)
      case None => Err(ErrMalformed)
      case Some(crv) =>
        var c := CurveForLabel(crv);
        if !AllowedCurve(c) then Err(ErrUnsupported)
        else
          match (BlobMember(m, -2), BlobMember(m, -3))
          case (Some(x), Some(y)) => KeyOfCoordinates(env, c, x, y)
          case _ => Err(ErrMalformed)
  }

  function ParseCOSEKey(env: Env, raw: bytes): Result<PublicKey> {
    match Decode(raw)
    case Err(e) => Err(e)
    case Ok(v) =>
      match AsIntMap(v)
      case None => Err(ErrMalformed)
      case Some(m) => KeyOfMembers(env, m)
  }

  method ParseKey(env: Env, raw: bytes) returns (r: Result<PublicKey>)
    ensures r == ParseCOSEKey(env, raw)
  {
    var v :- DecodeStream(raw);
    var members := AsIntMap(v);
    if members.None? {
      return Err(ErrMalformed);
    }
    var m := members.value;
    if IntMember(m, 1) != Some(2) {
      return Err(ErrUnsupported);
    }
    var crv := IntMember(m, -1);
    if crv.None? {
      return Err(ErrMalformed);
    }
    var c := CurveForLabel(crv.value);
    if !AllowedCurve(c) {
      return Err(ErrUnsupported);
    }
    var x, y := BlobMember(m, -2), BlobMember(m, -3);
    if x.None? || y.None? || |x.value| > FieldSize(c) || |y.value| > FieldSize(c) {
      return Err(ErrMalformed);
    }
    var pt := FillPoint(FieldSize(c), x.value, y.value);
    if !ValidPoint(env, c, pt[..]) {
      return Err(ErrMalformed);
    }
    return Ok(EcKey(c, pt[..]));
  }

  // ----- padding -----

  /** The buffer is 0x04 and two disjoint slots that hold the same integers as x and y. */
  lemma PadPointSlots(size: nat, x: bytes, y: bytes)
    requires |x| <= size && |y| <= size
    ensures var pt := PadPoint(size, x, y);
            |pt| == 1 + 2 * size && pt[0] == 0x04 &&
            FromBigEndian(pt[1..1 + size]) == FromBigEndian(x) &&
            FromBigEndian(pt[1 + size..]) == FromBigEndian(y)
  {
    var pt := PadPoint(size, x, y);
    assert pt[1..1 + size] == Zeros(size - |x|) + x;
    assert pt[1 + size..] == Zeros(size - |y|) + y;
    LeadingZerosVanish(size - |x|, x);
    LeadingZerosVanish(size - |y|, y);
  }

  /** Leading zero bytes of a coordinate, present or dropped, do not change the key. */
  lemma LeadingZerosIrrelevant(env: Env, c: Curve, x: bytes, y: bytes, j: nat, k: nat)
    requires j + |x| <= FieldSize(c) && k + |y| <= FieldSize(c)
    ensures KeyOfCoordinates(env, c, Zeros(j) + x, Zeros(k) + y) == KeyOfCoordinates(env, c, x, y)
  {
    hide FieldSize;
    var size := FieldSize(c);
    assert Zeros(size - j - |x|) + (Zeros(j) + x) == Zeros(size - |x|) + x;
    assert Zeros(size - k - |y|) + (Zeros(k) + y) == Zeros(size - |y|) + y;
  }

  // ----- round trip -----

  lemma KeyMembersSize(c: Curve, x: bytes, y: bytes)
    requires AllowedCurve(c)
    ensures |KeyMembers(c, x, y)| == 4
  {
    hide LabelOf, MkBlob, MkInt;
    var m := KeyMembers(c, x, y);
    assert m.Keys == {KInt(1), KInt(-1), KInt(-2), KInt(-3)};
  }

  lemma KeyMembersFit(c: Curve, x: bytes, y: bytes)
    requires AllowedCurve(c) && |x| < MAX_LENGTH && |y| < MAX_LENGTH
    ensures forall k | k in KeyMembers(c, x, y) :: KeyFits(k) && WF(KeyMembers(c, x, y)[k])
    ensures forall k | k in KeyMembers(c, x, y) :: InLimits(KeyMembers(c, x, y)[k], 0)
    ensures forall k | k in KeyMembers(c, x, y) :: k.KInt? && -4 < k.n < 2
  {
  }

  lemma KeyStructFacts(c: Curve, x: bytes, y: bytes)
    requires AllowedCurve(c) && |x| < MAX_LENGTH && |y| < MAX_LENGTH
    ensures WF(KeyStruct(c, x, y)) && InLimits(KeyStruct(c, x, y), 1)
    ensures AsIntMap(KeyStruct(c, x, y)) == Some(KeyMembers(c, x, y))
  {
    hide WF, InLimits, MkMap, AsMap, KeyFits, KeyMembers;
    var m := KeyMembers(c, x, y);
    KeyMembersSize(c, x, y);
    KeyMembersFit(c, x, y);
    MkMapWF(m);
    MkMapInLimits(m, 1);
    AsMapMkMap(m);
  }

  lemma KeyOfKeyMembers(env: Env, c: Curve, x: bytes, y: bytes)
    requires AllowedCurve(c)
    ensures KeyOfMembers(env, KeyMembers(c, x, y)) == KeyOfCoordinates(env, c, x, y)
  {
    hide KeyOfCoordinates;
    var m := KeyMembers(c, x, y);
    assert IntMember(m, 1) == Some(2) && IntMember(m, -1) == Some(LabelOf(c));
    assert BlobMember(m, -2) == Some(x) && BlobMember(m, -3) == Some(y);
    hide IntMember, BlobMember, KeyMembers;
  }

  /** Parsing an encoded EC2 structure reads off exactly its curve and coordinates. */
  lemma ParseKeyStruct(env: Env, c: Curve, x: bytes, y: bytes)
    requires AllowedCurve(c) && |x| < MAX_LENGTH && |y| < MAX_LENGTH
    ensures ParseCOSEKey(env, Print(KeyStruct(c, x, y))) == KeyOfCoordinates(env, c, x, y)
  {
    hide WF, InLimits, KeyStruct, AsIntMap, Print, Decode, KeyOfCoordinates, KeyOfMembers, KeyMembers,
         AllowedCurve;
    KeyStructFacts(c, x, y);
    InLimitsMonotone(KeyStruct(c, x, y), 1, 16);
    DecodeEncode(KeyStruct(c, x, y));
    KeyOfKeyMembers(env, c, x, y);
  }

  /** On the wire: a key with leading zero bytes in its coordinates parses as the key without. */
  lemma StrippedKeysParseAlike(env: Env, c: Curve, x: bytes, y: bytes, j: nat, k: nat)
    requires AllowedCurve(c) && j + |x| <= FieldSize(c) && k + |y| <= FieldSize(c)
    ensures ParseCOSEKey(env, Print(KeyStruct(c, Zeros(j) + x, Zeros(k) + y))) ==
            ParseCOSEKey(env, Print(KeyStruct(c, x, y)))
  {
    hide ParseCOSEKey, KeyStruct, Print, KeyOfCoordinates;
    assert FieldSize(c) < 100;
    hide FieldSize, AllowedCurve;
    ParseKeyStruct(env, c, Zeros(j) + x, Zeros(k) + y);
    ParseKeyStruct(env, c, x, y);
    LeadingZerosIrrelevant(env, c, x, y, j, k);
  }

  lemma PadPointRestores(env: Env, key: PublicKey)
    requires ValidKey(env, key)
    ensures var x, y := PointX(key.point), PointY(key.point);
            |x| < MAX_LENGTH && |y| < MAX_LENGTH && KeyOfCoordinates(env, key.curve, x, y) == Ok(key)
  {
    var x, y := PointX(key.point), PointY(key.point);
    assert Zeros(0) == [];
    assert PadPoint(FieldSize(key.curve), x, y) == key.point;
  }

  /** A key survives being sealed and read back. */
  lemma KeyRoundTrip(env: Env, key: PublicKey)
    requires ValidKey(env, key)
    ensures EncodeCOSEKey(env, key).Ok?
    ensures ParseCOSEKey(env, EncodeCOSEKey(env, key).value) == Ok(key)
    ensures WF(KeyStruct(key.curve, PointX(key.point), PointY(key.point)))
    ensures InLimits(KeyStruct(key.curve, PointX(key.point), PointY(key.point)), 1)
  {
    hide WF, InLimits, KeyStruct, ParseCOSEKey, Print, KeyOfCoordinates, PointX, PointY;
    PadPointRestores(env, key);
    KeyStructFacts(key.curve, PointX(key.point), PointY(key.point));
    ParseKeyStruct(env, key.curve, PointX(key.point), PointY(key.point));
  }

  /** Exactly the valid keys on allowed curves can be sealed, and parsing yields only such keys. */
  lemma ParsedKeysAreValid(env: Env, raw: bytes)
    requires ParseCOSEKey(env, raw).Ok?
    ensures ValidKey(env, ParseCOSEKey(env, raw).value)
    ensures EncodeCOSEKey(env, ParseCOSEKey(env, raw).value).Ok?
  {
    hide Decode, AsIntMap, PadPoint;
    KeyRoundTrip(env, ParseCOSEKey(env, raw).value);
  }

  lemma PointHalves(size: nat, x: bytes, y: bytes)
    requires |x| <= size && |y| <= size
    ensures var pt := PadPoint(size, x, y); PointX(pt) == Zeros(size - |x|) + x && PointY(pt) == Zeros(size - |y|) + y
  {
    var pt := PadPoint(size, x, y);
    assert (|pt| - 1) / 2 == size;
  }

  /** What a parsed key says about the bytes: an EC2 structure whose curve label is the key's and
      whose coordinates, no longer than the field, are the point's as integers. */
  lemma ParsedKeyMeaning(env: Env, raw: bytes)
    requires ParseCOSEKey(env, raw).Ok?
    ensures Decode(raw).Ok? && AsIntMap(Decode(raw).value).Some?
    ensures var m, key := AsIntMap(Decode(raw).value).value, ParseCOSEKey(env, raw).value;
            IntMember(m, 1) == Some(2) && AllowedCurve(key.curve) && IntMember(m, -1) == Some(LabelOf(key.curve)) &&
            BlobMember(m, -2).Some? && BlobMember(m, -3).Some? &&
            |BlobMember(m, -2).value| <= FieldSize(key.curve) && |BlobMember(m, -3).value| <= FieldSize(key.curve) &&
            |key.point| > 0 && FromBigEndian(PointX(key.point)) == FromBigEndian(BlobMember(m, -2).value) &&
            FromBigEndian(PointY(key.point)) == FromBigEndian(BlobMember(m, -3).value)
  {
    hide Decode, AsIntMap, PadPoint, IntMember, BlobMember, FromBigEndian, PointX, PointY;
    var m := AsIntMap(Decode(raw).value).value;
    var key := ParseCOSEKey(env, raw).value;
    var x, y := BlobMember(m, -2).value, BlobMember(m, -3).value;
    var size := FieldSize(key.curve);
    assert key.point == PadPoint(size, x, y);
    PadPointSlots(size, x, y);
    PointHalves(size, x, y);
    LeadingZerosVanish(size - |x|, x);
    LeadingZerosVanish(size - |y|, y);
  }
}
