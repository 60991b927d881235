/** The MSO status extension: an IETF Token Status List reference. */
module StatusRefs {
  import opened Basics
  import opened CborSyntax
  import opened Codec
  import opened Structs
  import opened GoValues
  import opened Primitives
  import opened Wire

  datatype StatusRef = StatusRef(uri: bytes, index: nat, raw: map<bytes, GoVal>)

  function ListFields(uri: bytes, index: nat): Fields {
    map[FUri := MkText(uri), FIdx := MkUInt(index)]
  }

  function StatusFields(uri: bytes, index: nat): Fields {
    map[FStatusList := MkStruct(ListFields(uri, index))]
  }

  /** What the issuer writes; no status leaves the member out. */
  function EncodeStatus(status: Option<StatusRef>): Result<bytes> {
    match status
    case None => Ok([])
    case Some(s) => Encode(MkStruct(StatusFields(s.uri, s.index)))
  }

  /** The untyped map, null counting as empty. */
  function ReadAnyMap(env: Env, x: Item): Option<map<bytes, GoVal>> {
    if IsNil(x) then Some(map[])
    else
      match ReadValue(env, x)
      case Some(GMap(m)) => Some(m)
      case _ => None
  }

  /** Absent is no status; present but not a usable reference is a hard failure. */
  function ParseMSOStatus(env: Env, raw: bytes): Result<Option<StatusRef>> {
    if raw == [] then Ok(None)
    else
      match Decode(raw)
      case Err(_) => Err(ErrStatus)
      case Ok(x) =>
        match (ReadAnyMap(env, x), FieldsOf(x))
        case (Some(full), Some(f)) =>
          if IsNil(Get(f, FStatusList)) then Err(ErrStatus)
          else
            (match FieldsOf(Get(f, FStatusList))
             case None => Err(ErrStatus)
             case Some(g) =>
               match (AsUint(Get(g, FIdx)), AsText(Get(g, FUri)))
               case (Some(index), Some(uri)) =>
                 if uri == [] then Err(ErrStatus) else Ok(Some(StatusRef(uri, index, full)))
               case _ => Err(ErrStatus))
        case _ => Err(ErrStatus)
  }

  // ----- the parser undoes the writer -----

  /** The members of a struct under their spelled-out names. */
  function Named<T>(g: map<Name, T>): map<bytes, T> {
    hide NameBytes;
    NamesInjective();
    map n | n in g :: NameBytes(n) := g[n]
  }

  lemma NamedAt<T>(g: map<Name, T>)
    ensures forall n | n in g :: NameBytes(n) in Named(g) && Named(g)[NameBytes(n)] == g[n]
    ensures forall s | s in Named(g) :: exists n | n in g :: s == NameBytes(n)
  {
    hide NameBytes;
    NamesInjective();
  }

  lemma StructIsTextMap(f: Fields)
    ensures MkStruct(f) == MkTextMap(Named(f))
  {
    hide NameBytes, MkMap;
    FieldKeysAt(f);
    NamedAt(f);
    hide Named;
    assert FieldKeys(f) == TextKeys(Named(f));
  }

  /** A struct decodes into an untyped target as the map of its members. */
  lemma ReadStructValue(env: Env, f: Fields, g: map<Name, GoVal>)
    requires f.Keys == g.Keys && forall n | n in f :: ReadValue(env, f[n]) == Some(g[n])
    ensures ReadValue(env, MkStruct(f)) == Some(GMap(Named(g)))
  {
    hide NameBytes, MkTextMap, MkStruct, ReadValue, Named, Utf8;
    StructIsTextMap(f);
    NamedAt(f);
    NamedAt(g);
    forall s | s in Named(f) ensures Utf8(s) && s in Named(g) && ReadValue(env, Named(f)[s]) == Some(Named(g)[s]) {
      var n :| n in f && s == NameBytes(n);
      NameBytesReadable(n);
    }
    assert Named(f).Keys == Named(g).Keys;
    ReadTextMapValue(env, Named(f), Named(g));
  }

  function ListValues(uri: bytes, index: nat): map<Name, GoVal> {
    map[FUri := GStr(uri), FIdx := GInt(index)]
  }

  function StatusValues(uri: bytes, index: nat): map<Name, GoVal> {
    map[FStatusList := GMap(Named(ListValues(uri, index)))]
  }

  /** The reference as an untyped map. */
  function StatusMap(uri: bytes, index: nat): map<bytes, GoVal> { Named(StatusValues(uri, index)) }

  lemma ReadScalars(env: Env, uri: bytes, index: nat)
    requires Utf8(uri)
    ensures ReadValue(env, MkText(uri)) == Some(GStr(uri)) && ReadValue(env, MkUInt(index)) == Some(GInt(index))
  {
  }

  lemma ReadListValues(env: Env, uri: bytes, index: nat)
    requires Utf8(uri)
    ensures ReadValue(env, MkStruct(ListFields(uri, index))) == Some(GMap(Named(ListValues(uri, index))))
  {
    hide ReadValue, Utf8, MkStruct, Named, MkText, MkUInt;
    ReadScalars(env, uri, index);
    assert ListFields(uri, index).Keys == {FUri, FIdx} == ListValues(uri, index).Keys;
    ReadStructValue(env, ListFields(uri, index), ListValues(uri, index));
  }

  lemma ReadStatusFields(env: Env, uri: bytes, index: nat)
    requires Utf8(uri)
    ensures ReadValue(env, MkStruct(StatusFields(uri, index))) == Some(GMap(StatusMap(uri, index)))
  {
    hide ReadValue, Utf8, MkStruct, Named, ListFields, ListValues;
    ReadListValues(env, uri, index);
    assert StatusFields(uri, index).Keys == {FStatusList} == StatusValues(uri, index).Keys;
    ReadStructValue(env, StatusFields(uri, index), StatusValues(uri, index));
  }

  lemma StatusInLimits(uri: bytes, index: nat)
    ensures InLimits(MkStruct(StatusFields(uri, index)), 2)
  {
    ScalarsInLimits(index, [], uri, 0);
    hide InLimits, MkStruct, MkText, MkUInt;
    MkStructInLimits(ListFields(uri, index), 1);
    MkStructInLimits(StatusFields(uri, index), 2);
  }

  lemma MkStructIsMap(f: Fields)
    ensures MkStruct(f).Map?
  {
  }

  /** A written reference with a non-empty URI is read back with the same URI and index, and
      with its full content preserved. */
  lemma StatusRoundTrip(env: Env, s: StatusRef)
    requires EncodeStatus(Some(s)).Ok? && s.uri != [] && Utf8(s.uri)
    ensures ParseMSOStatus(env, EncodeStatus(Some(s)).value) == Ok(Some(StatusRef(s.uri, s.index,
            StatusMap(s.uri, s.index))))
    ensures EncodeStatus(Some(s)).value != [] && RawOk(EncodeStatus(Some(s)).value)
    ensures InLimits(Embed(EncodeStatus(Some(s)).value), 2)
  {
    hide MkStruct, InLimits, WF, Print, ReadValue, FieldsOf, Utf8, MkText, MkUInt, AsText, AsUint,
         StatusMap, Embed, RawOk, Decode;
    var x := MkStruct(StatusFields(s.uri, s.index));
    StatusInLimits(s.uri, s.index);
    InLimitsMonotone(x, 2, MAX_NESTED_LEVELS);
    DecodeEncode(x);
    EmbedPrint(x);
    ReadStatusFields(env, s.uri, s.index);
    FieldsOfMkStruct(StatusFields(s.uri, s.index));
    FieldsOfMkStruct(ListFields(s.uri, s.index));
    MkStructIsMap(StatusFields(s.uri, s.index));
    MkStructIsMap(ListFields(s.uri, s.index));
    ScalarsRead(s.index, [], s.uri);
  }

  /** A sealed status as it is read back: a reference without a usable URI is refused. */
  function WireStatus(status: Option<StatusRef>): Result<Option<StatusRef>> {
    match status
    case None => Ok(None)
    case Some(s) =>
      if s.uri != [] && Utf8(s.uri) then Ok(Some(StatusRef(s.uri, s.index, StatusMap(s.uri, s.index))))
        else Err(ErrStatus)
  }

  lemma UnusableUri(env: Env, s: StatusRef)
    requires EncodeStatus(Some(s)).Ok? && !(s.uri != [] && Utf8(s.uri))
    ensures ParseMSOStatus(env, EncodeStatus(Some(s)).value) == Err(ErrStatus)
    ensures EncodeStatus(Some(s)).value != [] && RawOk(EncodeStatus(Some(s)).value)
    ensures InLimits(Embed(EncodeStatus(Some(s)).value), 2)
  {
    hide MkStruct, InLimits, WF, Print, ReadValue, FieldsOf, Utf8, MkText, MkUInt, AsText, AsUint, Embed,
         RawOk, Decode, ReadAnyMap;
    var x := MkStruct(StatusFields(s.uri, s.index));
    StatusInLimits(s.uri, s.index);
    InLimitsMonotone(x, 2, MAX_NESTED_LEVELS);
    DecodeEncode(x);
    EmbedPrint(x);
    FieldsOfMkStruct(StatusFields(s.uri, s.index));
    FieldsOfMkStruct(ListFields(s.uri, s.index));
    MkStructIsMap(ListFields(s.uri, s.index));
    ScalarsRead(s.index, [], s.uri);
  }

  /** Parsing what the issuer wrote, for every template. */
  lemma StatusReadBack(env: Env, status: Option<StatusRef>)
    requires EncodeStatus(status).Ok?
    ensures ParseMSOStatus(env, EncodeStatus(status).value) == WireStatus(status)
    ensures RawOk(EncodeStatus(status).value)
    ensures EncodeStatus(status).value != [] ==> InLimits(Embed(EncodeStatus(status).value), 2)
  {
    hide InLimits, Utf8, Embed, EncodeStatus, StatusMap;
    match status
    case None => EmptyStatus();
    case Some(s) =>
      hide ParseMSOStatus, RawOk;
      if s.uri != [] && Utf8(s.uri) {
        StatusRoundTrip(env, s);
      } else {
        UnusableUri(env, s);
      }
  }

  lemma EmptyStatus()
    ensures EncodeStatus(None) == Ok([])
  {
  }
}
