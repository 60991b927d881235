/**
 Signing and verifying COSE_Sign1 messages (section 4.4 of RFC 9052), the x5chain header
 (section 2 of RFC 9360), and the payload surgery that leaves signatures valid.
 */
module CoseSign1 {
  import opened Basics
  import opened CborSyntax
  import opened Codec
  import opened Structs
  import opened Primitives
  import opened Cose

  const MAX_LENGTH: nat := 0x1_0000_0000_0000_0000

  // ----- what a signature covers -----

  /** Sig_structure: the context string, the protected header, no external data, the payload. */
  function SigStructure(protected: bytes, payload: bytes): Item {
    MkArray([MkText(Ascii("Signature1")), MkBlob(protected), MkBlob([]), MkBlob(payload)])
  }

  function ToBeSigned(protected: bytes, payload: bytes): bytes {
    Print(SigStructure(protected, payload))
  }

  lemma SigStructureWF(protected: bytes, payload: bytes)
    requires |protected| < MAX_LENGTH && |payload| < MAX_LENGTH
    ensures WF(SigStructure(protected, payload))
  {
    hide WF, MkArray, MkText, MkBlob, Ascii;
    StringWF(Ascii("Signature1"));
    StringWF(protected);
    StringWF([]);
    StringWF(payload);
    ArrayWF([MkText(Ascii("Signature1")), MkBlob(protected), MkBlob([]), MkBlob(payload)]);
  }

  /** The signed bytes determine the protected header and the payload. */
  lemma ToBeSignedInjective(p: bytes, m: bytes, q: bytes, n: bytes)
    requires |p| < MAX_LENGTH && |m| < MAX_LENGTH && |q| < MAX_LENGTH && |n| < MAX_LENGTH
    requires ToBeSigned(p, m) == ToBeSigned(q, n)
    ensures p == q && m == n
  {
    hide Print, WF, MkArray, MkText, MkBlob, Ascii;
    SigStructureWF(p, m);
    SigStructureWF(q, n);
    PrintInjective(SigStructure(p, m), SigStructure(q, n));
    var a := [MkText(Ascii("Signature1")), MkBlob(p), MkBlob([]), MkBlob(m)];
    var b := [MkText(Ascii("Signature1")), MkBlob(q), MkBlob([]), MkBlob(n)];
    ArrayInjective(a, b);
    assert a[1] == b[1] && a[3] == b[3];
    StringInjective(p, q);
    StringInjective(m, n);
  }

  /** The byte string an element holds; null does not count. */
  function BlobOf(raw: bytes): Option<bytes> {
    match ParseWhole(raw)
    case Some(Blob(_, b)) => Some(b)
    case _ => None
  }

  /** Verification over four elements: the payload if the signature holds. */
  function VerifyParts(env: Env, p: Parts, key: PublicKey): Option<bytes> {
    match (BlobOf(p.protected), BlobOf(p.payload), BlobOf(p.signature))
    case (Some(protected), Some(payload), Some(signature)) =>
      if env.sigOk(key, ToBeSigned(protected, payload), signature) then Some(payload) else None
    case _ => None
  }

  /** The verifying call takes the tag-18 form only. */
  function VerifyCOSESign1(env: Env, msg: bytes, key: PublicKey): Option<bytes> {
    if msg == [] || msg[0] != COSE_TAG_BYTE then None
    else
      match CoseParts(msg)
      case Err(_) => None
      case Ok(p) => VerifyParts(env, p, key)
  }

  lemma BlobOfPrint(b: bytes)
    requires |b| < MAX_LENGTH
    ensures WF(MkBlob(b)) && BlobOf(Print(MkBlob(b))) == Some(b) && Element(Print(MkBlob(b)), 15)
  {
    ParseWholePrint(MkBlob(b));
  }

  lemma BlobOfFits(raw: bytes)
    requires BlobOf(raw).Some?
    ensures |BlobOf(raw).value| < MAX_LENGTH
  {
    PrintParseWhole(raw);
  }

  /** What the verifying call sees of an assembled message is what was assembled. */
  lemma VerifyAssembled(env: Env, p: Parts, key: PublicKey)
    requires Elements(p, 15)
    ensures CoseAssemble(p).Ok?
    ensures VerifyCOSESign1(env, CoseAssemble(p).value, key) == VerifyParts(env, p, key)
  {
    PartsOfAssemble(p);
    AssembledHead(p);
    hide CoseParts, CoseAssemble, VerifyParts, Element;
  }

  lemma AssembledHead(p: Parts)
    requires Elements(p, 15)
    ensures CoseAssemble(p).Ok? && CoseAssemble(p).value != [] && CoseAssemble(p).value[0] == COSE_TAG_BYTE
  {
    ElementFacts(p.protected, 15);
    ElementFacts(p.unprotected, 15);
    ElementFacts(p.payload, 15);
    ElementFacts(p.signature, 15);
    hide Embed, Element, RawOk, CoseAssemble;
    AssembleIsMessage(p);
    ArrayOfFour(Embed(p.protected), Embed(p.unprotected), Embed(p.payload), Embed(p.signature));
  }

  // ----- signing -----

  function SignedArray(signer: Signer, payload: bytes): Item {
    MkArray([MkBlob(signer.protected), MkMap(map[]), MkBlob(payload),
             MkBlob(signer.sign(ToBeSigned(signer.protected, payload)))])
  }

  /** The signing call: an empty unprotected header, the payload attached. */
  function SignCOSESign1(signer: Signer, payload: bytes): Result<bytes> {
    if signer.pub.NonEcKey? then Err(ErrUnsupported)
    else if signer.tagged then Encode(MkTag(18, SignedArray(signer, payload)))
    else Encode(SignedArray(signer, payload))
  }

  function SignedParts(signer: Signer, payload: bytes): Parts {
    Parts(Print(MkBlob(signer.protected)), Print(MkMap(map[])), Print(MkBlob(payload)),
          Print(MkBlob(signer.sign(ToBeSigned(signer.protected, payload)))))
  }

  lemma EmptyMapItem()
    ensures MkMap(map[]) == Map(0, []) && WF(MkMap(map[])) && InLimits(MkMap(map[]), 15)
  {
    assert SortKeys({}) == [];
    assert FlatPairs([], map[]) == [];
  }

  lemma FourFit(a: Item, b: Item, c: Item, d: Item)
    requires WF(MkArray([a, b, c, d]))
    ensures WF(a) && WF(b) && WF(c) && WF(d)
  {
    var items := [a, b, c, d];
    assert a in items && b in items && c in items && d in items;
  }

  lemma BlobFits(b: bytes)
    requires WF(MkBlob(b))
    ensures |b| < MAX_LENGTH
  {
  }

  lemma SignedShape(signer: Signer, payload: bytes)
    requires SignCOSESign1(signer, payload).Ok?
    ensures WF(SignedArray(signer, payload))
    ensures |signer.protected| < MAX_LENGTH && |payload| < MAX_LENGTH
    ensures |signer.sign(ToBeSigned(signer.protected, payload))| < MAX_LENGTH
  {
    hide ToBeSigned, MkMap, MkBlob;
    var sig := signer.sign(ToBeSigned(signer.protected, payload));
    assert WF(SignedArray(signer, payload)) by {
      hide SignedArray;
    }
    hide WF;
    FourFit(MkBlob(signer.protected), MkMap(map[]), MkBlob(payload), MkBlob(sig));
    BlobFits(signer.protected);
    BlobFits(payload);
    BlobFits(sig);
  }

  lemma PartsOfSigned(signer: Signer, payload: bytes)
    requires SignCOSESign1(signer, payload).Ok?
    ensures CoseParts(SignCOSESign1(signer, payload).value) == Ok(SignedParts(signer, payload))
    ensures Elements(SignedParts(signer, payload), 15)
    ensures |signer.protected| < MAX_LENGTH && |payload| < MAX_LENGTH
    ensures |signer.sign(ToBeSigned(signer.protected, payload))| < MAX_LENGTH
  {
    hide ToBeSigned, MkMap, WF, CoseParts, Print;
    SignedShape(signer, payload);
    EmptyMapItem();
    var sig := signer.sign(ToBeSigned(signer.protected, payload));
    BlobOfPrint(signer.protected);
    BlobOfPrint(payload);
    BlobOfPrint(sig);
    var a, b, c, d := MkBlob(signer.protected), MkMap(map[]), MkBlob(payload), MkBlob(sig);
    assert InLimits(a, 15) && InLimits(c, 15) && InLimits(d, 15);
    hide InLimits, MkBlob;
    ElementPrint(b, 15);
    ArrayOfFour(a, b, c, d);
    PartsOfMessage(a, b, c, d);
  }

  /** A correct signer's message verifies under its own key, to its own payload. */
  lemma SignedVerifies(env: Env, signer: Signer, payload: bytes)
    requires SignCOSESign1(signer, payload).Ok? && Vouches(env, signer, ToBeSigned(signer.protected, payload))
    ensures VerifyParts(env, SignedParts(signer, payload), signer.pub) == Some(payload)
  {
    SignedShape(signer, payload);
    BlobOfPrint(signer.protected);
    BlobOfPrint(payload);
    BlobOfPrint(signer.sign(ToBeSigned(signer.protected, payload)));
    hide ToBeSigned, BlobOf, MkBlob, Print, Element, SignCOSESign1;
  }

  // ----- the x5chain header -----

  const X5CHAIN_LABEL: int := 33

  function ChainItem(chain: seq<bytes>): Item {
    if chain == [] then Null
    else MkArray(seq(|chain|, i requires 0 <= i < |chain| => MkBlob(chain[i])))
  }

  /** A map with 64-bit signed integer labels. */
  function AsIntMap(x: Item): Option<map<Key, Item>> {
    match AsMap(x)
    case None => None
    case Some(m) =>
      if forall k | k in m :: k.KInt? && -0x8000_0000_0000_0000 <= k.n < 0x8000_0000_0000_0000 then Some(m) else None
  }

  predicate AllBlobs(items: seq<Item>) {
    forall c | c in items :: AsBlob(c).Some?
  }

  /** One certificate, or an array of them. */
  function ParseX5Chain(raw: bytes): Result<seq<bytes>> {
    match Decode(raw)
    case Err(e) => Err(e)
    case Ok(x) =>
      if AsBlob(x).Some? then Ok([AsBlob(x).value])
      else
        match AsList(x)
        case None => Err(ErrMalformed)
        case Some(items) =>
          if !AllBlobs(items) then Err(ErrMalformed)
          else if items == [] then Err(ErrIssuerAuth)
          else Ok(seq(|items|, i requires 0 <= i < |items| => assert items[i] in items; AsBlob(items[i]).value))
  }

  /** Ok(None): not a header map, or no label 33 in it. */
  function X5ChainFromMap(mapCBOR: bytes): Result<Option<seq<bytes>>> {
    match Decode(mapCBOR)
    case Err(_) => Ok(None)
    case Ok(x) =>
      match AsIntMap(x)
      case None => Ok(None)
      case Some(m) =>
        if KInt(X5CHAIN_LABEL) !in m then Ok(None)
        else
          var chain :- ParseX5Chain(Print(m[KInt(X5CHAIN_LABEL)]));
          Ok(Some(chain))
  }

  /** The unprotected header first, then the protected one. */
  function X5ChainFrom(p: Parts): Result<seq<bytes>> {
    var unprotected :- X5ChainFromMap(p.unprotected);
    if unprotected.Some? then Ok(unprotected.value)
    else
      var x :- Decode(p.protected);
      match AsBlob(x)
      case None => Err(ErrMalformed)
      case Some(header) =>
        if header == [] then Err(ErrIssuerAuth)
        else
          var protected :- X5ChainFromMap(header);
          if protected.Some? then Ok(protected.value) else Err(ErrIssuerAuth)
  }

  function ChainHeader(chain: seq<bytes>): Item {
    MkMap(map[KInt(X5CHAIN_LABEL) := ChainItem(chain)])
  }

  /** Signs, then replaces the unprotected header by one that carries the chain. */
  function SignCOSEWithX5Chain(signer: Signer, chain: seq<bytes>, payload: bytes): Result<bytes> {
    var raw :- SignCOSESign1(signer, payload);
    var p :- CoseParts(raw);
    var header :- Encode(ChainHeader(chain));
    CoseAssemble(p.(unprotected := header))
  }

  predicate ChainFits(chain: seq<bytes>) {
    0 < |chain| <= MAX_ARRAY_ELEMENTS
  }

  lemma ChainItemShape(chain: seq<bytes>)
    requires ChainFits(chain)
    ensures var x := ChainItem(chain);
            x.Array? && |x.items| == |chain| && AsList(x) == Some(x.items) && AsBlob(x) == None &&
            forall i | 0 <= i < |chain| :: x.items[i] == MkBlob(chain[i])
  {
    hide MkBlob;
  }

  lemma ChainItemFits(chain: seq<bytes>)
    requires ChainFits(chain) && forall c | c in chain :: |c| < MAX_LENGTH
    ensures WF(ChainItem(chain)) && InLimits(ChainItem(chain), 14)
  {
    ChainItemShape(chain);
    var x := ChainItem(chain);
    forall c | c in x.items ensures WF(c) && InLimits(c, 13) {
      var i :| 0 <= i < |x.items| && x.items[i] == c;
      assert chain[i] in chain;
      StringWF(chain[i]);
    }
    assert x == MkArray(x.items);
    hide ChainItem;
    ArrayWF(x.items);
  }

  lemma ChainItemReads(chain: seq<bytes>)
    requires ChainFits(chain) && Decode(Print(ChainItem(chain))) == Ok(ChainItem(chain))
    ensures ParseX5Chain(Print(ChainItem(chain))) == Ok(chain)
  {
    ChainItemShape(chain);
    var x := ChainItem(chain);
    forall i | 0 <= i < |chain| ensures AsBlob(x.items[i]) == Some(chain[i]) {
      ScalarBlob(chain[i]);
    }
    hide ChainItem, Decode, Print, AsBlob, AsList, MkBlob;
    var r := ParseX5Chain(Print(x));
    assert r.Ok? && r.value == chain;
  }

  lemma ScalarBlob(b: bytes)
    ensures AsBlob(MkBlob(b)) == Some(b)
  {
  }

  lemma ChainItemFacts(chain: seq<bytes>)
    requires ChainFits(chain) && forall c | c in chain :: |c| < MAX_LENGTH
    ensures WF(ChainItem(chain)) && InLimits(ChainItem(chain), 14)
    ensures ParseX5Chain(Print(ChainItem(chain))) == Ok(chain)
  {
    hide ChainItem, Decode, Print, WF, InLimits, ParseX5Chain;
    ChainItemFits(chain);
    InLimitsMonotone(ChainItem(chain), 14, 16);
    DecodeEncode(ChainItem(chain));
    ChainItemReads(chain);
  }

  lemma OneLabel(x: Item)
    ensures var m := map[KInt(X5CHAIN_LABEL) := x];
            |m| == 1 && (forall k | k in m :: Readable(k) && KeyFits(k) && m[k] == x) &&
            KInt(X5CHAIN_LABEL) in m && forall k | k in m ::
              k.KInt? && -0x8000_0000_0000_0000 <= k.n < 0x8000_0000_0000_0000
  {
  }

  lemma ChainHeaderFacts(chain: seq<bytes>)
    requires WF(ChainItem(chain)) && InLimits(ChainItem(chain), 14)
    ensures WF(ChainHeader(chain)) && InLimits(ChainHeader(chain), 15)
    ensures AsIntMap(ChainHeader(chain)) == Some(map[KInt(X5CHAIN_LABEL) := ChainItem(chain)])
  {
    hide WF, InLimits, MkMap, AsMap, ChainItem, Readable, KeyFits;
    var m := map[KInt(X5CHAIN_LABEL) := ChainItem(chain)];
    OneLabel(ChainItem(chain));
    MkMapWF(m);
    MkMapInLimits(m, 15);
    AsMapMkMap(m);
  }

  lemma LabelFound(raw: bytes, header: Item, x: Item)
    requires Decode(raw) == Ok(header) && AsIntMap(header) == Some(map[KInt(X5CHAIN_LABEL) := x])
    ensures X5ChainFromMap(raw) == match ParseX5Chain(Print(x)) case Err(e) => Err(e) case Ok(c) => Ok(Some(c))
  {
    hide Decode, AsIntMap, Print, ParseX5Chain;
    OneLabel(x);
  }

  lemma ChainFromHeader(chain: seq<bytes>)
    requires ChainFits(chain) && forall c | c in chain :: |c| < MAX_LENGTH
    ensures WF(ChainHeader(chain)) && InLimits(ChainHeader(chain), 15)
    ensures X5ChainFromMap(Print(ChainHeader(chain))) == Ok(Some(chain))
  {
    hide WF, InLimits, ChainHeader, ChainItem, AsIntMap, Print, Decode, ParseX5Chain, X5ChainFromMap;
    ChainItemFacts(chain);
    ChainHeaderFacts(chain);
    InLimitsMonotone(ChainHeader(chain), 15, 16);
    DecodeEncode(ChainHeader(chain));
    LabelFound(Print(ChainHeader(chain)), ChainHeader(chain), ChainItem(chain));
  }

  /** A lone certificate may stand in place of the array. */
  lemma SingleCertificate(c: bytes)
    requires |c| < MAX_LENGTH
    ensures ParseX5Chain(Print(MkBlob(c))) == Ok([c])
  {
    hide Print, WF;
    StringWF(c);
    assert InLimits(MkBlob(c), MAX_NESTED_LEVELS) && AsBlob(MkBlob(c)) == Some(c);
    DecodeEncode(MkBlob(c));
    hide Decode;
  }

  lemma BlobDecodes(raw: bytes)
    requires BlobOf(raw).Some?
    ensures Decode(raw).Ok? && AsBlob(Decode(raw).value) == BlobOf(raw)
  {
  }

  /** The protected header is looked at only when the unprotected one has no chain. */
  lemma ChainFromProtected(p: Parts, chain: seq<bytes>)
    requires X5ChainFromMap(p.unprotected) == Ok(None) && BlobOf(p.protected) == Some(Print(ChainHeader(chain)))
    requires ChainFits(chain) && forall c | c in chain :: |c| < MAX_LENGTH
    ensures X5ChainFrom(p) == Ok(chain)
  {
    hide X5ChainFromMap, BlobOf, Print, Decode, ChainHeader, WF, InLimits;
    ChainFromHeader(chain);
    BlobDecodes(p.protected);
    EmbedPrint(ChainHeader(chain));
  }

  /** Injecting the chain changes the unprotected header and nothing else: what the signature
      covers is untouched, so the message verifies exactly as before, and the chain read back
      is the chain that was injected. */
  lemma HeaderInjection(env: Env, signer: Signer, chain: seq<bytes>, payload: bytes, key: PublicKey)
    requires SignCOSESign1(signer, payload).Ok?
    requires ChainFits(chain) && forall c | c in chain :: |c| < MAX_LENGTH
    ensures var p := SignedParts(signer, payload).(unprotected := Print(ChainHeader(chain)));
            SignCOSEWithX5Chain(signer, chain, payload).Ok? &&
            SignCOSEWithX5Chain(signer, chain, payload) == CoseAssemble(p) &&
            CoseParts(SignCOSEWithX5Chain(signer, chain, payload).value) == Ok(p) &&
            Elements(p, 15) &&
            X5ChainFrom(p) == Ok(chain) &&
            VerifyCOSESign1(env, SignCOSEWithX5Chain(signer, chain, payload).value, key) ==
            VerifyParts(env, SignedParts(signer, payload), key)
  {
    hide CoseParts, CoseAssemble, SignCOSESign1, SignedParts, ChainHeader, X5ChainFromMap, Element, WF, InLimits,
         Print, ToBeSigned, VerifyCOSESign1, BlobOf, AsMap;
    PartsOfSigned(signer, payload);
    ChainFromHeader(chain);
    ElementPrint(ChainHeader(chain), 15);
    var p := SignedParts(signer, payload).(unprotected := Print(ChainHeader(chain)));
    PartsOfAssemble(p);
    VerifyAssembled(env, p, key);
  }

  // ----- detached payloads -----

  /** Replaces the payload by the byte string `payload`. */
  function SpliceCOSEPayload(raw: bytes, payload: bytes): Result<bytes> {
    var p :- CoseParts(raw);
    var element :- Encode(MkBlob(payload));
    CoseAssemble(p.(payload := element))
  }

  /** Replaces the payload by null. */
  function DetachCOSEPayload(raw: bytes): Result<bytes> {
    var p :- CoseParts(raw);
    var element :- Encode(Null);
    CoseAssemble(p.(payload := element))
  }

  /** Splits, overwrites the payload slot, reassembles. */
  method SpliceCOSE(raw: bytes, payload: bytes) returns (r: Result<bytes>)
    ensures r == SpliceCOSEPayload(raw, payload)
  {
    hide CoseParts, CoseAssemble;
    var failure, parts := SplitCOSE(raw);
    if failure.Some? {
      return Err(failure.value);
    }
    var element :- Encode(MkBlob(payload));
    parts[2] := element;
    return CoseAssemble(PartsIn(parts[..]));
  }

  /** Splits, overwrites the payload slot with null, reassembles. */
  method DetachCOSE(raw: bytes) returns (r: Result<bytes>)
    ensures r == DetachCOSEPayload(raw)
  {
    hide CoseParts, CoseAssemble;
    var failure, parts := SplitCOSE(raw);
    if failure.Some? {
      return Err(failure.value);
    }
    var element :- Encode(Null);
    parts[2] := element;
    return CoseAssemble(PartsIn(parts[..]));
  }

  /** Signs, splits, overwrites the unprotected slot with the chain, reassembles. */
  method SignCOSE(signer: Signer, chain: seq<bytes>, payload: bytes) returns (r: Result<bytes>)
    ensures r == SignCOSEWithX5Chain(signer, chain, payload)
  {
    hide CoseParts, CoseAssemble, SignCOSESign1, ChainHeader;
    var raw :- SignCOSESign1(signer, payload);
    var failure, parts := SplitCOSE(raw);
    if failure.Some? {
      return Err(failure.value);
    }
    var header :- Encode(ChainHeader(chain));
    parts[1] := header;
    return CoseAssemble(PartsIn(parts[..]));
  }

  lemma DetachedParts(raw: bytes)
    requires CoseParts(raw).Ok?
    ensures DetachCOSEPayload(raw).Ok?
    ensures CoseParts(DetachCOSEPayload(raw).value) == Ok(CoseParts(raw).value.(payload := Print(Null)))
  {
    PartsAreElements(raw);
    assert WF(Null) && InLimits(Null, 15);
    ElementPrint(Null, 15);
    hide CoseParts, CoseAssemble, Element, Print, WF;
    PartsOfAssemble(CoseParts(raw).value.(payload := Print(Null)));
  }

  /** Whatever payload is spliced in, the protected header, the unprotected header and the
      signature stay as they were. */
  lemma SplicedParts(raw: bytes, payload: bytes)
    requires CoseParts(raw).Ok? && |payload| < MAX_LENGTH
    ensures SpliceCOSEPayload(raw, payload).Ok?
    ensures CoseParts(SpliceCOSEPayload(raw, payload).value) ==
            Ok(CoseParts(raw).value.(payload := Print(MkBlob(payload))))
    ensures Elements(CoseParts(raw).value.(payload := Print(MkBlob(payload))), 15)
  {
    PartsAreElements(raw);
    BlobOfPrint(payload);
    hide CoseParts, CoseAssemble, Element, Print, WF;
    PartsOfAssemble(CoseParts(raw).value.(payload := Print(MkBlob(payload))));
  }

  /** Splicing the payload back into the detached form of a canonical message restores it. */
  lemma SpliceUndoesDetach(raw: bytes, payload: bytes)
    requires CoseParts(raw).Ok? && |payload| < MAX_LENGTH
    requires CoseAssemble(CoseParts(raw).value) == Ok(raw)
    requires CoseParts(raw).value.payload == Print(MkBlob(payload))
    ensures DetachCOSEPayload(raw).Ok?
    ensures SpliceCOSEPayload(DetachCOSEPayload(raw).value, payload) == Ok(raw)
  {
    DetachedParts(raw);
    BlobOfPrint(payload);
    hide CoseParts, CoseAssemble, Element, Print, WF;
  }

  /** The spliced message verifies exactly as its parts do. */
  lemma SplicedVerifies(env: Env, raw: bytes, payload: bytes, key: PublicKey)
    requires CoseParts(raw).Ok? && |payload| < MAX_LENGTH
    ensures SpliceCOSEPayload(raw, payload).Ok?
    ensures var p := CoseParts(raw).value.(payload := Print(MkBlob(payload)));
            VerifyCOSESign1(env, SpliceCOSEPayload(raw, payload).value, key) == VerifyParts(env, p, key)
  {
    SplicedParts(raw, payload);
    BlobOfPrint(payload);
    hide CoseParts, CoseAssemble, Element, Print, WF, VerifyParts;
    VerifyAssembled(env, CoseParts(raw).value.(payload := Print(MkBlob(payload))), key);
    hide VerifyCOSESign1;
  }

  /** The signature on a message vouches for that message only. */
  ghost predicate SignatureIsFor(env: Env, signer: Signer, payload: bytes) {
    var m := ToBeSigned(signer.protected, payload);
    forall t :: env.sigOk(signer.pub, t, signer.sign(m)) <==> t == m
  }

  /** A detached message verifies with the payload `q` spliced in exactly when `q` is the
      payload that was signed. */
  lemma DetachedBindsPayload(env: Env, signer: Signer, payload: bytes, q: bytes)
    requires SignCOSESign1(signer, payload).Ok? && SignatureIsFor(env, signer, payload)
    requires |q| < MAX_LENGTH
    ensures var raw := SignCOSESign1(signer, payload).value;
            DetachCOSEPayload(raw).Ok? &&
            SpliceCOSEPayload(DetachCOSEPayload(raw).value, q).Ok? &&
            (VerifyCOSESign1(env, SpliceCOSEPayload(DetachCOSEPayload(raw).value, q).value, signer.pub).Some? <==>
              q == payload)
  {
    hide CoseParts, Element, Print, SignCOSESign1, DetachCOSEPayload, SpliceCOSEPayload, VerifyCOSESign1,
         ToBeSigned, BlobOf;
    var raw := SignCOSESign1(signer, payload).value;
    PartsOfSigned(signer, payload);
    DetachedParts(raw);
    var detached := DetachCOSEPayload(raw).value;
    BlobOfPrint(signer.protected);
    BlobOfPrint(q);
    BlobOfPrint(signer.sign(ToBeSigned(signer.protected, payload)));
    SplicedVerifies(env, detached, q, signer.pub);
    if ToBeSigned(signer.protected, q) == ToBeSigned(signer.protected, payload) {
      ToBeSignedInjective(signer.protected, q, signer.protected, payload);
    }
  }
}
