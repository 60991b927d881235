/** COSE_Sign1 taken apart and put together without touching a signed byte. */
module Cose {
  import opened Basics
  import opened CborSyntax
  import opened Codec
  import opened Structs
  import opened Primitives

  /** [protected, unprotected, payload, signature], each as raw CBOR. */
  datatype Parts = Parts(protected: bytes, unprotected: bytes, payload: bytes, signature: bytes)

  const COSE_TAG_BYTE: Byte := 0xd2

  // ----- split and assemble -----

  /** Drops an optional tag 18. */
  function CoseBody(raw: bytes): Result<bytes> {
    if raw != [] && raw[0] == COSE_TAG_BYTE then
      var x :- Decode(raw);
      if x.Tag? && x.n == 18 then Ok(Print(x.content)) else Err(ErrMalformed)
    else Ok(raw)
  }

  function CoseParts(raw: bytes): Result<Parts> {
    var body :- CoseBody(raw);
    var x :- Decode(body);
    match AsList(x)
    case None => Err(ErrMalformed)
    case Some(items) =>
      if |items| != 4 then Err(ErrMalformed)
      else Ok(Parts(Print(items[0]), Print(items[1]), Print(items[2]), Print(items[3])))
  }

  predicate PartsRawOk(p: Parts) {
    RawOk(p.protected) && RawOk(p.unprotected) && RawOk(p.payload) && RawOk(p.signature)
  }

  function CoseAssemble(p: Parts): Result<bytes> {
    if !PartsRawOk(p) then Err(ErrMalformed)
    else
      var body :- Encode(MkArray([Embed(p.protected), Embed(p.unprotected), Embed(p.payload), Embed(p.signature)]));
      Encode(MkTag(18, Embed(body)))
  }

  /** A four-slot buffer, read as the parts it holds. */
  function PartsIn(slots: seq<bytes>): Parts
    requires |slots| == 4
  {
    Parts(slots[0], slots[1], slots[2], slots[3])
  }

  /** The tag is dropped by moving to the content; the elements are copied into a fresh buffer,
      which stays empty on failure. */
  method SplitCOSE(raw: bytes) returns (failure: Option<Error>, parts: array<bytes>)
    ensures fresh(parts) && parts.Length == 4
    ensures CoseParts(raw) == if failure.Some? then Err(failure.value) else Ok(PartsIn(parts[..]))
  {
    hide Decode, Print, WF;
    parts := new bytes[4](_ => []);
    var body := raw;
    if |body| > 0 && body[0] == COSE_TAG_BYTE {
      var tagged := DecodeStream(body);
      if tagged.Err? {
        return Some(tagged.error), parts;
      }
      if !(tagged.value.Tag? && tagged.value.n == 18) {
        return Some(ErrMalformed), parts;
      }
      body := Print(tagged.value.content);
    }
    var x := DecodeStream(body);
    if x.Err? {
      return Some(x.error), parts;
    }
    var arr := AsList(x.value);
    if arr.None? || |arr.value| != 4 {
      return Some(ErrMalformed), parts;
    }
    for i := 0 to 4
      invariant forall j | 0 <= j < i :: parts[j] == Print(arr.value[j])
    {
      parts[i] := Print(arr.value[i]);
    }
    return None, parts;
  }

  /** The tag-18 message with these four elements. */
  function Message(a: Item, b: Item, c: Item, d: Item): Item {
    Tag(0, 18, Array(0, [a, b, c, d]))
  }

  /** The raw element is one item, at most `levels` deep. */
  predicate Element(raw: bytes, levels: nat) {
    ParseWhole(raw).Some? && InLimits(ParseWhole(raw).value, levels)
  }

  predicate Elements(p: Parts, levels: nat) {
    Element(p.protected, levels) && Element(p.unprotected, levels) &&
    Element(p.payload, levels) && Element(p.signature, levels)
  }

  lemma ElementPrint(x: Item, levels: nat)
    requires WF(x) && InLimits(x, levels)
    ensures Element(Print(x), levels) && ParseWhole(Print(x)) == Some(x)
  {
    ParseWholePrint(x);
  }

  lemma ElementFacts(raw: bytes, levels: nat)
    requires Element(raw, levels)
    ensures raw != [] && RawOk(raw) && WF(Embed(raw)) && InLimits(Embed(raw), levels) && Print(Embed(raw)) == raw
  {
    assert raw != [] by {
      assert ReadHead([]) == None;
    }
    EmbedIsVerbatim(raw);
  }

  lemma ArrayOfFour(a: Item, b: Item, c: Item, d: Item)
    requires WF(a) && WF(b) && WF(c) && WF(d)
    ensures WF(Array(0, [a, b, c, d])) && WF(Message(a, b, c, d))
    ensures MkArray([a, b, c, d]) == Array(0, [a, b, c, d])
    ensures MkTag(18, Array(0, [a, b, c, d])) == Message(a, b, c, d)
    ensures Print(Message(a, b, c, d)) != [] && Print(Message(a, b, c, d))[0] == COSE_TAG_BYTE
    ensures Print(Array(0, [a, b, c, d])) != [] && Print(Array(0, [a, b, c, d]))[0] != COSE_TAG_BYTE
  {
    var arr := Array(0, [a, b, c, d]);
    assert WF(arr);
    assert Print(arr)[0] == HeadBytes(4, 0, 4)[0] == 132;
    assert Print(Message(a, b, c, d))[0] == HeadBytes(6, 0, 18)[0] == 210;
  }

  /** Assembling writes the four elements out verbatim behind the tag and array heads. */
  lemma AssembleIsMessage(p: Parts)
    requires PartsRawOk(p)
    ensures CoseAssemble(p) ==
            Ok(Print(Message(Embed(p.protected), Embed(p.unprotected), Embed(p.payload), Embed(p.signature))))
  {
    EmbedIsVerbatim(p.protected);
    EmbedIsVerbatim(p.unprotected);
    EmbedIsVerbatim(p.payload);
    EmbedIsVerbatim(p.signature);
    var a, b, c, d := Embed(p.protected), Embed(p.unprotected), Embed(p.payload), Embed(p.signature);
    ArrayOfFour(a, b, c, d);
    EmbedPrint(Array(0, [a, b, c, d]));
    hide Embed, RawOk, Print, WF;
  }

  lemma DecodeMessage(a: Item, b: Item, c: Item, d: Item)
    requires WF(a) && WF(b) && WF(c) && WF(d)
    requires InLimits(a, 15) && InLimits(b, 15) && InLimits(c, 15) && InLimits(d, 15)
    ensures Decode(Print(Message(a, b, c, d))) == Ok(Message(a, b, c, d))
    ensures Decode(Print(Array(0, [a, b, c, d]))) == Ok(Array(0, [a, b, c, d]))
  {
    ArrayOfFour(a, b, c, d);
    var arr := Array(0, [a, b, c, d]);
    assert InLimits(arr, 16);
    assert InLimits(Message(a, b, c, d), 16);
    DecodeEncode(arr);
    DecodeEncode(Message(a, b, c, d));
  }

  lemma PartsOfMessage(a: Item, b: Item, c: Item, d: Item)
    requires WF(a) && WF(b) && WF(c) && WF(d)
    requires InLimits(a, 15) && InLimits(b, 15) && InLimits(c, 15) && InLimits(d, 15)
    ensures CoseParts(Print(Message(a, b, c, d))) == Ok(Parts(Print(a), Print(b), Print(c), Print(d)))
    ensures CoseParts(Print(Array(0, [a, b, c, d]))) == Ok(Parts(Print(a), Print(b), Print(c), Print(d)))
  {
    ArrayOfFour(a, b, c, d);
    DecodeMessage(a, b, c, d);
    hide Decode, Print, WF, InLimits;
  }

  /** Splitting undoes assembling for any four items that leave the array its one level. */
  lemma PartsOfAssemble(p: Parts)
    requires Elements(p, 15)
    ensures CoseAssemble(p).Ok? && CoseParts(CoseAssemble(p).value) == Ok(p)
  {
    ElementFacts(p.protected, 15);
    ElementFacts(p.unprotected, 15);
    ElementFacts(p.payload, 15);
    ElementFacts(p.signature, 15);
    hide Embed, Element, RawOk, CoseParts, CoseAssemble;
    AssembleIsMessage(p);
    PartsOfMessage(Embed(p.protected), Embed(p.unprotected), Embed(p.payload), Embed(p.signature));
  }

  /** The elements split off are items in their own right, so they can always be reassembled. */
  lemma PartsAreElements(raw: bytes)
    requires CoseParts(raw).Ok?
    ensures Elements(CoseParts(raw).value, 15)
  {
    var body := CoseBody(raw).value;
    var x := Decode(body).value;
    DecodeIsExact(body);
    assert InLimits(x, 16);
    var items := AsList(x).value;
    assert x == Array(x.w, items);
    forall i | 0 <= i < 4 ensures Element(Print(items[i]), 15) {
      assert items[i] in items;
      ElementPrint(items[i], 15);
    }
  }

  /** Reassembling what was split gives the tagged form; doing it again changes nothing. */
  lemma AssembleNormalises(raw: bytes)
    requires CoseParts(raw).Ok?
    ensures var p := CoseParts(raw).value;
            CoseAssemble(p).Ok? && CoseParts(CoseAssemble(p).value) == Ok(p)
  {
    PartsAreElements(raw);
    PartsOfAssemble(CoseParts(raw).value);
  }

  lemma FirstBytes(w: nat, items: seq<Item>)
    requires WF(Array(w, items))
    ensures var body := Print(Array(w, items)); body != [] && body[0] != COSE_TAG_BYTE
    ensures var raw := Print(Tag(0, 18, Array(w, items))); raw != [] && raw[0] == COSE_TAG_BYTE
  {
    hide PrintAll;
    assert Print(Array(w, items))[0] == HeadBytes(4, w, |items|)[0] < 160;
    hide WF;
    assert Print(Tag(0, 18, Array(w, items)))[0] == HeadBytes(6, 0, 18)[0] == 210;
  }

  /** The tagged and the untagged form of one message have the same parts, hence the same
      tag-18 normal form. */
  lemma TaggedAndUntaggedAgree(w: nat, items: seq<Item>)
    requires WF(Array(w, items)) && InLimits(Array(w, items), MAX_NESTED_LEVELS)
    ensures CoseParts(Print(Tag(0, 18, Array(w, items)))) == CoseParts(Print(Array(w, items)))
  {
    var arr := Array(w, items);
    var tagged := Tag(0, 18, arr);
    assert WF(tagged) && InLimits(tagged, MAX_NESTED_LEVELS);
    FirstBytes(w, items);
    hide Decode, Print, WF, InLimits;
    DecodeEncode(arr);
    DecodeEncode(tagged);
  }
}
