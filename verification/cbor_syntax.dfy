/**
 The concrete syntax of definite-length CBOR (sections 3 and 3.1 of RFC 8949).

 An `Item` records the width of every head, so that it stands for exactly one byte string:
 printing and parsing are inverse in both directions, and a raw message taken from the wire
 is the print of its item.
 */
module CborSyntax {
  import opened Basics

  /** `w` is the number of argument bytes after the initial byte: 0, 1, 2, 4 or 8.
      A map's children alternate between keys and values. Floats are `Simple` items of width
      2, 4 or 8. */
  datatype Item =
    | UInt(w: nat, n: nat)
    | NInt(w: nat, n: nat)
    | Blob(w: nat, b: bytes)
    | Text(w: nat, s: bytes)
    | Array(w: nat, items: seq<Item>)
    | Map(w: nat, kvs: seq<Item>)
    | Tag(w: nat, n: nat, content: Item)
    | Simple(w: nat, n: nat)

  // ----- heads -----

  /** One more than the largest argument a head of width `w` carries. */
  function ArgLimit(w: nat): nat {
    match w
    case 0 => 24
    case 1 => 0x100
    case 2 => 0x1_0000
    case 4 => 0x1_0000_0000
    case 8 => 0x1_0000_0000_0000_0000
    case _ => 0
  }

  predicate ArgFits(w: nat, n: nat) {
    n < ArgLimit(w)
  }

  /** The shortest width for an argument. An argument of 2^64 or more has none: it gets a width
      no head can have, so that the item is not well formed. */
  function MinWidth(n: nat): (w: nat)
    ensures ArgFits(w, n) <==> n < 0x1_0000_0000_0000_0000
  {
    if n < 24 then 0
    else if n < 0x100 then 1
    else if n < 0x1_0000 then 2
    else if n < 0x1_0000_0000 then 4
    else if n < 0x1_0000_0000_0000_0000 then 8
    else n
  }

  function AdditionalInfo(w: nat, n: nat): (r: nat)
    ensures r < 32
  {
    match w
    case 0 => n % 24
    case 1 => 24
    case 2 => 25
    case 4 => 26
    case _ => 27
  }

  function HeadBytes(major: nat, w: nat, n: nat): (r: bytes)
    requires major < 8
    ensures |r| == 1 + w
  {
    [32 * major + AdditionalInfo(w, n)] + BigEndian(w, n)
  }

  datatype Head = Head(major: nat, w: nat, n: nat, rest: bytes)

  /** Reads one head; additional information 28 to 31 is refused, so no indefinite length
      gets through. */
  function ReadHead(b: bytes): (r: Option<Head>)
    ensures r.Some? ==> |r.value.rest| < |b| && r.value.major < 8
  {
    if b == [] then None
    else
      var info := b[0] % 32;
      if info < 24 then Some(Head(b[0] / 32, 0, info, b[1..]))
      else if info > 27 then None
      else
        var w := if info == 24 then 1 else if info == 25 then 2 else if info == 26 then 4 else 8;
        if |b| < 1 + w then None
        else Some(Head(b[0] / 32, w, FromBigEndian(b[1..1 + w]), b[1 + w..]))
  }

  lemma WidthLimit(w: nat)
    requires w in {1, 2, 4, 8}
    ensures Pow256(w) == ArgLimit(w)
  {
    assert Pow256(0) == 1 && Pow256(1) == 256 && Pow256(2) == 0x1_0000 && Pow256(3) == 0x100_0000;
    assert Pow256(4) == 0x1_0000_0000 && Pow256(5) == 0x100_0000_0000 && Pow256(6) == 0x1_0000_0000_0000;
    assert Pow256(7) == 0x100_0000_0000_0000 && Pow256(8) == 0x1_0000_0000_0000_0000;
  }

  lemma InitialByte(major: nat, info: nat)
    requires info < 32
    ensures (32 * major + info) / 32 == major && (32 * major + info) % 32 == info
  {
  }

  lemma ReadHeadBytes(major: nat, w: nat, n: nat, rest: bytes)
    requires major < 8 && ArgFits(w, n)
    ensures ReadHead(HeadBytes(major, w, n) + rest) == Some(Head(major, w, n, rest))
  {
    var b := HeadBytes(major, w, n) + rest;
    InitialByte(major, AdditionalInfo(w, n));
    assert b[1 + w..] == rest;
    if w > 0 {
      WidthLimit(w);
      FromBigEndianInverts(w, n);
      assert b[1..1 + w] == BigEndian(w, n);
      hide ArgFits, ArgLimit, Pow256, BigEndian, FromBigEndian;
    }
  }

  lemma HeadBytesRead(b: bytes)
    requires ReadHead(b).Some?
    ensures var h := ReadHead(b).value;
            ArgFits(h.w, h.n) && b == HeadBytes(h.major, h.w, h.n) + h.rest
  {
    var h := ReadHead(b).value;
    if h.w > 0 {
      WidthLimit(h.w);
      BigEndianInverts(b[1..1 + h.w]);
      assert ArgFits(h.w, h.n);
      hide ArgFits, ArgLimit, Pow256, BigEndian, FromBigEndian;
      assert b == [b[0]] + b[1..1 + h.w] + b[1 + h.w..];
    } else {
      assert b == [b[0]] + b[1..];
    }
  }

  // ----- printing -----

  function PairCount(kvs: seq<Item>): nat {
    |kvs| / 2
  }

  /** Every head argument fits the width it is written in. */
  predicate WF(x: Item) {
    match x
    case UInt(w, n) => ArgFits(w, n)
    case NInt(w, n) => ArgFits(w, n)
    case Blob(w, b) => ArgFits(w, |b|)
    case Text(w, s) => ArgFits(w, |s|)
    case Array(w, items) => ArgFits(w, |items|) && forall c | c in items :: WF(c)
    case Map(w, kvs) => |kvs| == PairCount(kvs) + PairCount(kvs) && ArgFits(w, PairCount(kvs)) &&
      forall c | c in kvs :: WF(c)
    case Tag(w, n, content) => ArgFits(w, n) && WF(content)
    case Simple(w, n) => ArgFits(w, n) && (w == 1 ==> n >= 32)
  }

  function Print(x: Item): bytes
    decreases x, 1
  {
    match x
    case UInt(w, n) => HeadBytes(0, w, n)
    case NInt(w, n) => HeadBytes(1, w, n)
    case Blob(w, b) => HeadBytes(2, w, |b|) + b
    case Text(w, s) => HeadBytes(3, w, |s|) + s
    case Array(w, items) => HeadBytes(4, w, |items|) + PrintAll(items)
    case Map(w, kvs) => HeadBytes(5, w, PairCount(kvs)) + PrintAll(kvs)
    case Tag(w, n, content) => HeadBytes(6, w, n) + Print(content)
    case Simple(w, n) => HeadBytes(7, w, n)
  }

  function PrintAll(items: seq<Item>): bytes
    decreases items, 0
  {
    if items == [] then [] else Print(items[0]) + PrintAll(items[1..])
  }

  // ----- parsing -----

  datatype Parsed = Parsed(item: Item, rest: bytes)
  datatype ParsedAll = ParsedAll(items: seq<Item>, rest: bytes)

  /** Reads one item off the front. */
  function Parse(b: bytes): (r: Option<Parsed>)
    ensures r.Some? ==> |r.value.rest| < |b|
    decreases |b|, 0
  {
    match ReadHead(b)
    case None => None
    case Some(h) => ParseBody(h)
  }

  function ParseBody(h: Head): (r: Option<Parsed>)
    ensures r.Some? ==> |r.value.rest| <= |h.rest|
    decreases |h.rest|, 2
  {
    match h.major
    case 0 => Some(Parsed(UInt(h.w, h.n), h.rest))
    case 1 => Some(Parsed(NInt(h.w, h.n), h.rest))
    case 2 => if h.n > |h.rest| then None else Some(Parsed(Blob(h.w, h.rest[..h.n]), h.rest[h.n..]))
    case 3 => if h.n > |h.rest| then None else Some(Parsed(Text(h.w, h.rest[..h.n]), h.rest[h.n..]))
    case 4 =>
      (match ParseAll(h.rest, h.n)
       case None => None
       case Some(p) => Some(Parsed(Array(h.w, p.items), p.rest)))
    case 5 =>
      (match ParseAll(h.rest, h.n + h.n)
       case None => None
       case Some(p) => Some(Parsed(Map(h.w, p.items), p.rest)))
    case 6 =>
      (match Parse(h.rest)
       case None => None
       case Some(p) => Some(Parsed(Tag(h.w, h.n, p.item), p.rest)))
    case _ => if h.w == 1 && h.n < 32 then None else Some(Parsed(Simple(h.w, h.n), h.rest))
  }

  function ParseAll(b: bytes, n: nat): (r: Option<ParsedAll>)
    ensures r.Some? ==> |r.value.rest| <= |b| && |r.value.items| == n
    decreases |b|, 1
  {
    if n == 0 then Some(ParsedAll([], b))
    else
      match Parse(b)
      case None => None
      case Some(p) =>
        match ParseAll(p.rest, n - 1)
        case None => None
        case Some(q) => Some(ParsedAll([p.item] + q.items, q.rest))
  }

  // ----- printing and parsing are inverse -----

  lemma Assoc(a: bytes, b: bytes, c: bytes)
    ensures a + b + c == a + (b + c)
  {
  }

  lemma ParseHead(major: nat, w: nat, n: nat, body: bytes)
    requires major < 8 && ArgFits(w, n)
    ensures Parse(HeadBytes(major, w, n) + body) == ParseBody(Head(major, w, n, body))
  {
    ReadHeadBytes(major, w, n, body);
    hide ReadHead, HeadBytes, ArgFits, ParseBody;
  }

  lemma ParsePrintLeaf(x: Item, rest: bytes)
    requires WF(x) && !x.Array? && !x.Map? && !x.Tag?
    ensures Parse(Print(x) + rest) == Some(Parsed(x, rest))
  {
    match x
    case UInt(w, n) => ParseHead(0, w, n, rest);
    case NInt(w, n) => ParseHead(1, w, n, rest);
    case Blob(w, b) =>
      ParseHead(2, w, |b|, b + rest);
      Assoc(HeadBytes(2, w, |b|), b, rest);
      hide Parse, HeadBytes, ArgFits;
    case Text(w, s) =>
      ParseHead(3, w, |s|, s + rest);
      Assoc(HeadBytes(3, w, |s|), s, rest);
      hide Parse, HeadBytes, ArgFits;
    case Simple(w, n) => ParseHead(7, w, n, rest);
  }

  lemma ParsePrintTag(w: nat, n: nat, content: Item, rest: bytes)
    requires ArgFits(w, n)
    requires Parse(Print(content) + rest) == Some(Parsed(content, rest))
    ensures Parse(Print(Tag(w, n, content)) + rest) == Some(Parsed(Tag(w, n, content), rest))
  {
    hide Parse, HeadBytes, ArgFits;
    Assoc(HeadBytes(6, w, n), Print(content), rest);
    ParseHead(6, w, n, Print(content) + rest);
  }

  lemma ParsePrintArray(w: nat, items: seq<Item>, rest: bytes)
    requires ArgFits(w, |items|)
    requires ParseAll(PrintAll(items) + rest, |items|) == Some(ParsedAll(items, rest))
    ensures Parse(Print(Array(w, items)) + rest) == Some(Parsed(Array(w, items), rest))
  {
    hide Parse, ParseAll, HeadBytes, ArgFits;
    Assoc(HeadBytes(4, w, |items|), PrintAll(items), rest);
    ParseHead(4, w, |items|, PrintAll(items) + rest);
  }

  lemma ParsePrintMap(w: nat, n: nat, kvs: seq<Item>, rest: bytes)
    requires |kvs| == n + n && ArgFits(w, n)
    requires ParseAll(PrintAll(kvs) + rest, n + n) == Some(ParsedAll(kvs, rest))
    ensures Parse(Print(Map(w, kvs)) + rest) == Some(Parsed(Map(w, kvs), rest))
  {
    hide ParseAll, ArgFits, HeadBytes;
    assert PairCount(kvs) == n;
    hide PairCount;
    ParseHead(5, w, n, PrintAll(kvs) + rest);
    hide Parse;
    Assoc(HeadBytes(5, w, n), PrintAll(kvs), rest);
  }

  /** The parser undoes the printer, whatever follows. */
  lemma {:induction false} ParsePrint(x: Item, rest: bytes)
    requires WF(x)
    ensures Parse(Print(x) + rest) == Some(Parsed(x, rest))
    decreases x, 1
  {
    match x
    case Array(w, items) =>
      ParseAllPrintAll(items, rest);
      ParsePrintArray(w, items, rest);
    case Map(w, kvs) =>
      ParseAllPrintAll(kvs, rest);
      ParsePrintMap(w, PairCount(kvs), kvs, rest);
    case Tag(w, n, content) =>
      ParsePrint(content, rest);
      ParsePrintTag(w, n, content, rest);
    case _ => ParsePrintLeaf(x, rest);
  }

  lemma {:induction false} ParseAllPrintAll(items: seq<Item>, rest: bytes)
    requires forall c | c in items :: WF(c)
    ensures ParseAll(PrintAll(items) + rest, |items|) == Some(ParsedAll(items, rest))
    decreases items, 0
  {
    if items == [] {
      assert PrintAll(items) + rest == rest;
    } else {
      assert PrintAll(items) + rest == Print(items[0]) + (PrintAll(items[1..]) + rest);
      ParsePrint(items[0], PrintAll(items[1..]) + rest);
      ParseAllPrintAll(items[1..], rest);
      assert items == [items[0]] + items[1..];
    }
  }

  lemma PrintParseLeaf(h: Head)
    requires ParseBody(h).Some? && ArgFits(h.w, h.n) && h.major < 8 && h.major !in {4, 5, 6}
    ensures WF(ParseBody(h).value.item)
    ensures Print(ParseBody(h).value.item) + ParseBody(h).value.rest == HeadBytes(h.major, h.w, h.n) + h.rest
  {
    if h.major in {2, 3} {
      Assoc(HeadBytes(h.major, h.w, h.n), h.rest[..h.n], h.rest[h.n..]);
      assert h.rest[..h.n] + h.rest[h.n..] == h.rest;
    }
    hide HeadBytes, ArgFits;
  }

  /** The printer undoes the parser: what was parsed is exactly what was on the wire. */
  lemma {:induction false} PrintParse(b: bytes)
    requires Parse(b).Some?
    ensures WF(Parse(b).value.item)
    ensures Print(Parse(b).value.item) + Parse(b).value.rest == b
    decreases |b|, 0
  {
    HeadBytesRead(b);
    var h := ReadHead(b).value;
    hide ReadHead, HeadBytes, ArgFits;
    var head := HeadBytes(h.major, h.w, h.n);
    if h.major !in {4, 5, 6} {
      PrintParseLeaf(h);
    } else if h.major == 6 {
      PrintParse(h.rest);
      var p := Parse(h.rest).value;
      Assoc(head, Print(p.item), p.rest);
    } else if h.major == 4 {
      PrintAllParseAll(h.rest, h.n);
      var p := ParseAll(h.rest, h.n).value;
      Assoc(head, PrintAll(p.items), p.rest);
    } else {
      PrintAllParseAll(h.rest, h.n + h.n);
      var p := ParseAll(h.rest, h.n + h.n).value;
      Assoc(head, PrintAll(p.items), p.rest);
      assert PairCount(p.items) == h.n;
    }
  }

  lemma {:induction false} PrintAllParseAll(b: bytes, n: nat)
    requires ParseAll(b, n).Some?
    ensures forall c | c in ParseAll(b, n).value.items :: WF(c)
    ensures PrintAll(ParseAll(b, n).value.items) + ParseAll(b, n).value.rest == b
    decreases |b|, 1
  {
    hide Parse, WF, Print;
    if n > 0 {
      PrintParse(b);
      var p := Parse(b).value;
      PrintAllParseAll(p.rest, n - 1);
      var q := ParseAll(p.rest, n - 1).value;
      var items := [p.item] + q.items;
      assert items[0] == p.item && items[1..] == q.items;
      Assoc(Print(p.item), PrintAll(q.items), q.rest);
    }
  }

  /** No encoding is a proper prefix of another, so a concatenation splits in one way only. */
  lemma PrefixFree(x: Item, y: Item, r: bytes, s: bytes)
    requires WF(x) && WF(y)
    requires Print(x) + r == Print(y) + s
    ensures x == y && r == s
  {
    ParsePrint(x, r);
    ParsePrint(y, s);
  }

  /** Distinct items print differently. */
  lemma PrintInjective(x: Item, y: Item)
    requires WF(x) && WF(y)
    requires Print(x) == Print(y)
    ensures x == y
  {
    assert Print(x) + [] == Print(x) && Print(y) + [] == Print(y);
    PrefixFree(x, y, [], []);
  }

  // ----- whole byte strings -----

  /** The item that `b` is, if it is exactly one. */
  function ParseWhole(b: bytes): (r: Option<Item>)
  {
    match Parse(b)
    case None => None
    case Some(p) => if p.rest == [] then Some(p.item) else None
  }

  lemma ParseWholePrint(x: Item)
    requires WF(x)
    ensures ParseWhole(Print(x)) == Some(x)
  {
    assert Print(x) + [] == Print(x);
    ParsePrint(x, []);
  }

  lemma PrintParseWhole(b: bytes)
    requires ParseWhole(b).Some?
    ensures WF(ParseWhole(b).value) && Print(ParseWhole(b).value) == b
  {
    PrintParse(b);
    assert Print(Parse(b).value.item) + [] == b;
  }
}
