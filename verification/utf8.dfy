/** The decoder's UTF-8 test accepts exactly the encodings of sequences of Unicode scalar values
    (section 3 of RFC 3629). */
module Utf8Text {
  import opened Basics
  import opened Codec

  predicate Scalar(c: nat) {
    c < 0x11_0000 && !(0xD800 <= c < 0xE000)
  }

  function EncodeRune(c: nat): (r: bytes)
    requires Scalar(c)
    ensures 0 < |r| <= 4
  {
    if c < 0x80 then [c]
    else if c < 0x800 then [0xC0 + c / 0x40, 0x80 + c % 0x40]
    else if c < 0x1_0000 then [0xE0 + c / 0x1000, 0x80 + c / 0x40 % 0x40, 0x80 + c % 0x40]
    else [0xF0 + c / 0x4_0000, 0x80 + c / 0x1000 % 0x40, 0x80 + c / 0x40 % 0x40, 0x80 + c % 0x40]
  }

  predicate AllScalar(cs: seq<nat>) {
    forall c | c in cs :: Scalar(c)
  }

  function EncodeRunes(cs: seq<nat>): bytes
    requires AllScalar(cs)
  {
    if cs == [] then [] else EncodeRune(cs[0]) + EncodeRunes(cs[1..])
  }

  lemma ThreeByteLength(c: nat, rest: bytes)
    requires Scalar(c) && 0x800 <= c < 0x1_0000
    ensures RuneLength(EncodeRune(c) + rest) == 3
  {
    var s := EncodeRune(c) + rest;
    assert s[0] == 0xE0 + c / 0x1000 && s[1] == 0x80 + c / 0x40 % 0x40 && s[2] == 0x80 + c % 0x40;
  }

  lemma FourByteLength(c: nat, rest: bytes)
    requires Scalar(c) && 0x1_0000 <= c
    ensures RuneLength(EncodeRune(c) + rest) == 4
  {
    var s := EncodeRune(c) + rest;
    assert s[0] == 0xF0 + c / 0x4_0000 && s[1] == 0x80 + c / 0x1000 % 0x40;
    assert s[2] == 0x80 + c / 0x40 % 0x40 && s[3] == 0x80 + c % 0x40;
  }

  lemma RuneLengthOfEncoding(c: nat, rest: bytes)
    requires Scalar(c)
    ensures RuneLength(EncodeRune(c) + rest) == |EncodeRune(c)|
  {
    if 0x800 <= c < 0x1_0000 {
      ThreeByteLength(c, rest);
    } else if 0x1_0000 <= c {
      FourByteLength(c, rest);
    }
  }

  /** The scalar value at the front of `s`. */
  function DecodeRune(s: bytes): nat
    requires RuneLength(s) > 0
  {
    match RuneLength(s)
    case 1 => s[0]
    case 2 => (s[0] as int - 0xC0) * 0x40 + (s[1] as int - 0x80)
    case 3 => (s[0] as int - 0xE0) * 0x1000 + (s[1] as int - 0x80) * 0x40 + (s[2] as int - 0x80)
    case _ =>
      (s[0] as int - 0xF0) * 0x4_0000 + (s[1] as int - 0x80) * 0x1000 +
      (s[2] as int - 0x80) * 0x40 + (s[3] as int - 0x80)
  }

  lemma Digits(a: nat, b: nat)
    requires b < 0x40
    ensures (a * 0x40 + b) / 0x40 == a && (a * 0x40 + b) % 0x40 == b
  {
  }

  lemma ShortRuneDecodes(s: bytes)
    requires 0 < RuneLength(s) <= 2
    ensures Scalar(DecodeRune(s)) && EncodeRune(DecodeRune(s)) == s[..RuneLength(s)]
  {
    if RuneLength(s) == 2 {
      Digits(s[0] as int - 0xC0, s[1] as int - 0x80);
    }
  }

  lemma ThreeByteRuneDecodes(s: bytes)
    requires RuneLength(s) == 3
    ensures Scalar(DecodeRune(s)) && EncodeRune(DecodeRune(s)) == s[..3]
  {
    var c := DecodeRune(s);
    var high: int := (s[0] as int - 0xE0) * 0x40 + (s[1] as int - 0x80);
    Digits(s[0] as int - 0xE0, s[1] as int - 0x80);
    Digits(high, s[2] as int - 0x80);
    assert c == high * 0x40 + (s[2] as int - 0x80) && c / 0x1000 == c / 0x40 / 0x40;
  }

  lemma FourByteRuneDecodes(s: bytes)
    requires RuneLength(s) == 4
    ensures Scalar(DecodeRune(s)) && EncodeRune(DecodeRune(s)) == s[..4]
  {
    var c := DecodeRune(s);
    var top: int := (s[0] as int - 0xF0) * 0x40 + (s[1] as int - 0x80);
    var high: int := top * 0x40 + (s[2] as int - 0x80);
    Digits(s[0] as int - 0xF0, s[1] as int - 0x80);
    Digits(top, s[2] as int - 0x80);
    Digits(high, s[3] as int - 0x80);
    assert c == high * 0x40 + (s[3] as int - 0x80) && c / 0x1000 == c / 0x40 / 0x40 &&
           c / 0x4_0000 == c / 0x1000 / 0x40;
  }

  lemma RuneDecodes(s: bytes)
    requires RuneLength(s) > 0
    ensures Scalar(DecodeRune(s)) && EncodeRune(DecodeRune(s)) == s[..RuneLength(s)]
  {
    hide EncodeRune, DecodeRune;
    if RuneLength(s) <= 2 {
      ShortRuneDecodes(s);
    } else if RuneLength(s) == 3 {
      ThreeByteRuneDecodes(s);
    } else {
      FourByteRuneDecodes(s);
    }
  }

  lemma {:induction false} EncodedIsUtf8(cs: seq<nat>)
    requires AllScalar(cs)
    ensures Utf8(EncodeRunes(cs))
  {
    if cs != [] {
      hide EncodeRune, RuneLength;
      EncodedIsUtf8(cs[1..]);
      RuneLengthOfEncoding(cs[0], EncodeRunes(cs[1..]));
      var s := EncodeRunes(cs);
      assert s[|EncodeRune(cs[0])|..] == EncodeRunes(cs[1..]);
    }
  }

  lemma EncodeRunesStep(c: nat, cs: seq<nat>)
    requires Scalar(c) && AllScalar(cs)
    ensures AllScalar([c] + cs) && EncodeRunes([c] + cs) == EncodeRune(c) + EncodeRunes(cs)
  {
    hide EncodeRune;
    assert ([c] + cs)[1..] == cs;
  }

  lemma Utf8Front(s: bytes)
    requires Utf8(s) && s != []
    ensures RuneLength(s) > 0 && Utf8(s[RuneLength(s)..])
    ensures Scalar(DecodeRune(s)) && s == EncodeRune(DecodeRune(s)) + s[RuneLength(s)..]
  {
    hide EncodeRune, DecodeRune, RuneLength;
    RuneDecodes(s);
    assert s == s[..RuneLength(s)] + s[RuneLength(s)..];
  }

  lemma {:induction false} Utf8IsEncoded(s: bytes) returns (cs: seq<nat>)
    requires Utf8(s)
    ensures AllScalar(cs) && EncodeRunes(cs) == s
  {
    if s == [] {
      cs := [];
    } else {
      hide EncodeRune, DecodeRune, EncodeRunes, RuneLength, Scalar, AllScalar, Utf8;
      Utf8Front(s);
      var rest := Utf8IsEncoded(s[RuneLength(s)..]);
      EncodeRunesStep(DecodeRune(s), rest);
      cs := [DecodeRune(s)] + rest;
    }
  }

  /** A string passes the test exactly when it encodes some sequence of scalar values. */
  lemma Utf8Exact(s: bytes)
    ensures Utf8(s) <==> exists cs :: AllScalar(cs) && EncodeRunes(cs) == s
  {
    hide EncodeRune, RuneLength;
    if Utf8(s) {
      var cs := Utf8IsEncoded(s);
    }
    if cs :| AllScalar(cs) && EncodeRunes(cs) == s {
      EncodedIsUtf8(cs);
    }
  }
}
