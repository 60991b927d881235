/** SessionTranscript constructors for the two OpenID4VP flows (OpenID4VP 1.0 Annex B.2.6). */
module SessionTranscripts {
  import opened Basics
  import opened CborSyntax
  import opened Codec
  import opened Primitives
  import opened CoseSign1

  /** SHA-256 is fixed by the profile. */
  function Sha256(env: Env, data: bytes): bytes { env.hash(Ascii("SHA-256"), data) }

  /** Digests fit a byte string; SHA-2 digests have at most 64 bytes. */
  ghost predicate ShortDigests(env: Env) {
    forall alg, data :: |env.hash(alg, data)| <= 64
  }

  /** An absent (nil or empty) thumbprint is null, a present one a byte string. */
  function Nullable(thumbprint: bytes): Item {
    if thumbprint == [] then Null else MkBlob(thumbprint)
  }

  function RedirectInfo(clientID: bytes, nonce: bytes, thumbprint: bytes, responseURI: bytes): Item {
    MkArray([MkText(clientID), MkText(nonce), Nullable(thumbprint), MkText(responseURI)])
  }

  function DcApiInfo(origin: bytes, nonce: bytes, thumbprint: bytes): Item {
    MkArray([MkText(origin), MkText(nonce), Nullable(thumbprint)])
  }

  function TranscriptItem(name: bytes, infoHash: bytes): Item {
    MkArray([Null, Null, MkArray([MkText(name), MkBlob(infoHash)])])
  }

  function OID4VPHandover(env: Env, clientID: bytes, nonce: bytes, thumbprint: bytes, responseURI: bytes): bytes {
    Print(TranscriptItem(Ascii("OpenID4VPHandover"), Sha256(env,
      Print(RedirectInfo(clientID, nonce, thumbprint, responseURI)))))
  }

  function OID4VPDCAPIHandover(env: Env, origin: bytes, nonce: bytes, thumbprint: bytes): bytes {
    Print(TranscriptItem(Ascii("OpenID4VPDCAPIHandover"), Sha256(env, Print(DcApiInfo(origin, nonce, thumbprint)))))
  }

  // ----- well-formedness -----

  lemma NullableWF(s: bytes)
    requires |s| < MAX_LENGTH
    ensures WF(Nullable(s))
  {
  }

  lemma RedirectInfoWF(clientID: bytes, nonce: bytes, thumbprint: bytes, responseURI: bytes)
    requires |clientID| < MAX_LENGTH && |nonce| < MAX_LENGTH && |thumbprint| < MAX_LENGTH && |responseURI| < MAX_LENGTH
    ensures WF(RedirectInfo(clientID, nonce, thumbprint, responseURI))
  {
    hide WF, MkText, Nullable, MkArray;
    StringWF(clientID);
    StringWF(nonce);
    NullableWF(thumbprint);
    StringWF(responseURI);
    ArrayWF([MkText(clientID), MkText(nonce), Nullable(thumbprint), MkText(responseURI)]);
  }

  lemma DcApiInfoWF(origin: bytes, nonce: bytes, thumbprint: bytes)
    requires |origin| < MAX_LENGTH && |nonce| < MAX_LENGTH && |thumbprint| < MAX_LENGTH
    ensures WF(DcApiInfo(origin, nonce, thumbprint))
  {
    hide WF, MkText, Nullable, MkArray;
    StringWF(origin);
    StringWF(nonce);
    NullableWF(thumbprint);
    ArrayWF([MkText(origin), MkText(nonce), Nullable(thumbprint)]);
  }

  /** A transcript is one item, nested two levels deep. */
  lemma TranscriptFacts(name: bytes, infoHash: bytes)
    requires |name| < MAX_LENGTH && |infoHash| < MAX_LENGTH
    ensures WF(TranscriptItem(name, infoHash)) && InLimits(TranscriptItem(name, infoHash), 2)
    ensures ParseWhole(Print(TranscriptItem(name, infoHash))) == Some(TranscriptItem(name, infoHash))
  {
    StringWF(name);
    StringWF(infoHash);
    var handover := [MkText(name), MkBlob(infoHash)];
    assert InLimits(MkText(name), 0) && InLimits(MkBlob(infoHash), 0) && InLimits(Null, 1) && WF(Null);
    hide WF, MkText, MkBlob;
    ArrayWF(handover);
    assert InLimits(MkArray(handover), 1);
    var items := [Null, Null, MkArray(handover)];
    ArrayWF(items);
    assert InLimits(MkArray(items), 2);
    hide InLimits, Print, ParseWhole;
    ParseWholePrint(TranscriptItem(name, infoHash));
  }

  // ----- injectivity and domain separation -----

  lemma TranscriptItemInjective(a: bytes, g: bytes, b: bytes, h: bytes)
    requires |a| < MAX_LENGTH && |g| < MAX_LENGTH && |b| < MAX_LENGTH && |h| < MAX_LENGTH
    requires Print(TranscriptItem(a, g)) == Print(TranscriptItem(b, h))
    ensures a == b && g == h
  {
    hide Print, WF, InLimits, ParseWhole, MkArray, MkText, MkBlob;
    TranscriptFacts(a, g);
    TranscriptFacts(b, h);
    var x, y := [MkText(a), MkBlob(g)], [MkText(b), MkBlob(h)];
    var u, v := [Null, Null, MkArray(x)], [Null, Null, MkArray(y)];
    assert MkArray(u) == MkArray(v);
    ArrayInjective(u, v);
    assert u[2] == v[2];
    ArrayInjective(x, y);
    assert x[0] == y[0] && x[1] == y[1];
    StringInjective(a, b);
    StringInjective(g, h);
  }

  lemma NullableInjective(s: bytes, t: bytes)
    requires Nullable(s) == Nullable(t)
    ensures s == t
  {
  }

  lemma RedirectInfoInjective(c: bytes, n: bytes, t: bytes, u: bytes, c': bytes, n': bytes, t': bytes, u': bytes)
    requires RedirectInfo(c, n, t, u) == RedirectInfo(c', n', t', u')
    ensures c == c' && n == n' && t == t' && u == u'
  {
    hide MkArray, MkText, Nullable;
    var a, b := [MkText(c), MkText(n), Nullable(t), MkText(u)], [MkText(c'), MkText(n'), Nullable(t'), MkText(u')];
    ArrayInjective(a, b);
    assert a[0] == b[0] && a[1] == b[1] && a[2] == b[2] && a[3] == b[3];
    StringInjective(c, c');
    StringInjective(n, n');
    StringInjective(u, u');
    NullableInjective(t, t');
  }

  lemma DcApiInfoInjective(o: bytes, n: bytes, t: bytes, o': bytes, n': bytes, t': bytes)
    requires DcApiInfo(o, n, t) == DcApiInfo(o', n', t')
    ensures o == o' && n == n' && t == t'
  {
    hide MkArray, MkText, Nullable;
    var a, b := [MkText(o), MkText(n), Nullable(t)], [MkText(o'), MkText(n'), Nullable(t')];
    ArrayInjective(a, b);
    assert a[0] == b[0] && a[1] == b[1] && a[2] == b[2];
    StringInjective(o, o');
    StringInjective(n, n');
    NullableInjective(t, t');
  }

  /** Two different byte strings with the same SHA-256 digest. */
  predicate Collides(env: Env, a: bytes, b: bytes) {
    a != b && Sha256(env, a) == Sha256(env, b)
  }

  /** Equal redirect transcripts come from equal inputs, or exhibit a SHA-256 collision. */
  lemma RedirectInjective(env: Env, c: bytes, n: bytes, t: bytes, u: bytes, c': bytes, n': bytes, t': bytes, u': bytes)
    requires ShortDigests(env)
    requires |c| < MAX_LENGTH && |n| < MAX_LENGTH && |t| < MAX_LENGTH && |u| < MAX_LENGTH
    requires |c'| < MAX_LENGTH && |n'| < MAX_LENGTH && |t'| < MAX_LENGTH && |u'| < MAX_LENGTH
    requires OID4VPHandover(env, c, n, t, u) == OID4VPHandover(env, c', n', t', u')
    ensures (c == c' && n == n' && t == t' && u == u') ||
            Collides(env, Print(RedirectInfo(c, n, t, u)), Print(RedirectInfo(c', n', t', u')))
  {
    hide Print, WF, RedirectInfo, TranscriptItem;
    var a, b := RedirectInfo(c, n, t, u), RedirectInfo(c', n', t', u');
    TranscriptItemInjective(Ascii("OpenID4VPHandover"), Sha256(env, Print(a)), Ascii("OpenID4VPHandover"),
      Sha256(env, Print(b)));
    if Print(a) == Print(b) {
      RedirectInfoWF(c, n, t, u);
      RedirectInfoWF(c', n', t', u');
      PrintInjective(a, b);
      RedirectInfoInjective(c, n, t, u, c', n', t', u');
    }
  }

  /** The same for the Digital Credentials API form. */
  lemma DcApiInjective(env: Env, o: bytes, n: bytes, t: bytes, o': bytes, n': bytes, t': bytes)
    requires ShortDigests(env)
    requires |o| < MAX_LENGTH && |n| < MAX_LENGTH && |t| < MAX_LENGTH
    requires |o'| < MAX_LENGTH && |n'| < MAX_LENGTH && |t'| < MAX_LENGTH
    requires OID4VPDCAPIHandover(env, o, n, t) == OID4VPDCAPIHandover(env, o', n', t')
    ensures (o == o' && n == n' && t == t') || Collides(env, Print(DcApiInfo(o, n, t)), Print(DcApiInfo(o', n', t')))
  {
    hide Print, WF, DcApiInfo, TranscriptItem;
    var a, b := DcApiInfo(o, n, t), DcApiInfo(o', n', t');
    TranscriptItemInjective(Ascii("OpenID4VPDCAPIHandover"), Sha256(env, Print(a)), Ascii("OpenID4VPDCAPIHandover"),
      Sha256(env, Print(b)));
    if Print(a) == Print(b) {
      DcApiInfoWF(o, n, t);
      DcApiInfoWF(o', n', t');
      PrintInjective(a, b);
      DcApiInfoInjective(o, n, t, o', n', t');
    }
  }

  /** A redirect transcript is never a DC-API transcript, collisions or not. */
  lemma HandoversNeverMeet(env: Env, c: bytes, n: bytes, t: bytes, u: bytes, o: bytes, n': bytes, t': bytes)
    requires ShortDigests(env)
    ensures OID4VPHandover(env, c, n, t, u) != OID4VPDCAPIHandover(env, o, n', t')
  {
    hide Print, RedirectInfo, DcApiInfo, TranscriptItem, Ascii;
    assert |Ascii("OpenID4VPHandover")| == 17 && |Ascii("OpenID4VPDCAPIHandover")| == 22;
    if OID4VPHandover(env, c, n, t, u) == OID4VPDCAPIHandover(env, o, n', t') {
      TranscriptItemInjective(Ascii("OpenID4VPHandover"), Sha256(env, Print(RedirectInfo(c, n, t, u))),
                              Ascii("OpenID4VPDCAPIHandover"), Sha256(env, Print(DcApiInfo(o, n', t'))));
    }
  }

  /** Both constructors yield transcripts that device authentication can embed. */
  lemma ConstructorsYieldItems(env: Env, c: bytes, n: bytes, t: bytes, u: bytes, o: bytes)
    requires ShortDigests(env)
    ensures ParseWhole(OID4VPHandover(env, c, n, t, u)).Some?
    ensures ParseWhole(OID4VPDCAPIHandover(env, o, n, t)).Some?
  {
    hide Print, RedirectInfo, DcApiInfo, TranscriptItem, ParseWhole;
    TranscriptFacts(Ascii("OpenID4VPHandover"), Sha256(env, Print(RedirectInfo(c, n, t, u))));
    TranscriptFacts(Ascii("OpenID4VPDCAPIHandover"), Sha256(env, Print(DcApiInfo(o, n, t))));
  }

  lemma NullByte()
    ensures Print(Null) == [0xf6]
  {
    assert HeadBytes(7, 0, 22) == [0xf6] + BigEndian(0, 22);
  }

  lemma ShortHead(major: nat, n: nat)
    requires major < 8 && n < 24
    ensures HeadBytes(major, 0, n) == [32 * major + n]
  {
    assert BigEndian(0, n) == [];
  }

  lemma ArrayHead(items: seq<Item>)
    requires |items| < 24
    ensures Print(MkArray(items)) == [128 + |items|] + PrintAll(items)
  {
    ShortHead(4, |items|);
    hide PrintAll, HeadBytes;
  }

  lemma PrintAllStep(x: Item, rest: seq<Item>)
    ensures PrintAll([x] + rest) == Print(x) + PrintAll(rest)
  {
    hide Print;
    assert ([x] + rest)[1..] == rest;
  }

  lemma TwoItems(a: Item, b: Item)
    ensures Print(MkArray([a, b])) == [0x82] + (Print(a) + Print(b))
  {
    hide Print, PrintAll, MkArray;
    ArrayHead([a, b]);
    PrintAllStep(a, [b]);
    PrintAllStep(b, []);
    assert [a] + [b] == [a, b] && [b] + [] == [b];
    NothingPrinted();
  }

  lemma NothingPrinted()
    ensures PrintAll([]) == []
  {
  }

  lemma ThreeItems(a: Item, b: Item, c: Item)
    ensures Print(MkArray([a, b, c])) == [0x83] + (Print(a) + (Print(b) + Print(c)))
  {
    hide Print, PrintAll, MkArray;
    ArrayHead([a, b, c]);
    PrintAllStep(a, [b, c]);
    PrintAllStep(b, [c]);
    PrintAllStep(c, []);
    assert [a] + [b, c] == [a, b, c] && [b] + [c] == [b, c] && [c] + [] == [c];
    NothingPrinted();
  }

  lemma ShortText(s: bytes)
    requires |s| < 24
    ensures Print(MkText(s)) == [96 + |s|] + s
  {
    ShortHead(3, |s|);
    hide HeadBytes;
  }

  lemma DigestBlob(d: bytes)
    requires |d| == 32
    ensures Print(MkBlob(d)) == [0x58, 0x20] + d
  {
    assert BigEndian(1, 32) == BigEndian(0, 0) + [32] == [32];
    assert HeadBytes(2, 1, 32) == [0x58] + BigEndian(1, 32);
  }

  lemma TranscriptLayout(name: bytes, digest: bytes)
    requires |name| < 24 && |digest| == 32
    ensures Print(TranscriptItem(name, digest)) == [0x83, 0xf6, 0xf6, 0x82, 96 + |name|] + name + [0x58, 0x20] + digest
  {
    hide Print, MkText, MkBlob, MkArray;
    ThreeItems(Null, Null, MkArray([MkText(name), MkBlob(digest)]));
    TwoItems(MkText(name), MkBlob(digest));
    NullByte();
    ShortText(name);
    DigestBlob(digest);
  }

  /** The exact bytes of both transcripts around a 32-byte digest. */
  lemma TranscriptBytes(env: Env, c: bytes, n: bytes, t: bytes, u: bytes)
    requires forall data :: |Sha256(env, data)| == 32
    ensures OID4VPHandover(env, c, n, t, u) ==
            [0x83, 0xf6, 0xf6, 0x82, 0x71] + Ascii("OpenID4VPHandover") + [0x58, 0x20] +
              Sha256(env, Print(RedirectInfo(c, n, t, u)))
    ensures OID4VPDCAPIHandover(env, c, n, t) ==
            [0x83, 0xf6, 0xf6, 0x82, 0x76] + Ascii("OpenID4VPDCAPIHandover") + [0x58, 0x20] +
              Sha256(env, Print(DcApiInfo(c, n, t)))
  {
    hide Print, Ascii, RedirectInfo, DcApiInfo, TranscriptItem, Sha256;
    assert |Ascii("OpenID4VPHandover")| == 17 && |Ascii("OpenID4VPDCAPIHandover")| == 22;
    TranscriptLayout(Ascii("OpenID4VPHandover"), Sha256(env, Print(RedirectInfo(c, n, t, u))));
    TranscriptLayout(Ascii("OpenID4VPDCAPIHandover"), Sha256(env, Print(DcApiInfo(c, n, t))));
  }
}
