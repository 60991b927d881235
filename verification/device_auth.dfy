/** DeviceAuthentication: what the device signs, and how the verifier rebuilds and checks it. */
module DeviceAuthentication {
  import opened Basics
  import opened CborSyntax
  import opened Codec
  import opened Structs
  import opened Primitives
  import opened Cose
  import opened CoseSign1
  import opened SessionTranscripts
  import opened Wire
  import opened Responses

  /** ["DeviceAuthentication", SessionTranscript, DocType, DeviceNameSpacesBytes]. */
  function DeviceAuthArray(st: bytes, docType: bytes, nameSpaces: bytes): Item {
    MkArray([MkText(Ascii("DeviceAuthentication")), Embed(st), MkText(docType), Embed(nameSpaces)])
  }

  function DeviceAuthenticationBytes(st: bytes, docType: bytes, nameSpaces: bytes): Result<bytes> {
    if !RawOk(st) || !RawOk(nameSpaces) then Err(ErrMalformed)
    else EncodeTagged24(DeviceAuthArray(st, docType, nameSpaces))
  }

  function VerifyDeviceAuth(env: Env, doc: Document, deviceKey: PublicKey, st: bytes): Result<()> {
    var auth := doc.deviceSigned.deviceAuth;
    if auth.deviceMac != [] then Err(ErrDeviceMacUnsupported)
    else if auth.deviceSignature == [] then Err(ErrDeviceAuth)
    else if st == [] then Err(ErrDeviceAuth)
    else
      match DeviceAuthenticationBytes(st, doc.docType, doc.deviceSigned.nameSpaces)
      case Err(_) => Err(ErrDeviceAuth)
      case Ok(payload) =>
        match SpliceCOSEPayload(auth.deviceSignature, payload)
        case Err(_) => Err(ErrDeviceAuth)
        case Ok(spliced) =>
          if VerifyCOSESign1(env, spliced, deviceKey).Some? then Ok(()) else Err(ErrDeviceAuth)
  }

  // ----- injectivity -----

  /** A raw message as it appears on the wire: an absent one is null. */
  function WireForm(raw: bytes): bytes {
    if raw == [] then Print(Null) else raw
  }

  lemma EmbedInjective(a: bytes, b: bytes)
    requires RawOk(a) && RawOk(b) && Embed(a) == Embed(b)
    ensures WireForm(a) == WireForm(b)
  {
    EmbedIsVerbatim(a);
    EmbedIsVerbatim(b);
    hide Embed, RawOk, Print;
    assert Embed([]) == Null by { EmbedNothing(); }
  }

  lemma EmbedNothing()
    ensures Embed([]) == Null
  {
  }

  lemma Tagged24Injective(x: Item, y: Item)
    requires EncodeTagged24(x).Ok? && EncodeTagged24(x) == EncodeTagged24(y)
    ensures x == y
  {
    hide EncodeTagged24, Untag24, Print, WF, ParseWhole, InLimits, DecodeTagged24;
    Tagged24RoundTrip(x);
    Tagged24RoundTrip(y);
    PrintInjective(x, y);
  }

  lemma DeviceAuthArrayInjective(s: bytes, d: bytes, n: bytes, s': bytes, d': bytes, n': bytes)
    requires DeviceAuthArray(s, d, n) == DeviceAuthArray(s', d', n')
    ensures Embed(s) == Embed(s') && d == d' && Embed(n) == Embed(n')
  {
    hide Embed, MkArray, MkText;
    var tag := MkText(Ascii("DeviceAuthentication"));
    var a, b := [tag, Embed(s), MkText(d), Embed(n)], [tag, Embed(s'), MkText(d'), Embed(n')];
    ArrayInjective(a, b);
    assert a[1] == b[1] && a[2] == b[2] && a[3] == b[3];
    StringInjective(d, d');
  }

  /** The bytes to be authenticated determine the transcript, the document type and the
      device namespaces. */
  lemma DeviceAuthenticationInjective(s: bytes, d: bytes, n: bytes, s': bytes, d': bytes, n': bytes)
    requires DeviceAuthenticationBytes(s, d, n).Ok?
    requires DeviceAuthenticationBytes(s, d, n) == DeviceAuthenticationBytes(s', d', n')
    ensures WireForm(s) == WireForm(s') && d == d' && WireForm(n) == WireForm(n')
  {
    hide DeviceAuthArray, EncodeTagged24, Embed, RawOk, WireForm;
    Tagged24Injective(DeviceAuthArray(s, d, n), DeviceAuthArray(s', d', n'));
    DeviceAuthArrayInjective(s, d, n, s', d', n');
    EmbedInjective(s, s');
    EmbedInjective(n, n');
  }

  // ----- what acceptance means -----

  /** The device key accepted some signature over these exact bytes. */
  ghost predicate DeviceSignedOff(env: Env, deviceKey: PublicKey, payload: bytes) {
    exists protected, signature ::
      |protected| < MAX_LENGTH && env.sigOk(deviceKey, ToBeSigned(protected, payload), signature)
  }

  lemma VerifiedPartsSigned(env: Env, p: Parts, payload: bytes, key: PublicKey)
    requires |payload| < MAX_LENGTH && p.payload == Print(MkBlob(payload)) && VerifyParts(env, p, key).Some?
    ensures DeviceSignedOff(env, key, payload)
  {
    BlobOfPrint(payload);
    hide BlobOf, Print, MkBlob, Element, WF, ToBeSigned;
    BlobOfFits(p.protected);
    var protected, signature := BlobOf(p.protected).value, BlobOf(p.signature).value;
    assert env.sigOk(key, ToBeSigned(protected, payload), signature);
  }

  lemma PrintTagged(inner: bytes)
    ensures Print(MkTag(24, MkBlob(inner))) == HeadBytes(6, 1, 24) + (HeadBytes(2, MinWidth(|inner|), |inner|) + inner)
  {
    assert Print(MkBlob(inner)) == HeadBytes(2, MinWidth(|inner|), |inner|) + inner;
  }

  lemma AcceptedSignature(env: Env, signature: bytes, payload: bytes, deviceKey: PublicKey)
    requires SpliceCOSEPayload(signature, payload).Ok?
    requires VerifyCOSESign1(env, SpliceCOSEPayload(signature, payload).value, deviceKey).Some?
    ensures |payload| < MAX_LENGTH && DeviceSignedOff(env, deviceKey, payload)
  {
    hide CoseParts, CoseAssemble, VerifyCOSESign1, VerifyParts, Print, ToBeSigned, DeviceSignedOff;
    assert WF(MkBlob(payload)) by { hide SpliceCOSEPayload; SplicedBlob(signature, payload); }
    BlobFits(payload);
    SplicedParts(signature, payload);
    SplicedVerifies(env, signature, payload, deviceKey);
    hide SpliceCOSEPayload;
    VerifiedPartsSigned(env, CoseParts(signature).value.(payload := Print(MkBlob(payload))), payload, deviceKey);
  }

  lemma SplicedBlob(signature: bytes, payload: bytes)
    requires SpliceCOSEPayload(signature, payload).Ok?
    ensures WF(MkBlob(payload)) && CoseParts(signature).Ok?
  {
    hide CoseParts, CoseAssemble, WF;
  }

  /** An accepted document was signed off by the device key for this very transcript, this
      document type and these device namespaces. */
  lemma AcceptedDeviceAuth(env: Env, doc: Document, deviceKey: PublicKey, st: bytes)
    requires VerifyDeviceAuth(env, doc, deviceKey, st).Ok?
    ensures st != [] && DeviceAuthenticationBytes(st, doc.docType, doc.deviceSigned.nameSpaces).Ok?
    ensures doc.deviceSigned.deviceAuth.deviceMac == []
    ensures var payload := DeviceAuthenticationBytes(st, doc.docType, doc.deviceSigned.nameSpaces).value;
            |payload| < MAX_LENGTH && DeviceSignedOff(env, deviceKey, payload)
  {
    hide DeviceAuthenticationBytes, SpliceCOSEPayload, VerifyCOSESign1, DeviceSignedOff;
    var payload := DeviceAuthenticationBytes(st, doc.docType, doc.deviceSigned.nameSpaces).value;
    AcceptedSignature(env, doc.deviceSigned.deviceAuth.deviceSignature, payload, deviceKey);
  }

  /** The signature, over the rebuilt bytes, verifies under the device key. */
  ghost predicate SignatureHolds(env: Env, signature: bytes, payload: bytes, deviceKey: PublicKey) {
    |payload| < MAX_LENGTH && CoseParts(signature).Ok? &&
    VerifyParts(env, CoseParts(signature).value.(payload := Print(MkBlob(payload))), deviceKey).Some?
  }

  lemma SplicedHolds(env: Env, signature: bytes, payload: bytes, deviceKey: PublicKey)
    ensures SignatureHolds(env, signature, payload, deviceKey) <==>
            SpliceCOSEPayload(signature, payload).Ok? &&
            VerifyCOSESign1(env, SpliceCOSEPayload(signature, payload).value, deviceKey).Some?
  {
    hide CoseParts, CoseAssemble, VerifyCOSESign1, VerifyParts, Print;
    if SpliceCOSEPayload(signature, payload).Ok? {
      hide SpliceCOSEPayload;
      SplicedBlob(signature, payload);
      BlobFits(payload);
    }
    hide SpliceCOSEPayload;
    if CoseParts(signature).Ok? && |payload| < MAX_LENGTH {
      SplicedVerifies(env, signature, payload, deviceKey);
    }
  }

  /** Acceptance is exactly: no deviceMac, a signature and a transcript present, bytes that can be
      rebuilt, and a signature that holds over them. Everything else is ErrDeviceAuth, a
      deviceMac its own error. */
  lemma DeviceAuthExact(env: Env, doc: Document, deviceKey: PublicKey, st: bytes)
    ensures var auth := doc.deviceSigned.deviceAuth;
            var payload := DeviceAuthenticationBytes(st, doc.docType, doc.deviceSigned.nameSpaces);
            VerifyDeviceAuth(env, doc, deviceKey, st).Ok? <==>
            auth.deviceMac == [] && auth.deviceSignature != [] && st != [] && payload.Ok? &&
            SignatureHolds(env, auth.deviceSignature, payload.value, deviceKey)
    ensures VerifyDeviceAuth(env, doc, deviceKey, st).Err? ==>
              VerifyDeviceAuth(env, doc, deviceKey, st).error ==
              if doc.deviceSigned.deviceAuth.deviceMac != [] then ErrDeviceMacUnsupported else ErrDeviceAuth
  {
    hide DeviceAuthenticationBytes, SpliceCOSEPayload, VerifyCOSESign1, SignatureHolds;
    var payload := DeviceAuthenticationBytes(st, doc.docType, doc.deviceSigned.nameSpaces);
    if payload.Ok? {
      SplicedHolds(env, doc.deviceSigned.deviceAuth.deviceSignature, payload.value, deviceKey);
    }
  }

  // ----- presenting -----

  /** Empty DeviceNameSpaces. */
  const NO_NAMESPACES: Item := Map(0, [])

  function EmptyDeviceNameSpaces(): Result<bytes> { EncodeTagged24(NO_NAMESPACES) }

  /** Signs DeviceAuthentication and detaches the payload. */
  function SignDeviceAuth(signer: Signer, st: bytes, docType: bytes): Result<DeviceSigned> {
    var nameSpaces :- EmptyDeviceNameSpaces();
    var payload :- DeviceAuthenticationBytes(st, docType, nameSpaces);
    var attached :- SignCOSESign1(signer, payload);
    var detached :- DetachCOSEPayload(attached);
    Ok(DeviceSigned(nameSpaces, DeviceAuth(detached, [])))
  }

  /** The device's signature on this session verifies. */
  ghost predicate DeviceVouches(env: Env, signer: Signer, st: bytes, docType: bytes) {
    EmptyDeviceNameSpaces().Ok? && DeviceAuthenticationBytes(st, docType, EmptyDeviceNameSpaces().value).Ok? ==>
      Vouches(env, signer,
              ToBeSigned(signer.protected, DeviceAuthenticationBytes(st, docType, EmptyDeviceNameSpaces().value).value))
  }

  /** What a correct device signs for a transcript is accepted for that transcript. */
  lemma SignedDeviceAuthAccepted(env: Env, signer: Signer, st: bytes, doc: Document)
    requires DeviceVouches(env, signer, st, doc.docType) && st != []
    requires SignDeviceAuth(signer, st, doc.docType) == Ok(doc.deviceSigned)
    ensures VerifyDeviceAuth(env, doc, signer.pub, st) == Ok(())
  {
    hide EmptyDeviceNameSpaces, DeviceAuthenticationBytes, SignCOSESign1, DetachCOSEPayload,
         SpliceCOSEPayload, CoseParts;
    hide VerifyCOSESign1, VerifyParts, Vouches, ToBeSigned, SignedParts, Elements;
    var nameSpaces := EmptyDeviceNameSpaces().value;
    var payload := DeviceAuthenticationBytes(st, doc.docType, nameSpaces).value;
    var attached := SignCOSESign1(signer, payload).value;
    PartsOfSigned(signer, payload);
    DetachedParts(attached);
    DetachedNotEmpty(attached);
    var detached := DetachCOSEPayload(attached).value;
    SplicedVerifies(env, detached, payload, signer.pub);
    SignedVerifies(env, signer, payload);
    assert CoseParts(detached).value.(payload := Print(MkBlob(payload))) == SignedParts(signer, payload) by {
      SignedPayload(signer, payload);
    }
  }

  lemma SignedPayload(signer: Signer, payload: bytes)
    ensures SignedParts(signer, payload).payload == Print(MkBlob(payload))
  {
  }

  lemma DetachedNotEmpty(raw: bytes)
    requires CoseParts(raw).Ok? && DetachCOSEPayload(raw).Ok?
    ensures DetachCOSEPayload(raw).value != []
  {
    PartsAreElements(raw);
    assert WF(Null) && InLimits(Null, 15);
    ElementPrint(Null, 15);
    hide CoseParts, CoseAssemble, Element, Print, WF;
    AssembledHead(CoseParts(raw).value.(payload := Print(Null)));
  }
}
