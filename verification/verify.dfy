/** The verifier: every document of a response, judged at one instant, all or nothing. */
module Verification {
  import opened Basics
  import opened CborSyntax
  import opened Codec
  import opened Primitives
  import opened GoValues
  import opened Wire
  import opened Responses
  import opened StatusRefs
  import opened IssuerAuthentication
  import opened IssuerIntegrity
  import opened DeviceAuthentication

  datatype VerifyInput = VerifyInput(
    deviceResponse: bytes,
    sessionTranscript: bytes,
    issuerTrust: Option<Trust>,
    expectedDocType: bytes)

  datatype VerifiedDocument = VerifiedDocument(
    docType: bytes,
    namespaces: Disclosed,
    validityInfo: ValidityInfo,
    deviceKey: PublicKey,
    status: Option<StatusRef>,
    msoDigestAlg: bytes)

  // ----- what verification accepts -----

  function VerifyDocument(env: Env, doc: Document, st: bytes, trust: Trust, at: Time): Option<VerifiedDocument> {
    var a :- VerifyIssuerAuth(env, doc.issuerSigned.issuerAuth, trust, at).ToOption();
    if a.mso.docType != doc.docType then None
    else
      var namespaces :- Integrity(env, a.mso, doc.issuerSigned.nameSpaces);
      var _ :- VerifyDeviceAuth(env, doc, a.deviceKey, st).ToOption();
      var status :- ParseMSOStatus(env, a.mso.status).ToOption();
      Some(VerifiedDocument(doc.docType, namespaces, a.mso.validityInfo, a.deviceKey, status, a.mso.digestAlgorithm))
  }

  /** The first check that fails decides the error; within the integrity check any failing
      namespace may. */
  ghost predicate VerifyDocumentError(env: Env, doc: Document, st: bytes, trust: Trust, at: Time, e: Error) {
    match VerifyIssuerAuth(env, doc.issuerSigned.issuerAuth, trust, at)
    case Err(f) => e == f
    case Ok(a) =>
      if a.mso.docType != doc.docType then e == ErrDocTypeMismatch
      else if Integrity(env, a.mso, doc.issuerSigned.nameSpaces).None?
        then IntegrityError(env, a.mso, doc.issuerSigned.nameSpaces, e)
      else if VerifyDeviceAuth(env, doc, a.deviceKey, st).Err?
        then e == VerifyDeviceAuth(env, doc, a.deviceKey, st).error
      else ParseMSOStatus(env, a.mso.status) == Err(e)
  }

  predicate DocTypeExpected(doc: Document, expectedDocType: bytes) {
    expectedDocType == [] || doc.docType == expectedDocType
  }

  function JudgeDocument(env: Env, doc: Document, input: VerifyInput, trust: Trust,
      at: Time): Option<VerifiedDocument> {
    if !DocTypeExpected(doc, input.expectedDocType) then None
    else VerifyDocument(env, doc, input.sessionTranscript, trust, at)
  }

  ghost predicate JudgeError(env: Env, doc: Document, input: VerifyInput, trust: Trust, at: Time, e: Error) {
    if !DocTypeExpected(doc, input.expectedDocType) then e == ErrDocTypeMismatch
    else VerifyDocumentError(env, doc, input.sessionTranscript, trust, at, e)
  }

  function JudgeAll(env: Env, docs: seq<Document>, input: VerifyInput, trust: Trust,
      at: Time): (r: seq<Option<VerifiedDocument>>)
    ensures |r| == |docs| && forall i | 0 <= i < |docs| :: r[i] == JudgeDocument(env, docs[i], input, trust, at)
  {
    seq(|docs|, i requires 0 <= i < |docs| => JudgeDocument(env, docs[i], input, trust, at))
  }

  /** The verdict on a whole response at one instant. */
  function Verified(env: Env, input: VerifyInput, at: Time): Option<seq<VerifiedDocument>> {
    var trust :- input.issuerTrust;
    var resp :- DecodeDeviceResponse(input.deviceResponse).ToOption();
    if resp.documents == [] then None else AllOf(JudgeAll(env, resp.documents, input, trust, at))
  }

  /** Document `i` is the first that fails, with error `e`. */
  ghost predicate FirstFailure(env: Env, docs: seq<Document>, input: VerifyInput, trust: Trust, at: Time, i: nat,
      e: Error) {
    i < |docs| && JudgeError(env, docs[i], input, trust, at, e) &&
    JudgeDocument(env, docs[i], input, trust, at).None? &&
    forall j | 0 <= j < i :: JudgeDocument(env, docs[j], input, trust, at).Some?
  }

  ghost predicate VerifyError(env: Env, input: VerifyInput, at: Time, e: Error) {
    if input.issuerTrust.None? then e == ErrUnsupported
    else
      match DecodeDeviceResponse(input.deviceResponse)
      case Err(f) => e == f
      case Ok(resp) =>
        if resp.documents == [] then e == ErrMalformed
        else exists i :: FirstFailure(env, resp.documents, input, input.issuerTrust.value, at, i, e)
  }

  // ----- the verifier object -----

  /** A time source: each call yields the next reading, which may be any instant. */
  class Clock {
    const tick: nat -> Time
    var calls: nat

    constructor (tick: nat -> Time)
      ensures this.tick == tick && calls == 0
    {
      this.tick := tick;
      calls := 0;
    }

    method Now() returns (t: Time)
      modifies this
      ensures t == tick(old(calls)) && calls == old(calls) + 1
    {
      t := tick(calls);
      calls := calls + 1;
    }
  }

  /** The last clock supplied, or the default when every option is nil. */
  function Configured(wall: Clock, options: seq<Option<Clock>>): Clock {
    if options == [] then wall
    else if options[|options| - 1].Some? then options[|options| - 1].value
    else Configured(wall, options[..|options| - 1])
  }

  class Verifier {
    var now: Clock

    /** Options apply in order; a nil clock changes nothing. */
    constructor (wall: Clock, options: seq<Option<Clock>>)
      ensures now == Configured(wall, options)
    {
      var clock := wall;
      for i := 0 to |options|
        invariant clock == Configured(wall, options[..i])
      {
        assert options[..i + 1][..i] == options[..i];
        if options[i].Some? {
          clock := options[i].value;
        }
      }
      assert options[..|options|] == options;
      now := clock;
    }

    method CheckDocument(env: Env, doc: Document, st: bytes, trust: Trust, at: Time)
        returns (r: Result<VerifiedDocument>)
      ensures r.ToOption() == VerifyDocument(env, doc, st, trust, at)
      ensures r.Err? ==> VerifyDocumentError(env, doc, st, trust, at, r.error)
    {
      hide VerifyIssuerAuth, Integrity, IntegrityError, VerifyDeviceAuth, ParseMSOStatus;
      var a :- VerifyIssuerAuth(env, doc.issuerSigned.issuerAuth, trust, at);
      if a.mso.docType != doc.docType {
        return Err(ErrDocTypeMismatch);
      }
      var namespaces :- VerifyIssuerIntegrity(env, a.mso, doc.issuerSigned.nameSpaces);
      var _ :- VerifyDeviceAuth(env, doc, a.deviceKey, st);
      var status :- ParseMSOStatus(env, a.mso.status);
      return Ok(VerifiedDocument(doc.docType, namespaces, a.mso.validityInfo, a.deviceKey, status,
        a.mso.digestAlgorithm));
    }

    /** The clock is read once, after the response decodes, and every document is judged at
        that reading. */
    method Verify(env: Env, input: VerifyInput) returns (r: Result<seq<VerifiedDocument>>, ghost at: Time)
      modifies now
      ensures now == old(now)
      ensures input.issuerTrust.Some? && DecodeDeviceResponse(input.deviceResponse).Ok? ==>
                now.calls == old(now.calls) + 1 && at == now.tick(old(now.calls))
      ensures input.issuerTrust.None? || DecodeDeviceResponse(input.deviceResponse).Err? ==> now.calls == old(now.calls)
      ensures r.ToOption() == Verified(env, input, at)
      ensures r.Err? ==> VerifyError(env, input, at, r.error)
    {
      hide VerifyDocument, VerifyDocumentError, DecodeDeviceResponse, DocTypeExpected;
      at := ZERO_TIME;
      if input.issuerTrust.None? {
        return Err(ErrUnsupported), at;
      }
      var trust := input.issuerTrust.value;
      var resp := DecodeDeviceResponse(input.deviceResponse);
      if resp.Err? {
        return Err(resp.error), at;
      }
      var docs := resp.value.documents;
      var instant := now.Now();
      at := instant;
      var out: seq<VerifiedDocument> := [];
      for i := 0 to |docs|
        invariant |out| == i && at == instant
        invariant now == old(now) && now.calls == old(now.calls) + 1
        invariant forall j | 0 <= j < i :: JudgeDocument(env, docs[j], input, trust, at) == Some(out[j])
      {
        if !DocTypeExpected(docs[i], input.expectedDocType) {
          assert FirstFailure(env, docs, input, trust, at, i, ErrDocTypeMismatch);
          return Err(ErrDocTypeMismatch), at;
        }
        var vd := CheckDocument(env, docs[i], input.sessionTranscript, trust, instant);
        if vd.Err? {
          assert FirstFailure(env, docs, input, trust, at, i, vd.error);
          return Err(vd.error), at;
        }
        out := out + [vd.value];
      }
      if |out| == 0 {
        return Err(ErrMalformed), at;
      }
      assert AllOf(JudgeAll(env, docs, input, trust, at)).value == out;
      return Ok(out), at;
    }
  }

  // ----- all or nothing -----

  lemma VerifiedNeeds(env: Env, input: VerifyInput, at: Time)
    requires Verified(env, input, at).Some?
    ensures input.issuerTrust.Some? && DecodeDeviceResponse(input.deviceResponse).Ok?
    ensures var docs := DecodeDeviceResponse(input.deviceResponse).value.documents;
            var out := Verified(env, input, at).value;
            docs != [] && |out| == |docs| &&
            forall i | 0 <= i < |docs| :: JudgeDocument(env, docs[i], input, input.issuerTrust.value, at) ==
              Some(out[i])
  {
    hide DecodeDeviceResponse, JudgeDocument;
  }

  lemma JudgedFrom(env: Env, doc: Document, input: VerifyInput, trust: Trust, at: Time)
    requires JudgeDocument(env, doc, input, trust, at).Some?
    ensures var vd := JudgeDocument(env, doc, input, trust, at).value;
            vd.docType == doc.docType && (input.expectedDocType != [] ==> vd.docType == input.expectedDocType) &&
            VerifyIssuerAuth(env, doc.issuerSigned.issuerAuth, trust, at).Ok? &&
            VerifyIssuerAuth(env, doc.issuerSigned.issuerAuth, trust, at).value.mso.docType == doc.docType
  {
    hide VerifyIssuerAuth, Integrity, VerifyDeviceAuth, ParseMSOStatus;
  }

  /** Success is non-empty and entry i comes from document i, all at the same instant, with the
      document type that was signed and, if one was expected, expected. One failing document
      and nothing is returned. */
  lemma AllOrNothing(env: Env, input: VerifyInput, at: Time)
    requires input.issuerTrust.Some? && DecodeDeviceResponse(input.deviceResponse).Ok?
    ensures var docs, trust := DecodeDeviceResponse(input.deviceResponse).value.documents, input.issuerTrust.value;
            Verified(env, input, at).Some? <==>
            docs != [] && forall d | d in docs :: JudgeDocument(env, d, input, trust, at).Some?
    ensures Verified(env, input, at).Some? ==>
              var docs, trust := DecodeDeviceResponse(input.deviceResponse).value.documents, input.issuerTrust.value;
              var out := Verified(env, input, at).value;
              0 < |out| == |docs| &&
              forall i | 0 <= i < |docs| ::
                out[i].docType == docs[i].docType &&
                (input.expectedDocType != [] ==> out[i].docType == input.expectedDocType) &&
                VerifyIssuerAuth(env, docs[i].issuerSigned.issuerAuth, trust, at).Ok? &&
                VerifyIssuerAuth(env, docs[i].issuerSigned.issuerAuth, trust, at).value.mso.docType == docs[i].docType
  {
    hide DecodeDeviceResponse, JudgeDocument, VerifyIssuerAuth;
    var docs, trust := DecodeDeviceResponse(input.deviceResponse).value.documents, input.issuerTrust.value;
    if Verified(env, input, at).Some? {
      VerifiedNeeds(env, input, at);
      var out := Verified(env, input, at).value;
      forall i | 0 <= i < |docs|
        ensures out[i].docType == docs[i].docType
        ensures input.expectedDocType != [] ==> out[i].docType == input.expectedDocType
        ensures VerifyIssuerAuth(env, docs[i].issuerSigned.issuerAuth, trust, at).Ok?
        ensures VerifyIssuerAuth(env, docs[i].issuerSigned.issuerAuth, trust, at).value.mso.docType == docs[i].docType
      {
        JudgedFrom(env, docs[i], input, trust, at);
      }
    }
  }

  /** The response as it reads, flagged or not. */
  function ReadRaw(raw: bytes): Option<DeviceResponse> {
    match Decode(raw)
    case Err(_) => None
    case Ok(x) => ReadResponse(x)
  }

  predicate Flagged(resp: DeviceResponse) {
    resp.status != 0 || resp.documentErrors > 0
  }

  /** What is verified came from a response with a version, no flag and some document. One that the
      wallet flagged, by a status or by document errors, is refused whole with its own error,
      whatever documents it carries. */
  lemma VerifiedResponseIsClean(env: Env, input: VerifyInput, at: Time)
    ensures Verified(env, input, at).Some? ==>
              match ReadRaw(input.deviceResponse)
              case None => false
              case Some(resp) => resp.version != [] && !Flagged(resp) && resp.documents != []
    ensures match ReadRaw(input.deviceResponse)
            case None => true
            case Some(resp) =>
              input.issuerTrust.Some? && resp.version != [] && Flagged(resp) ==>
                forall e | VerifyError(env, input, at, e) :: e == ErrDeviceResponseStatus
  {
    hide Decode, ReadResponse, JudgeDocument;
  }
}
