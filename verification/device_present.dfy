/** The wallet: disclose a selection and sign the session. */
module DevicePresenting {
  import opened Basics
  import opened Primitives
  import opened Cose
  import opened Wire
  import opened Responses
  import opened IssuerAuthentication
  import opened Presenting
  import opened DeviceAuthentication

  /** The document type in the wallet's own credential, read without checking a signature. */
  function DocTypeFromIssuerAuth(env: Env, issuerAuth: bytes): Result<bytes> {
    var p :- CoseParts(issuerAuth);
    var mso :- MsoOfElement(env, p.payload);
    Ok(mso.docType)
  }

  /** A response that carries one document. */
  function OneDocument(doc: Document): DeviceResponse {
    DeviceResponse(Ascii("1.0"), [doc], 0, 0)
  }

  /** Signs the session and builds the response around what was selected. */
  function PresentSelected(device: Signer, docType: bytes, disclosed: IssuerSigned, st: bytes): Result<bytes> {
    var deviceSigned :- SignDeviceAuth(device, st, docType);
    EncodeDeviceResponse(OneDocument(Document(docType, disclosed, deviceSigned)))
  }

  /** The response for a request; when the selection fails the error is one of those
      `SelectError` admits. */
  function Present(env: Env, device: Signer, credential: bytes, disclose: Request, st: bytes): Result<bytes> {
    var s :- DecodeIssuerSigned(credential);
    var docType :- DocTypeFromIssuerAuth(env, s.issuerAuth);
    match SelectDisclosed(s.nameSpaces, disclose)
    case None => Err(ErrUnsupported)
    case Some(selected) => PresentSelected(device, docType, IssuerSigned(selected, s.issuerAuth), st)
  }

  ghost predicate PresentError(env: Env, device: Signer, credential: bytes, disclose: Request, st: bytes, e: Error) {
    match DecodeIssuerSigned(credential)
    case Err(f) => e == f
    case Ok(s) =>
      if DocTypeFromIssuerAuth(env, s.issuerAuth).Err? then DocTypeFromIssuerAuth(env, s.issuerAuth) == Err(e)
      else if SelectDisclosed(s.nameSpaces, disclose).None? then SelectError(s.nameSpaces, disclose, e)
      else Present(env, device, credential, disclose, st) == Err(e)
  }

  method DevicePresent(env: Env, device: Signer, credential: bytes, disclose: Request, st: bytes)
      returns (r: Result<bytes>)
    ensures r.ToOption() == Present(env, device, credential, disclose, st).ToOption()
    ensures r.Err? ==> PresentError(env, device, credential, disclose, st, r.error)
  {
    hide DecodeIssuerSigned, DocTypeFromIssuerAuth, SelectDisclosed, SelectError, PresentSelected;
    var s :- DecodeIssuerSigned(credential);
    var docType :- DocTypeFromIssuerAuth(env, s.issuerAuth);
    var selected :- SelectForDisclosure(s.nameSpaces, disclose);
    r := PresentSelected(device, docType, IssuerSigned(selected, s.issuerAuth), st);
  }
}
