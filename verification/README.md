# go-mdoc, modelled and proved

A Dafny model of the mdoc pipeline of ISO/IEC 18013-5: an issuer seals a credential, a wallet
discloses a part of it and signs the session, and a verifier decides. Everything rests on a
concrete CBOR byte layer, so that "the exact wire bytes" is a statement about byte strings.

Three theorems carry the project.

- **Completeness** (`HonestRuns.EveryHonestRunVerifies`). For every template of sizes a program can
  hold, under every map iteration order and every salt, for every valid device key, every transcript
  that is one item and every request: issuing succeeds; the wallet answers if and only if the
  template's object reads and the requested namespaces read and offer what is asked for; and the
  verifier then returns exactly what was asked for - the elements as encoding and decoding give them
  (`GoValues.Received`), the validity cut to the second, the device key, the status reference and the
  algorithm - if those values decode, the status is usable and the instant is timely, and nothing
  otherwise. For ordinary templates the outcome is the template itself
  (`Completeness.CleanTemplateArrives`).
- **Soundness** (`Soundness.VerifiedIsIssued`). After any run of sealings and presentations, in any
  interleaving and with keys that may play both roles, every document of every response that
  verifies is a part of one credential an honest issuer sealed - or two byte strings with the same
  digest are exhibited.
- **Session binding** (`Soundness.VerifiedIsPresented`, `Soundness.ReplayIsRefused`). What verifies
  was presented by its own device key over the verifier's own transcript; in every other session it
  is refused.

## How the model is built

- `cbor_syntax.dfy` - items that record the width of every head. Printing and parsing are inverse
  in both directions, so a raw message is the print of its item.
- `codec.dfy`, `utf8.dfy`, `structs.dfy`, `go_values.dfy` - the decoder's limits, UTF-8, duplicate
  keys and trailing data; canonical map order; structs, and the dynamic values of data elements.
- `wire.dfy`, `responses.dfy`, `status.dfy` - the wire structs, tag 24, times, the response decoder.
- `cose.dfy`, `cose_sign1.dfy`, `cose_key.dfy`, `session_transcript.dfy`, `device_auth.dfy` - the
  COSE surgery, keys, transcripts and device authentication.
- `issue.dfy`, `present.dfy`, `device_present.dfy`, `integrity.dfy`, `mso.dfy`, `verify.dfy` - the
  operations. Where the program loops or updates, a method does so too and is proved equal to a
  function; `Choices` records the map orders and the salts of one issuing run.
- `issued.dfy`, `credential.dfy`, `completeness.dfy`, `honest_runs.dfy`, `soundness.dfy` - the
  theorems.
- `registry.dfy` - the descriptive report.

The premises of the three theorems hold together: `HonestRuns.TheoremsMeet` exhibits a run
in which the request is presentable, the instant timely and the issued item's digest its own.

What the package delegates is a parameter (`primitives.dfy`): the hash, signature verification,
certificate windows, RFC 3339 text and curve membership. A signer is a public key, a protected
header and a signature for each message. The trust boundary is any function from chain and time
to a key. A clock may show any instant at each reading. Signatures are ideal for honest keys only
(`Soundness.Unforgeable`): what such a key accepts, it signed in the run.

Times lose their fraction of a second on the wire, and so the verdict on the wire can differ from
the issuer's own. `Credentials.ValidityOnTheWire` says exactly when: an instant in the fraction
before validFrom is accepted early, one in the fraction before validUntil is refused early, and a
window that fits in one second is refused altogether; `Credentials.ValidityDiffers` exhibits the
first two. A signing instant not before a whole-second notBefore stays so on the wire
(`Credentials.WholeSecondLeaf`). The re-assertion of the signing time, which the repository's
documentation presents as a second check, can never reject
(`IssuerAuthentication.ReassertionNeverRejects`).

The issuer checks none of what the wallet and the verifier later need: it seals templates with
identifiers that are not UTF-8, values nested too deeply for an item, or a text under tag 0 that is
no time. `Completeness.PresentExact` and `Completeness.PresentedVerdict` name the exact conditions.

`ErrTooLarge` has no counterpart in the program: it stands for a length or an integer of 2^64 or
more, which no CBOR head can carry.

Check with `dafny verify dfyconfig.toml`.

## Model

| member | source | states |
|---|---|---|
| CborSyntax.ParsePrint | cbor.go:70-73 | For every well-formed item and every continuation, parsing the print of the item returns that item and leaves the continuation; heads are 1, 2, 3, 5 or 9 bytes (section 3 of RFC 8949) |
| CborSyntax.PrintParse | cbor.go:70-73 | Whatever the parser accepts prints back to exactly the bytes it consumed, so a raw message is the print of one item |
| CborSyntax.PrefixFree | cbor.go:66-84 | No encoding is a proper prefix of another: a concatenation of items splits in one way only |
| CborSyntax.PrintInjective | cbor.go:86-93 | Different items have different encodings |
| Codec.StreamDecoder.constructor | cbor.go:71 | A decoder starts at offset 0 of the given bytes |
| Codec.StreamDecoder.Next | cbor.go:72-80 | One read yields the next item within the limits and advances past exactly its bytes, or reports end of input exactly when nothing is left, or fails without moving |
| Codec.DecodeStream | cbor.go:70-84 | Two reads of one stream, item then end of input, accept exactly what the one-item decoder accepts |
| Codec.DecodeIsExact | cbor.go:66-84 | A decoded item prints back to the whole input and respects the nesting and size limits |
| Codec.DecodeAccepts | cbor.go:66-84 | The decoder accepts exactly the prints of single items within the limits, and returns that item; the reading of accepted bytes is unique |
| Codec.DecodeEncode | cbor.go:16-20 | decode(encode(x)) is x exactly when x nests at most 16 levels with at most 65536 elements or pairs per container; the encoder itself enforces no limit |
| Codec.EmbedIsVerbatim | cbor.go:86-93 | A raw message that is one item is re-emitted byte for byte |
| Codec.SortKeysSorted | cbor.go:54-55 | Map keys are written strictly increasing, shorter encodings first, then bytewise (section 4.2.3 of RFC 8949) |
| Codec.SortKeysIs | cbor.go:54-55 | Any strictly increasing enumeration of a map's keys is the one the encoder writes, so encodings do not depend on map iteration |
| Responses.ResponseKeyOrder | model.go:10-15 | The members of a response are written status, version, documents, the order of the repository's fixture |
| Structs.AsMapMkMap | cbor.go:33 | Decoding a canonical map returns the map exactly when its text keys are UTF-8 |
| Codec.KeyMapExact | cbor.go:33 | A map is read exactly when its keys are readable and no two are the same value, and then holds exactly the pairs: duplicates are refused (section 5.6 of RFC 8949) |
| Utf8Text.Utf8Exact | cbor.go:45 | The text test accepts exactly the encodings of sequences of Unicode scalar values (section 3 of RFC 3629) |
| Structs.FieldsOfMkStruct | cbor.go:40-44 | A struct's known members survive encoding and decoding, and unknown members are tolerated |
| Structs.MkStructInLimits | cbor.go:16-20 | A struct is within a nesting budget exactly when each member is within one level less |
| GoValues.ReadValueItem | integrity.go:60-66 | For every dynamic value: what decoding makes of its encoding is exactly what `Received` says, and is refused exactly when it says so. Tag 0 and 1 contents become times and must be readable ones, tags 2 and 3 big integers, the self-describing tag disappears, texts and map keys must be UTF-8 |
| GoValues.CleanIsReceived | integrity.go:60-66 | A value of any nesting survives unchanged when its texts and keys are UTF-8, its tags are not built-in ones, its times are what their own text says and its big integers do not fit a 64-bit head |
| GoValues.BuiltInTags | integrity.go:60-66 | Tag 0 around a text is refused unless the text is a time, tag 2 around a text always, and tag 55799 is dropped |
| Wire.Tagged24RoundTrip | cbor.go:99-132 | untag24 of an encoded value is exactly the embedded encoding, and decodeTagged24 returns the value exactly when it is within the limits |
| Wire.ItemRoundTrip | model.go:43-48 | An encoded IssuerSignedItem reads back as itself exactly when its identifier is UTF-8 and its value leaves one nesting level |
| Wire.NameSpacesRoundTrip | model.go:38-40 | IssuerNameSpaces keep every item's exact bytes across encode and decode; nil lists travel as null |
| Wire.WireValidityTruncates | model.go:79-84 | Times come back cut to the second and nothing else changes; a zero expectedUpdate comes back as none |
| Wire.MsoRoundTrip | model.go:53-61 | A MobileSecurityObject reads back with the wire's times exactly when its texts are UTF-8, its times parse and its tables are within the limits |
| Responses.ReadDocumentItem | model.go:21-26 | A document reads back as itself exactly when its document type and namespace names are UTF-8 |
| Responses.ReadResponseFields | model.go:10-15 | A response reads back as itself, whatever documents it carries |
| Cose.SplitCOSE | cose.go:14-36 | The splitting procedure (optional tag 18, four raw elements copied into a fixed buffer) returns exactly the parts the specification gives, with its error otherwise |
| Cose.AssembleIsMessage | cose.go:41-47 | Assembling emits tag 18, a four-element array head and the four elements verbatim |
| Cose.PartsOfAssemble | cose.go:14-47 | Splitting undoes assembling for any four items that leave the array its nesting level |
| Cose.PartsAreElements | cose.go:27-35 | Every element split off is a single item in its own right, at most 15 levels deep |
| Cose.AssembleNormalises | cose.go:41-47 | Assembling split parts always succeeds and splitting again gives the same parts: the normal form is idempotent |
| Cose.TaggedAndUntaggedAgree | cose.go:11-26 | The tagged and the untagged form of one message have the same parts |
| CoseSign1.ToBeSignedInjective | cose.go:38-40 | Sig_structure determines the protected header and the payload (section 4.4 of RFC 9052) |
| CoseSign1.VerifyAssembled | mso.go:55-62 | Verifying the reassembled message is verifying its four parts: reassembly never changes the verdict |
| CoseSign1.SignedVerifies | cose.go:147-149 | A correct signer's message verifies under its key, to its own payload |
| CoseSign1.ChainFromHeader | cose.go:80-111 | The chain read from an injected header is the chain that was injected, for every non-empty chain within the limits |
| CoseSign1.SingleCertificate | cose.go:96-102 | A lone certificate as a byte string is a chain of one |
| CoseSign1.ChainFromProtected | cose.go:52-70 | A chain in the protected header is found when the unprotected header has none |
| CoseSign1.SignCOSE | cose.go:153-168 | Signing, splitting, overwriting slot 1 with the chain and reassembling computes the specified message |
| CoseSign1.HeaderInjection | cose.go:147-168 | Injecting x5chain changes only the unprotected header: the verdict and the payload under any key are those of the message before, and the chain is found again |
| CoseSign1.SpliceCOSE | cose.go:117-128 | Overwriting the payload slot and reassembling computes the specified message |
| CoseSign1.DetachCOSE | cose.go:134-145 | Overwriting the payload slot with null and reassembling computes the specified message |
| CoseSign1.DetachedParts | cose.go:134-145 | Detaching replaces the payload by null and keeps protected header, unprotected header and signature |
| CoseSign1.SplicedParts | cose.go:117-128 | Splicing replaces the payload and keeps protected header, unprotected header and signature, whatever the payload |
| CoseSign1.SpliceUndoesDetach | cose.go:117-145 | Splicing the payload back into the detached form of a canonical message restores it byte for byte |
| CoseSign1.SplicedVerifies | deviceauth.go:40-46 | A spliced message verifies exactly as its parts do |
| CoseSign1.DetachedBindsPayload | deviceauth.go:13-16 | When a signature vouches for one message only, a detached message verifies with q spliced in if and only if q is the payload that was signed |
| CoseKey.FillPoint | key.go:52-55 | The zeroed buffer with 0x04 and two right-aligned copies holds exactly the padded point |
| CoseKey.PadPointSlots | key.go:48-55 | The padded point is 0x04 and two disjoint slots whose big-endian integers are those of x and y |
| CoseKey.LeadingZerosIrrelevant | key.go:48-55 | Leading zero bytes of a coordinate, present or dropped, do not change the parsed key |
| CoseKey.StrippedKeysParseAlike | key.go:21-68 | The same on the wire, for COSE_Key structures on all three curves |
| CoseKey.ParseKey | key.go:21-68 | The parsing procedure returns what the specification gives, error for error |
| CoseKey.KeyRoundTrip | key.go:90-132 | Every valid key on an allowed curve can be encoded and parses back to itself |
| CoseKey.ParsedKeysAreValid | key.go:56-68 | A parsed key is on an allowed curve with a point of the right length on it, and can be encoded again |
| CoseKey.ParsedKeyMeaning | key.go:21-68 | A parsed key means: an EC2 structure whose curve label is the key's and whose coordinates, no longer than the field, are the point's as integers |
| SessionTranscripts.RedirectInjective | sessiontranscript.go:51-56 | Equal redirect transcripts come from equal client ID, nonce, thumbprint (nil and empty identified) and response URI, or name a SHA-256 collision |
| SessionTranscripts.DcApiInjective | sessiontranscript.go:68-73 | Equal DC-API transcripts come from equal origin, nonce and thumbprint, or name a SHA-256 collision |
| SessionTranscripts.HandoversNeverMeet | sessiontranscript.go:33-73 | A redirect transcript never equals a DC-API transcript, collisions or not |
| SessionTranscripts.ConstructorsYieldItems | sessiontranscript.go:25-31 | Both constructors yield exactly one CBOR item |
| SessionTranscripts.TranscriptBytes | sessiontranscript.go:51-73 | The exact bytes of both transcripts around a 32-byte digest |
| StatusRefs.StatusRoundTrip | status.go:30-55 | A status reference with a non-empty UTF-8 URI is read back with its URI, its index and its full map |
| StatusRefs.StatusReadBack | issue.go:102-108 | For every template status: none stays none, a usable reference is read back, one without a usable URI is refused as ErrStatus |
| Issuing.BuildItemFails | issue.go:70-83 | Building an item fails only on a size no CBOR head can carry |
| Issuing.IssueNameSpace | issue.go:65-91 | The inner loop visits every element once, in some order, with some 32-byte salts; items, digest table and digest IDs belong together when it ends |
| Issuing.IssueCredential | issue.go:42-118 | The whole issuing run returns what the specification gives for some valid order of namespaces and elements and some salts |
| IssuedCredentials.BuiltItemReads | issue.go:78-80 | Exactly what a reader gets from a stored item: its identifier and decode(encode(value)) when the identifier is UTF-8, the value leaves one nesting level and decoding accepts it, and nothing otherwise; the wallet, which decodes no value, needs only the first two |
| IssuedCredentials.PartVerdict | integrity.go:28-49 | Any order-preserving part of an issued namespace passes exactly when each of its elements arrives, and yields exactly those elements as encoding and decoding give them |
| IssuedCredentials.NameSpaceVerdict | issue.go:63-92 | The same for a whole namespace, under every order and every salts |
| IssuedCredentials.DigestIDsAreABijection | issue.go:66-88 | Digest IDs are exactly 0..n-1, in bijection with the elements, and entry k is the digest of the item stored at position k, which is the item built for the element drawn there |
| IssuedCredentials.SealedMsoReads | issue.go:94-112 | For every run the sealed object reads back as the template's with the wire's times, or does not decode |
| IssuedCredentials.SealedVerdict | issue.go:94-112 | It decodes exactly when the template's texts are UTF-8, its times read and its tables keep within the decoder's limits |
| IssuedCredentials.IssuedIntegrity | integrity.go:17-53 | Whatever order and salts were drawn, the issued namespaces pass the integrity check exactly when every element of the template arrives, and yield the template's elements as encoding and decoding give them |
| IssuedCredentials.OrderIsInvisible | issue.go:65-69 | Two runs over one template, in any orders and with any salts, get the same verdict and the same map |
| Credentials.AuthFacts | cose.go:153-168 | A freshly signed issuerAuth splits into the signed parts with the chain in place, verifies under the issuer's key to the sealed bytes and nests three levels |
| Credentials.IssuedAuthVerifies | mso.go:20-86 | An issued credential passes issuer authentication exactly when its object reads and the instant is timely, and then to the template's object and the device key it was issued for |
| Credentials.IssuedAuthVerdict | mso.go:100-145 | The exact verdict, error for error, on an issued credential whose chain resolves to its key: the object must read, and then only the times on the wire decide |
| Credentials.SignerWindowOnTheWire | mso.go:121 | The leaf admits the signing second exactly when it admits the signing instant, unless one of its bounds falls in the fraction that was cut |
| Credentials.WholeSecondLeaf | mso.go:121 | Under a certificate with a whole-second notBefore the leaf admits the signing second exactly when the instant is not before notBefore and its second not after notAfter |
| Credentials.ValidityOnTheWire | mso.go:135-146 | For every window and instant: cutting the times keeps the verdict if and only if the window was incoherent anyway, or stays coherent and the instant lies neither in the fraction before validFrom nor in the fraction before validUntil |
| Credentials.ValidityDiffers | mso.go:135-146 | Both differences occur: for a window from 10.5 s to 20.5 s, 10.2 s is accepted early on the wire and 20.3 s refused early |
| Credentials.CredentialDecodes | issue.go:117-129 | What the wallet decodes is exactly the namespaces and the issuerAuth the issuer put in, and it decodes whenever the template's object reads |
| IssuerIntegrity.CheckItemsInOrder | integrity.go:28-49 | The inner loop computes the map of its items in wire order, a repeated identifier overwriting, or the first item's error |
| IssuerIntegrity.CheckOneNameSpace | integrity.go:23-50 | A namespace absent from the digest tables fails; otherwise its items are checked against its own table |
| IssuerIntegrity.VerifyIssuerIntegrity | integrity.go:17-53 | Success and the returned map do not depend on the order in which namespaces are visited; an error is that of some failing namespace |
| IssuerIntegrity.CheckItemExact | integrity.go:29-48 | An item passes exactly when it parses, its digest over the exact wire bytes is the one listed under its own ID, and its value decodes |
| IssuerIntegrity.CheckItemsExact | integrity.go:28-49 | A list passes exactly when every item does, and the map holds the last value of each identifier and nothing else |
| IssuerIntegrity.IntegrityExact | integrity.go:17-53 | The check succeeds exactly when the algorithm is allowed, every namespace is listed and every item matches its own namespace's table; the result is the last value per identifier |
| IssuerIntegrity.LastOccurrencesUnique | integrity.go:48 | The items determine the returned map |
| Presenting.SelectItems | issue.go:176-190 | The want-set loops compute the specified selection of one namespace, or the first unparsable item's error |
| Presenting.SelectOneNameSpace | issue.go:172-194 | A missing namespace or a leftover wanted identifier is unsupported; otherwise the kept items are returned |
| Presenting.SelectForDisclosure | issue.go:169-197 | The outcome does not depend on the order in which requested namespaces are visited; an error is that of some failing namespace |
| Presenting.SelectExact | issue.go:180-190 | The kept list is the order-preserving sub-list of first occurrences of the requested identifiers, once each, whatever duplicates the request or the credential contains |
| Presenting.SelectNameSpaceExact | issue.go:172-194 | When the items parse, a selection succeeds exactly when the namespace exists and carries every requested identifier |
| Presenting.SelectDisclosedExact | issue.go:169-197 | The same for a whole request, with exactly the requested namespaces in the result |
| Presenting.SelectionIsRestriction | issue.go:169-197 | If a credential with unique identifiers passes the integrity check, every selection from it passes too and yields the full result restricted to the request |
| IssuerAuthentication.ClaimIsAuthentic | mso.go:88-104 | Whatever key verifies the message, the object it authenticates is the object the claimed signing time was read from |
| IssuerAuthentication.ReassertionNeverRejects | mso.go:68-74 | Removing the re-assertion of the signing time changes no verdict on any input |
| IssuerAuthentication.AcceptedIssuerAuth | mso.go:20-86 | Acceptance means: the key came from the trust boundary asked about this chain at the authenticated signing time, that time lies in the leaf's window, the instant lies in a coherent validity window, the algorithm is allowed and the device key is the sealed one |
| IssuerAuthentication.IssuerAuthAccepts | mso.go:20-86 | Conversely a message with these properties is accepted |
| DeviceAuthentication.DeviceAuthenticationInjective | deviceauth.go:31-36 | DeviceAuthenticationBytes determine the transcript, the document type and the device namespaces (an empty raw message counting as null) |
| DeviceAuthentication.AcceptedDeviceAuth | deviceauth.go:20-48 | An accepted document was signed off by the device key over the bytes rebuilt from this transcript, this document type and these device namespaces |
| DeviceAuthentication.DeviceAuthExact | deviceauth.go:20-48 | Acceptance is exactly: no deviceMac, signature and transcript present, bytes that can be rebuilt, and a signature that holds over them; a deviceMac has its own error, everything else is ErrDeviceAuth |
| DeviceAuthentication.SignedDeviceAuthAccepted | issue.go:138-153 | What a correct device signs and detaches is accepted for the same transcript |
| DevicePresenting.DevicePresent | issue.go:124-165 | The presenting procedure returns what the specification gives, with the error of the stage that failed |
| Verification.Clock.constructor | verify.go:63-71 | A clock starts at its first reading |
| Verification.Clock.Now | verify.go:97 | Each call yields the next reading and no other |
| Verification.Verifier.constructor | verify.go:73-80 | The last non-nil clock option wins, nil options change nothing, and the default remains without one |
| Verification.Verifier.CheckDocument | verify.go:119-150 | The per-document checks run in order; the first that fails decides the error |
| Verification.Verifier.Verify | verify.go:88-114 | The clock is read exactly once, after the response decodes; the result is the verdict at that instant, and an error is that of the first failing document |
| Verification.AllOrNothing | verify.go:88-114 | A result is returned exactly when there are documents and every one passes; entry i comes from document i, with the signed and, if set, expected document type |
| Verification.VerifiedResponseIsClean | decode.go:17-32 | What is verified came from a response with a version, status 0, no document errors and at least one document; a flagged response is refused with its own error, whatever documents it carries |
| Completeness.SelectionFromIssued | issue.go:167-197 | Selecting from an issued credential succeeds exactly when every requested namespace is in the template, all its items read and it has every identifier asked for |
| Completeness.OneDocumentRoundTrip | decode.go:17-32 | A response with one fitting document can always be encoded, and the top-level decoder returns it unchanged |
| Completeness.DeviceCanSign | issue.go:142-153 | An EC device key can sign every session whose transcript is one CBOR item |
| Completeness.PresentExact | issue.go:124-165 | An issued credential can be presented if and only if its object reads, the requested namespaces read and offer what is asked for, and the device can sign the session |
| Completeness.PresentSucceeds | issue.go:124-165 | The response then decodes to one document with exactly the selected items and the untouched issuerAuth |
| Completeness.RequestOutsideFails | issue.go:172-193 | A request for something the template lacks is refused whole, and always as unsupported when the items it touches read |
| Completeness.SelectionIntegrity | integrity.go:17-53 | A selection from an issued credential passes exactly when every requested value is one that decoding accepts, and yields exactly the requested elements |
| Completeness.PresentedVerdict | verify.go:119-150 | The presented document verifies exactly when the requested values arrive, the status is usable and the times on the wire admit the instant; the result is then the requested elements, the wire's validity, the device key, the status reference and the algorithm |
| Completeness.HonestRunVerdict | verify.go:82-150 | For every issued credential, device key, order, salts, non-empty transcript and request: the wallet answers exactly when the request is presentable, and Verify then returns exactly that outcome or, when the template's condition fails, nothing |
| Completeness.CleanTemplateArrives | issue_test.go:45-86 | For clean values and ordinary times the outcome is the template itself: the requested elements with their own values, times cut to the second |
| Completeness.IssuePresentVerify | issue_test.go:45-107 | The three procedures in sequence end in exactly that verdict, whatever the issuer's loops draw |
| HonestRuns.SmallTemplateIssues | issue.go:42-118 | Every template of sizes a program can hold is issued for every valid device key, under every order and every salts |
| HonestRuns.EveryHonestRunVerifies | issue.go:42-165 | Completeness, exactly, for every template of sizes a program can hold: issuing succeeds; the wallet answers if and only if the request is presentable; the verifier then returns exactly what was asked for if the conditions on the template and the instant hold, and nothing otherwise |
| HonestRuns.TheoremsMeet | issue_test.go:45-86 | The premises of completeness, soundness and session binding hold together, with a presentable non-empty request and a timely instant, in a concrete run in which one key seals one credential and no other byte string shares the issued item's digest |
| Soundness.SealedIsNoSession | deviceauth.go:31-36 | The bytes an issuer seals are never the bytes a device signs, so one key may play both roles |
| Soundness.SessionIsNoMso | mso.go:63-67 | Bytes signed for a session never decode as a signed object |
| Soundness.ObjectWasSealed | mso.go:59-67 | An object that verifies under an honest key was sealed by that key in the run |
| Soundness.AuthenticationIsSound | mso.go:20-86 | An accepted issuerAuth carries the object and the device key of a credential sealed in the run |
| Soundness.IntegrityIsSound | integrity.go:17-53 | Every verified element is the template's, with decode(encode(value)), or two byte strings with one digest are exhibited |
| Soundness.VerifiedIsIssued | verify.go:119-150 | Soundness: after any run of sealings and presentations, each document of any response that verifies is a part of one credential an honest issuer sealed |
| Soundness.DocumentIsSound | verify.go:119-150 | Every document value that passes the per-document checks, however it was decoded, is a part of one sealed credential: its object, its device key, and elements that were issued or a named digest collision |
| Soundness.InjectiveHashElements | integrity.go:38-43 | Under an injective hash every verified element was issued |
| Soundness.AcceptedSession | deviceauth.go:20-48 | An accepted document belongs to a session its device key presented in, over this transcript and for this document type, and carries no device namespaces |
| Soundness.VerifiedIsPresented | verify.go:135-137 | Every returned document with an honest device key was presented by that key over the verifier's own transcript |
| Soundness.ReplayIsRefused | verify.go:31-34 | A response is refused in every session its holder never presented in |
| Registry.AgeOverPattern | registry.go:103-116 | The loop accepts exactly age_over_ followed by one or more digits |
| Registry.ResolveElement | registry.go:60-73 | An exact name wins over every pattern, an earlier matching pattern over a later one, and nothing is known outside a known namespace |
| Registry.ResolvesUniquely | registry.go:60-73 | An element resolves in one way only |
| Registry.KeysInOrder | registry.go:179-195 | Collecting the keys in any order and sorting gives them strictly increasing, each once |
| Registry.SortedKeysUnique | registry.go:179-195 | There is only one such list |
| Registry.Report | registry.go:37-55 | The report has one row for each disclosed element, strictly increasing by namespace then identifier, each describing its element |
| Registry.ReportIsValueFree | registry.go:32-36 | Documents with the same type and keys whose values agree in dynamic type have identical reports |

## Left out

- The library's leniency on typed targets: tags in front of typed values are skipped, arrays of
  small integers (and the empty array) fill byte slices, bignums fill integers, numbers and untagged
  RFC 3339 texts are read as times, null keys are read as the empty text in untyped maps, field
  names match case-insensitively as a fallback. The model refuses such inputs.
- Floats and unassigned simple values as data elements keep their bits but have no arithmetic
  meaning; the instant a float under tag 1 denotes is a parameter.
- Indefinite lengths are refused at the head and have no further model.
- X.509 parsing and path validation: a certificate is its validity window, or does not parse.
- ECDSA, curve arithmetic and SHA-2 internals; the algorithm checks inside the COSE library, which
  is not part of this model beyond splitting the message and checking the signature.
- crypto/rand failure, contexts and the key-provider adapter; a signing key that cannot be loaded.
- deviceMac beyond its rejection.
- keyAuthorizations, keyInfo, document errors and error codes are checked for shape and not stored.
- Error texts and wrapping. Where map order decides which error wins, the contract admits each.
- The literal registry tables: the report is proved for every table, and the three type hooks and
  the age_over pattern are modelled.
- mustEncode's panic: the constructors cannot fail on inputs a program can hold.
- HonestRuns.EveryHonestRunVerifies: assumes what issuing itself demands (a document type, an allowed digest
  algorithm, a valid key) and sizes a program can hold: strings, values and signatures of at most
  2^32 bytes, at most 65536 namespaces and elements each, so that no total reaches 2^64. The
  transcript is one CBOR item. `Completeness.HonestRunVerdict` has no size bound: it starts from a
  credential that was issued.
- Soundness.VerifiedIsIssued: speaks of the responses the model's decoder accepts; a response that
  only the library's leniency above would let in is outside it, while `Soundness.DocumentIsSound`
  covers every document value, however it was decoded.
- Soundness.VerifiedIsPresented: a transcript of the single byte 0xf6 stands for a session whose
  wallet signed for an empty transcript, because both encode as null.
