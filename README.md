# WebAuthn relying party: verification core

A Dafny model of the relying-party side of a small WebAuthn demo server (a
Fastify back end written in JavaScript). The model covers two source files.

`server/lib/utils/utils.js` parses and checks what the authenticator sends:

- it parses the authenticator data of a registration (make-credential) and of
  a login (get-assertion);
- it turns a COSE EC2 key into a raw uncompressed point;
- it armours a point or a certificate as PEM;
- it verifies a registration's attestation in the `fido-u2f`, `packed`
  (with a certificate chain or self-attested) and `none` formats;
- it builds the allowCredentials list for a login, finds the stored
  authenticator for a credential id, and verifies a login assertion together
  with its signature counter.

`server/lib/controllers/registrationController.js` holds the two registration
handlers, `startRegistration` and `finishRegistration`. The controller keeps
a dictionary from username to user entry, and a session with the pending
challenge, the username and a logged-in flag.

Module layout, leaves first:

- `Errors` (`errors.dfy`): the ways the code throws, and a `Result` type.
- `Bytes` (`bytes.dfy`): bytes, JavaScript-style clamping `slice`, and big-endian integers.
- `Base64` (`base64.dfy`): standard padded base64, with a decoder, used by the PEM body.
- `Pem` (`pem.dfy`): `ASN1toPEM` as a method with its loop, and the dearmouring used to state its round trip.
- `Cose` (`cose.dfy`): `COSEECDHAtoPKCS` after CBOR decoding.
- `AuthData` (`authdata.dfy`): both authenticator-data parsers.
- `External` (`external.dfy`): the library calls, passed in as a `Platform` value of total functions. These are SHA-256, signature verification, CBOR decoding of the COSE key, X.509 parsing, the ISO 3166 alpha-2 table and `JSON.parse` of the client data.
- `Attestation` (`attestation.dfy`): the attestation verifier.
- `Assertion` (`assertion.dfy`): the `Authenticator` class with its mutable counter, `findAuthr`, `generateServerGetAssertion`, and the assertion verifier.
- `Registration` (`registration.dfy`): `generateServerMakeCredRequest`, and the controller as a class over `database: map<string, User>` and `session: Session`.

The operations that work step by step (the two authenticator-data parsers,
`ASN1toPEM`, `findAuthr`, `generateServerGetAssertion`, both verifiers and the
two registration handlers) are methods that follow the source's statements.
Where a method has a pure function beside it that specifies it (the parsers,
`ASN1toPEM`, `findAuthr`, the verifiers and the handlers), the method's
`ensures` ties its result, or the new controller state, to that function, and
the properties are lemmas about the function. `generateServerGetAssertion`
states its result outright. The operations that only compute a value
(`COSEECDHAtoPKCS`, `generateServerMakeCredRequest`, base64) are functions.

The controller is modelled over the corrected attestation verifier
(`Attestation.AttestationOutcome`, see "## Findings"). As written, every
`fido-u2f` and every `none` registration throws (utils.js:246 and :368), so only
`packed` registrations can succeed in the program as it stands;
`Attestation.AsWrittenRejects` states this.

Behaviour that the code has and that shapes the model:

- Records from both `packed` branches are labelled `fmt: "fido-u2f"`, just as
  `fido-u2f` records are. The assertion verifier checks only records with that
  label, so it checks all of them.
- Self attestation (`packed` without `x5c`) skips the user-presence check. It
  returns the record even when the verdict is false, and it verifies with the
  credential's own key. It is therefore the weakest path:
  `Attestation.SelfAttestationIgnoresPresence` exhibits a registration it
  accepts with the user-present bit clear.
- An accepted `none` attestation pushes an undefined record onto the user
  entry, so user entries hold `Option<AuthrInfo>`. The authenticator lists that
  `findAuthr` and `generateServerGetAssertion` take hold `Authenticator?`: null
  models the TypeError these functions raise on an undefined element. No caller
  in the repository produces such a list. The only caller,
  loginController.js:19-22, builds a one-element list from a sqlite row, and
  nothing reads the in-memory records that registrationController.js:94 pushes.
- `parseMakeCredAuthData` throws only on a truncated counter or a truncated
  length field. A credential id longer than the data that is left is cut short
  by `slice`, and the key is then empty. The model does the same.
  `AuthData.MakeCredErrors` states it, and `AuthData.MakeCredReassembles` shows
  that the fields still reassemble the input. A stricter parser would reject
  such data. The model follows the code and shows that the rejection happens
  one step later: `Attestation.TruncatedCredIdRejected` proves that
  such data fails in every format that parses it, because the key is empty
  and CBOR decoding of nothing yields no map.
- Signature verification can throw. Node's `verify` throws when the PEM text
  is neither a public key nor a certificate. This happens, for example, when
  a self-attested point is not a 65-byte uncompressed point and `ASN1toPEM`
  armours it as a CERTIFICATE, or when `x5c[0]` is garbage. The model's
  `Platform.verifySignature` returns None for that case, and the verifiers then
  fail with `UnusableKey` instead of answering false
  (`Attestation.SelfAttestationUnusableKey`).
- A P-256 coordinate is 32 bytes long, and a stricter verifier would check
  that, and would also accept each challenge only once. The code does neither. The model follows the code, and
  `Registration.ChallengeNotConsumed` states that the challenge survives a finish.
- `isCA` is the value the packed policy reads as `pem.extensions.isCA`
  (utils.js:316), whatever the certificate library gives for it. In a library
  whose `extensions` is a list and whose CA flag sits elsewhere, that value is
  always undefined, and a platform whose certificates all have `isCA` false
  models exactly that.

## Model

| member | source | states |
|---|---|---|
| `Base64.Encode` | server/lib/utils/utils.js:184 | the encoding has 4·⌈n/3⌉ characters for n bytes |
| `Base64.DecodeEncode` | server/lib/utils/utils.js:184 | decoding the base64 text of any byte string gives it back |
| `Base64.EncodeInjective` | server/lib/utils/utils.js:184 | distinct byte strings have distinct encodings |
| `Base64.EncodeLetters` | server/lib/utils/utils.js:184 | every character of the encoding is in the base64 alphabet or is the padding `=` |
| `Pem.Lines` | server/lib/utils/utils.js:187 | the text is split into ⌈len/64⌉ lines |
| `Pem.LineAt` | server/lib/utils/utils.js:187-190 | line i is the 64-character substring starting at 64·i |
| `Pem.PemLines` | server/lib/utils/utils.js:186-191 | every line of the body is non-empty and at most 64 characters, and all but the last have exactly 64 |
| `Pem.ConcatLines` | server/lib/utils/utils.js:187-190 | concatenating the lines gives the base64 text back |
| `Pem.Asn1ToPem` | server/lib/utils/utils.js:153-196 | the loop builds exactly header, 64-character lines each ended by a newline, and footer, over the base64 of the DER |
| `Pem.DearmorPemText` | server/lib/utils/utils.js:193 | stripping the frame, dropping newlines and base64-decoding gives back the DER that was armoured |
| `Pem.PemRoundTrip` | server/lib/utils/utils.js:158-182 | a 65-byte point starting with 0x04 is armoured as PUBLIC KEY and dearmours to the 26-byte P-256 SubjectPublicKeyInfo prefix followed by the point; anything else is armoured as CERTIFICATE and dearmours to itself |
| `Cose.CoseEcdhaToPkcs` | server/lib/utils/utils.js:140-145 | succeeds exactly when labels -2 and -3 are present; the result is 0x04, then x, then y, at those offsets |
| `Cose.P256PointRoundTrip` | server/lib/utils/utils.js:141-145 | for 32-byte coordinates the point has 65 bytes and x and y are read back at 1..33 and 33..65 |
| `AuthData.ParseMakeCredAuthData` | server/lib/utils/utils.js:203-231 | peeling the fields off the front of the buffer gives the fixed-offset layout, or the RangeError of a truncated counter or length field |
| `AuthData.CredIdEnd` | server/lib/utils/utils.js:217-218 | the credential id ends after the announced length, or at the end of the data, whichever comes first |
| `AuthData.MakeCredErrors` | server/lib/utils/utils.js:209-218 | the parse fails exactly when fewer than 55 bytes are given, with the counter error below 37 bytes and the length error below 55; an over-long credential id is cut at the end and leaves an empty key |
| `AuthData.MakeCredReassembles` | server/lib/utils/utils.js:203-231 | for every input of at least 55 bytes the parse succeeds, and its fields with the two length bytes as read concatenate back to the input, also when the credential id was cut short; when the id fits, the structure is well formed and serialises to the input |
| `AuthData.MakeCredRoundTrip` | server/lib/utils/utils.js:203-231 | parsing the serialisation of any well-formed structure gives that structure |
| `AuthData.ParseGetAssertAuthData` | server/lib/utils/utils.js:396-407 | peeling rpIdHash, flags and counter gives the layout, or the RangeError when the counter is truncated |
| `AuthData.LayoutsAgree` | server/lib/utils/utils.js:396-407 | on registration data both parsers read the same rpIdHash, flags and counter |
| `AuthData.GetAssertPrefix` | server/lib/utils/utils.js:427-432 | rpIdHash, flags and counter bytes are exactly the first 37 bytes of the data, and the counter is their big-endian value |
| `Attestation.VerifyAuthenticatorAttestationResponse` | server/lib/utils/utils.js:233-375 | the step-by-step verifier computes the dispatch on `fmt` with each branch's checks in the source's order |
| `Attestation.RecordComesFromAuthData` | server/lib/utils/utils.js:266-273 | a returned record comes from `fido-u2f` or `packed`, is labelled fido-u2f, and is exactly the record of the counter at bytes 33..37, the credential id announced at bytes 53..55, and the credential point `COSEECDHAtoPKCS` built from the COSE key |
| `Attestation.CertificateFormatsRequirePresence` | server/lib/utils/utils.js:243-283 | `fido-u2f` and `packed` with a chain throw on a clear user-present bit, so whatever they return had it set |
| `Attestation.U2fVerdict` | server/lib/utils/utils.js:238-273 | verified exactly when the x5c[0] certificate's signature covers 0x00, rpIdHash, SHA-256 of the client data, credential id and point; a record is returned exactly when verified |
| `Attestation.PackedCertVerdict` | server/lib/utils/utils.js:274-334 | verified exactly when the signature over authenticator data and client-data hash holds under x5c[0] and the certificate passes the version, country, O, OU, CN, CA and aaguid policy; a record is returned exactly when verified |
| `Attestation.AaguidExtensionChecked` | server/lib/utils/utils.js:320-325 | a critical aaguid extension, or one whose value after two bytes differs from the aaguid, fails the policy |
| `Attestation.SelfAttestationVerdict` | server/lib/utils/utils.js:335-365 | self attestation that does not throw returns a record holding the credential's point; it is verified exactly when the signature holds under that point's own PEM and alg is -7 |
| `Attestation.SelfAttestationUnusableKey` | server/lib/utils/utils.js:348-365 | when the credential point's PEM is no usable key, so that `verify` throws, self attestation fails with that error instead of returning a record |
| `Attestation.SelfAttestationKeyIsSpki` | server/lib/utils/utils.js:348-350 | for 32-byte coordinates the self-attestation key is a PUBLIC KEY PEM wrapping 0x04, x and y in the P-256 SubjectPublicKeyInfo prefix |
| `Attestation.SelfAttestationIgnoresPresence` | server/lib/utils/utils.js:335-365 | on a platform where CBOR decoding of no bytes fails and every signature is good, a self-attested registration with the user-present bit clear and a 65-byte PUBLIC KEY point is verified and recorded |
| `Attestation.TruncatedCredIdRejected` | server/lib/utils/utils.js:217-219 | when the announced credential id runs past the data, fido-u2f and packed attestations end in an error, provided CBOR decoding of no bytes fails |
| `Attestation.U2fSignatureBaseInjective` | server/lib/utils/utils.js:249-255 | once the field lengths are fixed, the fido-u2f message determines rpIdHash, client-data hash, credential id and key |
| `Attestation.OtherFormats` | server/lib/utils/utils.js:366-372 | `none` returns no record and is verified exactly when accepted; any other unknown format throws naming it |
| `Attestation.AsWrittenRejects` | server/lib/utils/utils.js:238-372 | as written, `fido-u2f` and `none` never succeed (a present u2f attestation always hits the unbound `hash`), and the other formats agree with the corrected verifier |
| `Attestation.UnboundHashCounterexample` | server/lib/utils/utils.js:246 | a present, well-signed fido-u2f attestation with a 65-byte credential point, on which the code as written throws and the corrected verifier returns its record |
| `Attestation.UndefinedConfigCounterexample` | server/lib/utils/utils.js:366-369 | a `none` attestation under a none-accepting configuration, which the code as written throws on and the corrected verifier accepts |
| `Assertion.Authenticator.constructor` | server/lib/utils/utils.js:266-273 | a stored authenticator starts with the format, key, credential id and counter of the registration record |
| `Assertion.Lookup` | server/lib/utils/utils.js:383-389 | the index of the first entry with the credential id, every earlier entry being defined and different; otherwise the unknown-authenticator error when none matches, or a TypeError at the first undefined entry |
| `Assertion.FindAuthr` | server/lib/utils/utils.js:383-389 | the loop returns the first matching authenticator, or the error of the lookup |
| `Assertion.GenerateServerGetAssertion` | server/lib/utils/utils.js:90-106 | one public-key descriptor per stored authenticator, in order, with its credential id and the four transports, plus the fixed verification, rp id and timeout fields; an undefined entry throws |
| `Assertion.OfferedCredentialsResolve` | server/lib/utils/utils.js:91-98 | every credential id offered in allowCredentials is found again by the lookup, at or before its own position |
| `Assertion.VerifyAuthenticatorAssertionResponse` | server/lib/utils/utils.js:409-452 | finds the record, reports the verdict or error of the assertion check, stores the new counter only in that record and only on success, and leaves every other record's counter unchanged |
| `Assertion.CounterIncreases` | server/lib/utils/utils.js:443-448 | a verified assertion raises the stored counter strictly, to the signed value at bytes 33..37; any other outcome keeps it |
| `Assertion.OtherFormatsUnverified` | server/lib/utils/utils.js:416-418 | a record of any format other than fido-u2f gives false and keeps its counter, whatever the response |
| `Assertion.AssertionVerdict` | server/lib/utils/utils.js:418-441 | verified exactly when the record is fido-u2f, the signature under the stored key covers the first 37 data bytes followed by SHA-256 of the client data, and the signed counter exceeds the stored one; fido-u2f outcomes imply a present user |
| `Assertion.ReplayRefused` | server/lib/utils/utils.js:444-447 | an assertion accepted once is refused when replayed against the updated record |
| `Assertion.AntiReplayAtFive` | server/lib/utils/utils.js:444-447 | for any stored key, with the stored counter at 5 and a good signature, counters 4 and 5 are refused and 6 is accepted and stored |
| `Assertion.AsWrittenIgnoresCounter` | server/lib/utils/utils.js:444-445 | as written, a well-signed assertion is accepted the same way whatever the stored counter |
| `Assertion.ReplayCounterexample` | server/lib/utils/utils.js:444-445 | stored counter 5 and signed counter 4: the code as written accepts and moves the counter back, and the guarded verifier refuses |
| `Registration.MakeCredRequestAgrees` | server/lib/utils/utils.js:48-83 | the creation options carry the caller's challenge and user, offer only public-key algorithms with ES256 (the one self attestation accepts) first, and name the rp id the login options use |
| `Registration.RegistrationController.StartRegistration` | server/lib/controllers/registrationController.js:10-49 | the handler's new dictionary, session and reply are those of the start step, and it keeps every registered user with at least one entry in its authenticator list, possibly an undefined one |
| `Registration.RegistrationController.FinishRegistration` | server/lib/controllers/registrationController.js:51-121 | the handler's new dictionary, session and reply are those of the finish step, and it keeps every registered user with at least one entry in its authenticator list, possibly an undefined one |
| `Registration.StepsPreserveValid` | server/lib/controllers/registrationController.js:92-96 | both steps keep every registered user with at least one entry in its authenticator list; the entry an accepted `none` registration appends is undefined |
| `Registration.RegisteredEntriesOnlyGrow` | server/lib/controllers/registrationController.js:18-33 | start leaves a registered entry as it is; finish keeps it registered with the same name and id, and only appends to its records |
| `Registration.FinishSucceedsExactly` | server/lib/controllers/registrationController.js:56-113 | finish succeeds exactly when the type, the client data's challenge and origin and the attestation all pass and the session user has an entry; it then appends that record, marks the entry registered and logs in; any other outcome changes nothing |
| `Registration.StartIssuesChallenge` | server/lib/controllers/registrationController.js:26-46 | a start that is not refused stores a fresh unregistered entry with no records, and the session holds the username and the very challenge the reply carries |
| `Registration.PolicyChecksPrecedeVerification` | server/lib/controllers/registrationController.js:56-80 | when the type, client-data, challenge or origin check fails, the reply does not depend on the attestation or authenticator data, is a bad request or the parse failure, and nothing changes |
| `Registration.ChallengeNotConsumed` | server/lib/controllers/registrationController.js:66-72 | finish leaves the session's challenge and username as they were and never logs out |
| `Registration.FinishBoundToIssuedChallenge` | server/lib/controllers/registrationController.js:45-72 | after a start, a finish carrying any other challenge is refused as a challenge mismatch and changes nothing |
| `Registration.NoReRegistration` | server/lib/controllers/registrationController.js:18-24 | once finish has registered the session user, starting again with that username is refused and changes nothing |
| `Registration.StartThenFinish` | server/lib/controllers/registrationController.js:33-108 | a start followed by a successful finish leaves that username registered with the given name and id, exactly one record, and a logged-in session |

## Left out

- Cryptography: SHA-256 and ECDSA/RSA verification (Node `crypto`) are functions of the `Platform` value. The model proves nothing about the strength of the signatures.
- CBOR: decoding the attestation object and the COSE key is not modelled. The attestation object arrives decoded. The COSE key is decoded by `Platform.decodeCoseKey`, where None stands for a decoding that fails or yields no map.
- X.509 parsing (`Certificate.fromPEM`), the ISO 3166 table and `JSON.parse` of the client data are `Platform` functions. The model has only the certificate fields the policy reads.
- base64url transport: request fields are byte strings already decoded from base64url. Stored `publicKey` and `credID` are kept as bytes instead of base64url strings. So `findAuthr`'s string comparison becomes a byte comparison, which is the same thing for canonical encodings.
- Randomness: `randomBase64URLBuffer` is not modelled. The challenge and the user id are parameters of the handlers and of the option builders.
- The `Buffer.isBuffer` test of `ASN1toPEM` is modelled only where a non-buffer can arrive: `x5c[0]` of an empty chain gives the `NotABuffer` error. Every other argument is a byte string.
- JavaScript truthiness: `verified` is a boolean. An absent certificate subject attribute is the empty string.
- A request without a `response` object, and the unused `id` and `rawId` fields of the finish request, are not modelled.
- The HTTP layer is not modelled. Replies are values, and a thrown error is a `Failure` reply.
- Session storage is not modelled: one session stands for one client. Logging, concurrency and interleaving between clients are not modelled either.
- The user dictionary is a `map`. In the source it is the sqlite module object of database.js, which already holds the members `open`, `close`, `createTables`, `getUser`, `getUserByCredId`, `addUser` and `updateUser`, and `db` after `open`. Usernames that collide with these or with properties of a JavaScript object's prototype are not modelled. A start with the username "db", for instance, overwrites the sqlite handle in the program. An undefined session username looks up the key "undefined", as JavaScript does.
- `server/lib/controllers/loginController.js`, the login glue that calls `generateServerGetAssertion` (loginController.js:20) with a list built from a sqlite row, is not part of this model, and neither is that conversion to `Authenticator` objects. No file in the repository calls `verifyAuthenticatorAssertionResponse`.
- `server/lib/controllers/userController.js`, a second registration flow over sqlite, is not part of this model.
- `verifySignature` (utils.js:21-26) and `hash` (utils.js:113-115) are the `Platform`'s `verifySignature` and `sha256`. Which PEM texts make `verify` throw is decided by the `Platform` (None), not modelled.

## Findings

| source | as written | input that shows it | evidently intended | confidence | as-written member | corrected member |
|---|---|---|---|---|---|---|
| server/lib/utils/utils.js:246 | the fido-u2f branch calls a bare `hash`, but only `utils.hash` is defined, so a ReferenceError is thrown after the presence check | any fido-u2f attestation with the user-present bit set, e.g. 56 bytes of data with flags 0x01 and a one-byte COSE key, and a chain of one certificate | hash the client data with `utils.hash`, as the other branches do | high; not executed | `Attestation.AttestationOutcomeAsWritten`, shown by `Attestation.UnboundHashCounterexample` and `Attestation.AsWrittenRejects` | `Attestation.AttestationOutcome`, with `Attestation.U2fVerdict` |
| server/lib/utils/utils.js:366-369 | the `none` branch reads `this.config` inside a module-level arrow function, where `this` is undefined, so a TypeError is thrown | any attestation with `fmt` "none" | verified exactly when the configured attestation conveyance preference is "none" (the `acceptNone` parameter) | high; not executed | `Attestation.AttestationOutcomeAsWritten`, shown by `Attestation.UndefinedConfigCounterexample` | `Attestation.AttestationOutcome`, with `Attestation.OtherFormats` |
| server/lib/utils/utils.js:444 | the replay guard compares `response.counter`, which is never set; `undefined <= n` is false, so the guard never fires and any signed counter is stored, also one lower than the stored one | stored counter 5, a well-signed assertion whose data signs counter 4 | refuse when the signed counter `authrDataStruct.counter` does not exceed the stored one | high; not executed | `Assertion.AssertionOutcomeAsWritten`, shown by `Assertion.ReplayCounterexample` and `Assertion.AsWrittenIgnoresCounter` | `Assertion.AssertionOutcome`, with `Assertion.CounterIncreases`, `Assertion.ReplayRefused` and `Assertion.AntiReplayAtFive` |
