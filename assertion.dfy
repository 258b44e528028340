/** Authentication: the allowCredentials list, the lookup of a stored
    authenticator by credential id, and verification of an assertion
    (section 6.1 of W3C WebAuthn Level 2 for the authenticator data, section
    6.1.1 for the signature counter). */
module Assertion {
  import opened Bytes
  import opened Errors
  import opened AuthData
  import opened External
  import Attestation
  import Pem

  /** A stored authenticator record; only its counter is ever updated. */
  class Authenticator {
    const fmt: string
    const publicKey: Bytes
    const credId: Bytes
    var counter: nat

    constructor (info: Attestation.AuthrInfo)
      ensures fmt == info.fmt && publicKey == info.publicKey
      ensures credId == info.credId && counter == info.counter
    {
      fmt := info.fmt;
      publicKey := info.publicKey;
      credId := info.credId;
      counter := info.counter;
    }
  }

  // ---------------------------------------------------------------------
  // findAuthr. A null entry stands for the undefined record a `none`
  // registration stores; reading its credID throws.

  /** No entry before index n is undefined or has the credential id. */
  predicate Passes(auths: seq<Authenticator?>, id: Bytes, n: nat)
    requires n <= |auths|
  {
    forall j :: 0 <= j < n ==> auths[j] != null && auths[j].credId != id
  }

  /** The index of the first entry with the credential id. */
  function Lookup(auths: seq<Authenticator?>, id: Bytes): (r: Result<nat>)
    ensures r.Ok? ==>
      && r.value < |auths| && auths[r.value] != null && auths[r.value].credId == id
      && Passes(auths, id, r.value)
    ensures r == Err(UnknownAuthenticator) <==> Passes(auths, id, |auths|)
    ensures r.Err? ==>
      || r.error == UnknownAuthenticator
      || (r.error == UndefinedAuthenticator && exists k :: 0 <= k < |auths| && auths[k] == null && Passes(auths, id, k))
    decreases |auths|
  {
    if |auths| == 0 then Err(UnknownAuthenticator)
    else if auths[0] == null then Err(UndefinedAuthenticator)
    else if auths[0].credId == id then Ok(0)
    else
      var k :- Lookup(auths[1..], id);
      Ok(k + 1)
  }

  /** findAuthr: the first authenticator with the credential id. */
  method FindAuthr(id: Bytes, auths: seq<Authenticator?>) returns (r: Result<Authenticator>)
    ensures Lookup(auths, id).Ok? ==> r.Ok? && r.value == auths[Lookup(auths, id).value]
    ensures Lookup(auths, id).Err? ==> r == Err(Lookup(auths, id).error)
  {
    for i := 0 to |auths|
      invariant Passes(auths, id, i)
    {
      var authr := auths[i];
      if authr == null {
        return Err(UndefinedAuthenticator);
      }
      if authr.credId == id {
        return Ok(authr);
      }
    }
    return Err(UnknownAuthenticator);
  }

  // ---------------------------------------------------------------------
  // generateServerGetAssertion

  const PublicKeyType: string := "public-key"
  const Transports: seq<string> := ["usb", "nfc", "ble", "internal"]
  const Preferred: string := "preferred"
  const RpId: string := "localhost"
  const Timeout: nat := 60000

  datatype CredentialDescriptor = CredentialDescriptor(credentialType: string, id: Bytes, transports: seq<string>)

  datatype RequestOptions = RequestOptions(
    challenge: string,
    allowCredentials: seq<CredentialDescriptor>,
    userVerification: string,
    rpId: string,
    timeout: nat)

  /** generateServerGetAssertion, the random challenge given: one descriptor
      per stored authenticator, in order. */
  method GenerateServerGetAssertion(auths: seq<Authenticator?>, challenge: string) returns (r: Result<RequestOptions>)
    ensures r.Ok? <==> forall i :: 0 <= i < |auths| ==> auths[i] != null
    ensures r.Err? ==> r.error == UndefinedAuthenticator
    ensures r.Ok? ==>
      && r.value.challenge == challenge
      && r.value.userVerification == Preferred && r.value.rpId == RpId && r.value.timeout == Timeout
      && |r.value.allowCredentials| == |auths|
      && forall i :: 0 <= i < |auths| ==>
           auths[i] != null && r.value.allowCredentials[i] == CredentialDescriptor(PublicKeyType, auths[i].credId, Transports)
  {
    var allowCredentials: seq<CredentialDescriptor> := [];
    for i := 0 to |auths|
      invariant |allowCredentials| == i
      invariant forall j :: 0 <= j < i ==>
        auths[j] != null && allowCredentials[j] == CredentialDescriptor(PublicKeyType, auths[j].credId, Transports)
    {
      var authr := auths[i];
      if authr == null {
        return Err(UndefinedAuthenticator);
      }
      allowCredentials := allowCredentials + [CredentialDescriptor(PublicKeyType, authr.credId, Transports)];
    }
    return Ok(RequestOptions(challenge, allowCredentials, Preferred, RpId, Timeout));
  }

  /** Every credential id offered in allowCredentials is found again by the
      lookup, at its own position or an earlier one holding the same id. */
  lemma OfferedCredentialsResolve(auths: seq<Authenticator?>, i: nat)
    requires forall j :: 0 <= j < |auths| ==> auths[j] != null
    requires i < |auths|
    ensures Lookup(auths, auths[i].credId).Ok?
    ensures Lookup(auths, auths[i].credId).value <= i
  {
    var id := auths[i].credId;
    assert !Passes(auths, id, |auths|) by {
      assert auths[i] != null && auths[i].credId == id;
    }
  }

  // ---------------------------------------------------------------------
  // verifyAuthenticatorAssertionResponse

  /** The assertion fields, base64url-decoded. */
  datatype AssertionResponse = AssertionResponse(authenticatorData: Bytes, clientDataJSON: Bytes, signature: Bytes)

  /** The verdict and the counter the record holds afterwards. */
  datatype Verdict = Verdict(verified: bool, counter: nat)

  /** rpIdHash || flags || signCount || clientDataHash. */
  function AssertionBase(d: GetAssertAuthData, clientDataHash: Bytes): Bytes {
    d.rpIdHash + d.flagsBuf + d.counterBuf + clientDataHash
  }

  /** The verification of an assertion for a record with the given format,
      key and stored counter; only fido-u2f records are checked. */
  function AssertionOutcome(p: Platform, fmt: string, publicKey: Bytes, stored: nat, resp: AssertionResponse): Result<Verdict> {
    if fmt != Attestation.FidoU2f then Ok(Verdict(false, stored))
    else
      var d :- GetAssertLayout(resp.authenticatorData);
      if !UserPresent(d.flags) then Err(UserNotPresent)
      else
        var verified :- VerifySignature(p, resp.signature, AssertionBase(d, p.sha256(resp.clientDataJSON)), Pem.PemText(publicKey));
        if !verified then Ok(Verdict(false, stored))
        else if d.counter <= stored then Err(CounterDidNotIncrease)
        else Ok(Verdict(true, d.counter))
  }

  /** verifyAuthenticatorAssertionResponse: looks the record up, verifies,
      and on success stores the new counter in that record. */
  method VerifyAuthenticatorAssertionResponse(p: Platform, id: Bytes, resp: AssertionResponse, auths: seq<Authenticator?>)
    returns (r: Result<bool>)
    modifies set a: Authenticator | a in auths
    ensures Lookup(auths, id).Err? ==> r == Err(Lookup(auths, id).error)
    ensures Lookup(auths, id).Ok? ==>
      var a := auths[Lookup(auths, id).value];
      var o := AssertionOutcome(p, a.fmt, a.publicKey, old(a.counter), resp);
      && (o.Err? ==> r == Err(o.error) && a.counter == old(a.counter))
      && (o.Ok? ==> r == Ok(o.value.verified) && a.counter == o.value.counter)
    ensures forall a: Authenticator :: a in auths && (Lookup(auths, id).Err? || a != auths[Lookup(auths, id).value]) ==>
      a.counter == old(a.counter)
  {
    var authr :- FindAuthr(id, auths);
    var verified := false;
    if authr.fmt == Attestation.FidoU2f {
      var authrDataStruct :- ParseGetAssertAuthData(resp.authenticatorData);
      if !UserPresent(authrDataStruct.flags) {
        return Err(UserNotPresent);
      }
      var clientDataHash := p.sha256(resp.clientDataJSON);
      var signatureBase := AssertionBase(authrDataStruct, clientDataHash);
      var publicKey := Pem.Asn1ToPem(authr.publicKey);
      verified :- VerifySignature(p, resp.signature, signatureBase, publicKey);
      if verified {
        if authrDataStruct.counter <= authr.counter {
          return Err(CounterDidNotIncrease);
        }
        authr.counter := authrDataStruct.counter;
      }
    }
    return Ok(verified);
  }

  // ---------------------------------------------------------------------
  // Properties

  /** The stored counter never goes down: a verified assertion raises it to
      the signed counter at bytes 33..37, any other outcome leaves it. */
  lemma CounterIncreases(p: Platform, fmt: string, publicKey: Bytes, stored: nat, resp: AssertionResponse)
    requires AssertionOutcome(p, fmt, publicKey, stored, resp).Ok?
    ensures var v := AssertionOutcome(p, fmt, publicKey, stored, resp).value;
      && (v.verified ==> |resp.authenticatorData| >= CounterEnd
                         && v.counter == BigEndian32(resp.authenticatorData[33..37]) && v.counter > stored)
      && (!v.verified ==> v.counter == stored)
  {
  }

  /** Records of any other format are never checked: they give false and
      keep their counter, whatever the response. */
  lemma OtherFormatsUnverified(p: Platform, fmt: string, publicKey: Bytes, stored: nat, resp: AssertionResponse)
    requires fmt != Attestation.FidoU2f
    ensures AssertionOutcome(p, fmt, publicKey, stored, resp) == Ok(Verdict(false, stored))
  {
  }

  /** An assertion is verified exactly when the record is fido-u2f, the user
      was present, the signature under the stored key covers the first 37
      bytes of the authenticator data followed by SHA-256(clientDataJSON),
      and the signed counter exceeds the stored one. */
  lemma AssertionVerdict(p: Platform, fmt: string, publicKey: Bytes, stored: nat, resp: AssertionResponse)
    requires AssertionOutcome(p, fmt, publicKey, stored, resp).Ok?
    ensures fmt == Attestation.FidoU2f ==>
      |resp.authenticatorData| >= CounterEnd && UserPresent(resp.authenticatorData[32])
    ensures AssertionOutcome(p, fmt, publicKey, stored, resp).value.verified <==>
      && fmt == Attestation.FidoU2f
      && |resp.authenticatorData| >= CounterEnd
      && p.verifySignature(resp.signature, resp.authenticatorData[..CounterEnd] + p.sha256(resp.clientDataJSON),
                           Pem.PemText(publicKey)) == Some(true)
      && BigEndian32(resp.authenticatorData[33..37]) > stored
  {
    if fmt == Attestation.FidoU2f && |resp.authenticatorData| >= CounterEnd {
      GetAssertPrefix(resp.authenticatorData);
    }
  }

  /** A replayed assertion (same signed counter) is never verified twice:
      after it was accepted once, the same response is refused. */
  lemma ReplayRefused(p: Platform, fmt: string, publicKey: Bytes, stored: nat, resp: AssertionResponse)
    requires AssertionOutcome(p, fmt, publicKey, stored, resp).Ok?
    requires AssertionOutcome(p, fmt, publicKey, stored, resp).value.verified
    ensures AssertionOutcome(p, fmt, publicKey, AssertionOutcome(p, fmt, publicKey, stored, resp).value.counter, resp)
            == Err(CounterDidNotIncrease)
  {
  }

  // ---------------------------------------------------------------------
  // The verifier as written

  /** As written the guard compares `response.counter`, which is undefined,
      so it never fires and any signed counter is stored. */
  function AssertionOutcomeAsWritten(p: Platform, fmt: string, publicKey: Bytes, stored: nat, resp: AssertionResponse): Result<Verdict> {
    if fmt != Attestation.FidoU2f then Ok(Verdict(false, stored))
    else
      var d :- GetAssertLayout(resp.authenticatorData);
      if !UserPresent(d.flags) then Err(UserNotPresent)
      else
        var verified :- VerifySignature(p, resp.signature, AssertionBase(d, p.sha256(resp.clientDataJSON)), Pem.PemText(publicKey));
        if !verified then Ok(Verdict(false, stored))
        else Ok(Verdict(true, d.counter))
  }

  /** As written, a well-signed assertion is accepted whatever the stored
      counter, and replaces it. */
  lemma AsWrittenIgnoresCounter(p: Platform, fmt: string, publicKey: Bytes, stored: nat, stored': nat, resp: AssertionResponse)
    ensures AssertionOutcomeAsWritten(p, fmt, publicKey, stored, resp).Ok? && AssertionOutcomeAsWritten(p, fmt, publicKey, stored, resp).value.verified
      ==> AssertionOutcomeAsWritten(p, fmt, publicKey, stored', resp) == AssertionOutcomeAsWritten(p, fmt, publicKey, stored, resp)
  {
  }

  /** Authenticator data that was presented and signs the given counter. */
  function SignedCounterData(counter: byte): (s: Bytes)
    ensures |s| == CounterEnd
  {
    Attestation.Zeros(32) + [1] + [0, 0, 0, counter]
  }

  /** With a record at counter 5, whatever its key, and a good signature,
      counters 4 and 5 are refused and counter 6 is verified and becomes the stored counter. */
  lemma AntiReplayAtFive(publicKey: Bytes)
    ensures forall c: byte :: c <= 6 ==>
      var resp := AssertionResponse(SignedCounterData(c), [], []);
      AssertionOutcome(Attestation.AcceptingPlatform(), Attestation.FidoU2f, publicKey, 5, resp)
        == if c <= 5 then Err(CounterDidNotIncrease) else Ok(Verdict(true, 6))
  {
    forall c: byte | c <= 6
      ensures var resp := AssertionResponse(SignedCounterData(c), [], []);
        AssertionOutcome(Attestation.AcceptingPlatform(), Attestation.FidoU2f, publicKey, 5, resp)
          == if c <= 5 then Err(CounterDidNotIncrease) else Ok(Verdict(true, 6))
    {
      SignedCounterValue(c);
    }
  }

  lemma SignedCounterValue(c: byte)
    ensures var s := SignedCounterData(c);
      s[32] == 1 && BigEndian32(s[33..37]) == c
  {
    var s := SignedCounterData(c);
    assert s[33..37] == [0, 0, 0, c];
  }

  /** A record at counter 5 and an assertion signing counter 4: as written
      it is verified and the counter goes back to 4; the guarded verifier
      refuses it. */
  lemma ReplayCounterexample()
    ensures var resp := AssertionResponse(SignedCounterData(4), [], []);
      && AssertionOutcomeAsWritten(Attestation.AcceptingPlatform(), Attestation.FidoU2f, Attestation.SamplePoint(), 5, resp) == Ok(Verdict(true, 4))
      && AssertionOutcome(Attestation.AcceptingPlatform(), Attestation.FidoU2f, Attestation.SamplePoint(), 5, resp) == Err(CounterDidNotIncrease)
  {
    SignedCounterValue(4);
  }
}
