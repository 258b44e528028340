/** Registration: verification of an attestation object in the fido-u2f
    (section 8.6 of W3C WebAuthn Level 2), packed (section 8.2, certificate
    requirements in section 8.2.1) and none formats. */
module Attestation {
  import opened Bytes
  import opened Errors
  import opened AuthData
  import opened External
  import Cose
  import Pem

  const FidoU2f: string := "fido-u2f"
  const Packed: string := "packed"
  const NoneFormat: string := "none"
  const ES256: int := -7
  const AttestationUnit: string := "Authenticator Attestation"
  const ReservedByte: byte := 0x00

  /** The attestation statement: sig, the optional certificate chain, alg. */
  datatype AttStmt = AttStmt(sig: Bytes, x5c: Option<seq<Bytes>>, alg: Option<int>)

  /** The CBOR-decoded attestation object. */
  datatype AttestationObject = AttestationObject(fmt: string, attStmt: AttStmt, authData: Bytes)

  /** The authenticator record produced by a registration. */
  datatype AuthrInfo = AuthrInfo(fmt: string, publicKey: Bytes, counter: nat, credId: Bytes)

  /** `{verified, authrInfo}` as the verifier returns it. */
  datatype AttestationResponse = AttestationResponse(verified: bool, authrInfo: Option<AuthrInfo>)

  /** fido-u2f: 0x00 || rpIdHash || clientDataHash || credentialId || publicKey. */
  function U2fSignatureBase(rpIdHash: Bytes, clientDataHash: Bytes, credId: Bytes, publicKey: Bytes): Bytes {
    [ReservedByte] + rpIdHash + clientDataHash + credId + publicKey
  }

  /** packed: authenticatorData || clientDataHash. */
  function PackedSignatureBase(authData: Bytes, clientDataHash: Bytes): Bytes {
    authData + clientDataHash
  }

  /** The certificate requirements of packed attestation that the source checks. */
  predicate PackedCertificatePolicy(p: Platform, cert: Certificate, aaguid: Bytes) {
    && cert.version == 3
    && p.isAlpha2Country(cert.countryName)
    && cert.organizationName != ""
    && cert.organizationalUnitName == AttestationUnit
    && cert.commonName != ""
    && !cert.isCA
    && match cert.aaguidExtension
       case None => true
       case Some(ext) => !ext.critical && SliceFrom(ext.value, 2) == aaguid
  }

  /** COSEECDHAtoPKCS on the key bytes: CBOR-decode, then build the point. */
  function CredentialPoint(p: Platform, cosePublicKey: Bytes): Result<Bytes> {
    match p.decodeCoseKey(cosePublicKey)
    case None => Err(MalformedCoseKey)
    case Some(key) => Cose.CoseEcdhaToPkcs(key)
  }

  /** attStmt.x5c[0]. */
  function FirstCertificate(st: AttStmt): Result<Bytes> {
    match st.x5c
    case None => Err(MissingCertificate)
    case Some(chain) => if |chain| == 0 then Err(NotABuffer) else Ok(chain[0])
  }

  function CertificateOf(p: Platform, pem: string): Result<Certificate> {
    match p.certificateFromPem(pem)
    case None => Err(MalformedCertificate)
    case Some(cert) => Ok(cert)
  }

  function RecordOf(publicKey: Bytes, d: MakeCredAuthData): AuthrInfo {
    AuthrInfo(FidoU2f, publicKey, d.counter, d.credId)
  }

  /** The fido-u2f branch, with the client data hashed by SHA-256. */
  function U2fOutcome(p: Platform, att: AttestationObject, clientDataJSON: Bytes): Result<AttestationResponse> {
    var d :- MakeCredLayout(att.authData);
    if !UserPresent(d.flags) then Err(UserNotPresent)
    else
      var publicKey :- CredentialPoint(p, d.cosePublicKey);
      var cert :- FirstCertificate(att.attStmt);
      var base := U2fSignatureBase(d.rpIdHash, p.sha256(clientDataJSON), d.credId, publicKey);
      var verified :- VerifySignature(p, att.attStmt.sig, base, Pem.PemText(cert));
      Ok(AttestationResponse(verified, if verified then Some(RecordOf(publicKey, d)) else None))
  }

  /** The packed branch with a certificate chain. */
  function PackedCertOutcome(p: Platform, att: AttestationObject, clientDataJSON: Bytes): Result<AttestationResponse> {
    var d :- MakeCredLayout(att.authData);
    if !UserPresent(d.flags) then Err(UserNotPresent)
    else
      var publicKey :- CredentialPoint(p, d.cosePublicKey);
      var certDer :- FirstCertificate(att.attStmt);
      var pem := Pem.PemText(certDer);
      var cert :- CertificateOf(p, pem);
      var base := PackedSignatureBase(att.authData, p.sha256(clientDataJSON));
      var signed :- VerifySignature(p, att.attStmt.sig, base, pem);
      var verified := signed && PackedCertificatePolicy(p, cert, d.aaguid);
      Ok(AttestationResponse(verified, if verified then Some(RecordOf(publicKey, d)) else None))
  }

  /** The packed branch without a chain (self attestation): the signature is
      checked with the credential's own key, user presence is not checked and
      the record is returned whatever the verdict. */
  function SelfAttestationOutcome(p: Platform, att: AttestationObject, clientDataJSON: Bytes): Result<AttestationResponse> {
    var base := PackedSignatureBase(att.authData, p.sha256(clientDataJSON));
    var d :- MakeCredLayout(att.authData);
    var publicKey :- CredentialPoint(p, d.cosePublicKey);
    var signed :- VerifySignature(p, att.attStmt.sig, base, Pem.PemText(publicKey));
    var verified := signed && att.attStmt.alg == Some(ES256);
    Ok(AttestationResponse(verified, Some(RecordOf(publicKey, d))))
  }

  /** Dispatch on fmt, with `none` accepted exactly when the configuration says so. */
  function AttestationOutcome(p: Platform, acceptNone: bool, att: AttestationObject, clientDataJSON: Bytes): Result<AttestationResponse> {
    if att.fmt == FidoU2f then U2fOutcome(p, att, clientDataJSON)
    else if att.fmt == Packed && att.attStmt.x5c.Some? then PackedCertOutcome(p, att, clientDataJSON)
    else if att.fmt == Packed then SelfAttestationOutcome(p, att, clientDataJSON)
    else if att.fmt == NoneFormat then Ok(AttestationResponse(acceptNone, None))
    else Err(UnsupportedFormat(att.fmt))
  }

  /** verifyAuthenticatorAttestationResponse, step by step. */
  method VerifyAuthenticatorAttestationResponse(p: Platform, acceptNone: bool, att: AttestationObject, clientDataJSON: Bytes)
    returns (r: Result<AttestationResponse>)
    ensures r == AttestationOutcome(p, acceptNone, att, clientDataJSON)
  {
    var response := AttestationResponse(false, None);
    if att.fmt == FidoU2f {
      var authrDataStruct :- ParseMakeCredAuthData(att.authData);
      if !UserPresent(authrDataStruct.flags) {
        return Err(UserNotPresent);
      }
      var clientDataHash := p.sha256(clientDataJSON);
      var publicKey :- CredentialPoint(p, authrDataStruct.cosePublicKey);
      var signatureBase := U2fSignatureBase(authrDataStruct.rpIdHash, clientDataHash, authrDataStruct.credId, publicKey);
      var certificate :- FirstCertificate(att.attStmt);
      var pemCertificate := Pem.Asn1ToPem(certificate);
      var verified :- VerifySignature(p, att.attStmt.sig, signatureBase, pemCertificate);
      response := response.(verified := verified);
      if response.verified {
        response := response.(authrInfo := Some(RecordOf(publicKey, authrDataStruct)));
      }
    } else if att.fmt == Packed && att.attStmt.x5c.Some? {
      var authrDataStruct :- ParseMakeCredAuthData(att.authData);
      if !UserPresent(authrDataStruct.flags) {
        return Err(UserNotPresent);
      }
      var clientDataHash := p.sha256(clientDataJSON);
      var publicKey :- CredentialPoint(p, authrDataStruct.cosePublicKey);
      var signatureBase := PackedSignatureBase(att.authData, clientDataHash);
      var certificate :- FirstCertificate(att.attStmt);
      var pemCertificate := Pem.Asn1ToPem(certificate);
      var cert :- CertificateOf(p, pemCertificate);
      var signed :- VerifySignature(p, att.attStmt.sig, signatureBase, pemCertificate);
      response := response.(verified := signed && PackedCertificatePolicy(p, cert, authrDataStruct.aaguid));
      if response.verified {
        response := response.(authrInfo := Some(RecordOf(publicKey, authrDataStruct)));
      }
    } else if att.fmt == Packed {
      var clientDataHash := p.sha256(clientDataJSON);
      var signatureBase := PackedSignatureBase(att.authData, clientDataHash);
      var authrDataStruct :- ParseMakeCredAuthData(att.authData);
      var publicKey :- CredentialPoint(p, authrDataStruct.cosePublicKey);
      var pemCertificate := Pem.Asn1ToPem(publicKey);
      response := response.(authrInfo := Some(RecordOf(publicKey, authrDataStruct)));
      var signed :- VerifySignature(p, att.attStmt.sig, signatureBase, pemCertificate);
      response := response.(verified := signed && att.attStmt.alg == Some(ES256));
    } else if att.fmt == NoneFormat {
      response := response.(verified := acceptNone);
    } else {
      return Err(UnsupportedFormat(att.fmt));
    }
    return Ok(response);
  }

  // ---------------------------------------------------------------------
  // Properties of the verifier

  /** A record is only ever produced from authenticator data that parsed: it
      is labelled fido-u2f, holds the counter at bytes 33..37, the credential
      id the length at bytes 53..55 announces (cut at the end of the data),
      and the uncompressed point built from the COSE key. */
  lemma RecordComesFromAuthData(p: Platform, acceptNone: bool, att: AttestationObject, clientDataJSON: Bytes)
    requires AttestationOutcome(p, acceptNone, att, clientDataJSON).Ok?
    requires AttestationOutcome(p, acceptNone, att, clientDataJSON).value.authrInfo.Some?
    ensures var info := AttestationOutcome(p, acceptNone, att, clientDataJSON).value.authrInfo.value;
      && att.fmt in {FidoU2f, Packed}
      && info.fmt == FidoU2f
      && |att.authData| >= CredIdStart
      && info.counter == BigEndian32(att.authData[33..37])
      && info.credId == att.authData[CredIdStart..CredIdEnd(att.authData)]
      && |info.publicKey| > 0 && info.publicKey[0] == Cose.UncompressedTag
    ensures MakeCredLayout(att.authData).Ok?
    ensures CredentialPoint(p, MakeCredLayout(att.authData).value.cosePublicKey).Ok?
    ensures AttestationOutcome(p, acceptNone, att, clientDataJSON).value.authrInfo.value
      == AuthrInfo(FidoU2f, CredentialPoint(p, MakeCredLayout(att.authData).value.cosePublicKey).value,
                   BigEndian32(att.authData[33..37]), att.authData[CredIdStart..CredIdEnd(att.authData)])
  {
  }

  /** The two certificate formats refuse authenticator data whose
      user-present bit is clear, so anything they accept had it set. */
  lemma CertificateFormatsRequirePresence(p: Platform, acceptNone: bool, att: AttestationObject, clientDataJSON: Bytes)
    requires att.fmt == FidoU2f || (att.fmt == Packed && att.attStmt.x5c.Some?)
    ensures MakeCredLayout(att.authData).Ok? && !UserPresent(att.authData[32]) ==>
      AttestationOutcome(p, acceptNone, att, clientDataJSON) == Err(UserNotPresent)
    ensures AttestationOutcome(p, acceptNone, att, clientDataJSON).Ok? ==>
      |att.authData| >= CredIdStart && UserPresent(att.authData[32])
  {
  }

  /** fido-u2f: the verdict is the signature check, under the first
      certificate of the chain, over 0x00 || rpIdHash || SHA-256(clientDataJSON)
      || credentialId || point; a record is returned exactly when it holds. */
  lemma U2fVerdict(p: Platform, acceptNone: bool, att: AttestationObject, clientDataJSON: Bytes)
    requires att.fmt == FidoU2f
    requires AttestationOutcome(p, acceptNone, att, clientDataJSON).Ok?
    ensures MakeCredLayout(att.authData).Ok?
    ensures CredentialPoint(p, MakeCredLayout(att.authData).value.cosePublicKey).Ok?
    ensures att.attStmt.x5c.Some? && |att.attStmt.x5c.value| > 0
    ensures var r := AttestationOutcome(p, acceptNone, att, clientDataJSON).value;
      var d := MakeCredLayout(att.authData).value;
      var point := CredentialPoint(p, d.cosePublicKey).value;
      && (r.verified <==> p.verifySignature(att.attStmt.sig,
            U2fSignatureBase(att.authData[..32], p.sha256(clientDataJSON), d.credId, point),
            Pem.PemText(att.attStmt.x5c.value[0])) == Some(true))
      && (r.authrInfo.Some? <==> r.verified)
  {
  }

  /** packed with a chain: the verdict is the signature over authenticatorData
      || SHA-256(clientDataJSON) under the first certificate, and that
      certificate meeting the policy with the aaguid at bytes 37..53. */
  lemma PackedCertVerdict(p: Platform, acceptNone: bool, att: AttestationObject, clientDataJSON: Bytes)
    requires att.fmt == Packed && att.attStmt.x5c.Some?
    requires AttestationOutcome(p, acceptNone, att, clientDataJSON).Ok?
    ensures |att.attStmt.x5c.value| > 0
    ensures p.certificateFromPem(Pem.PemText(att.attStmt.x5c.value[0])).Some?
    ensures |att.authData| >= CredIdStart
    ensures var r := AttestationOutcome(p, acceptNone, att, clientDataJSON).value;
      var pem := Pem.PemText(att.attStmt.x5c.value[0]);
      && (r.verified <==>
            && p.verifySignature(att.attStmt.sig, att.authData + p.sha256(clientDataJSON), pem) == Some(true)
            && PackedCertificatePolicy(p, p.certificateFromPem(pem).value, att.authData[37..53]))
      && (r.authrInfo.Some? <==> r.verified)
  {
  }

  /** A certificate with a critical aaguid extension, or one whose value
      (after its two-byte header) differs from the aaguid, fails the policy. */
  lemma AaguidExtensionChecked(p: Platform, cert: Certificate, aaguid: Bytes)
    requires cert.aaguidExtension.Some?
    requires cert.aaguidExtension.value.critical || SliceFrom(cert.aaguidExtension.value.value, 2) != aaguid
    ensures !PackedCertificatePolicy(p, cert, aaguid)
  {
  }

  /** packed without a chain: a record is returned whatever the verdict, and
      the verdict is the signature over authenticatorData || SHA-256(clientDataJSON)
      under the credential's own key, with alg equal to -7. */
  lemma SelfAttestationVerdict(p: Platform, acceptNone: bool, att: AttestationObject, clientDataJSON: Bytes)
    requires att.fmt == Packed && att.attStmt.x5c.None?
    requires AttestationOutcome(p, acceptNone, att, clientDataJSON).Ok?
    ensures MakeCredLayout(att.authData).Ok?
    ensures CredentialPoint(p, MakeCredLayout(att.authData).value.cosePublicKey).Ok?
    ensures var r := AttestationOutcome(p, acceptNone, att, clientDataJSON).value;
      var point := CredentialPoint(p, MakeCredLayout(att.authData).value.cosePublicKey).value;
      && r.authrInfo.Some? && r.authrInfo.value.publicKey == point
      && (r.verified <==>
            p.verifySignature(att.attStmt.sig, att.authData + p.sha256(clientDataJSON), Pem.PemText(point)) == Some(true)
            && att.attStmt.alg == Some(ES256))
  {
  }

  /** A point that is not a 65-byte uncompressed P-256 point is armoured as a
      CERTIFICATE; when that text is no usable key, `verify` throws and self
      attestation fails instead of answering false. */
  lemma SelfAttestationUnusableKey(p: Platform, acceptNone: bool, att: AttestationObject, clientDataJSON: Bytes)
    requires att.fmt == Packed && att.attStmt.x5c.None?
    requires MakeCredLayout(att.authData).Ok?
    requires CredentialPoint(p, MakeCredLayout(att.authData).value.cosePublicKey).Ok?
    requires var point := CredentialPoint(p, MakeCredLayout(att.authData).value.cosePublicKey).value;
      p.verifySignature(att.attStmt.sig, att.authData + p.sha256(clientDataJSON), Pem.PemText(point)).None?
    ensures AttestationOutcome(p, acceptNone, att, clientDataJSON) == Err(UnusableKey)
  {
  }

  /** When the COSE key has 32-byte coordinates, the key self attestation
      verifies with is a PUBLIC KEY PEM whose DER is the P-256 SubjectPublicKeyInfo
      prefix followed by the point 0x04 || x || y. */
  lemma SelfAttestationKeyIsSpki(p: Platform, cosePublicKey: Bytes)
    requires p.decodeCoseKey(cosePublicKey).Some?
    requires var key := p.decodeCoseKey(cosePublicKey).value;
      Cose.LabelX in key && Cose.LabelY in key && |key[Cose.LabelX]| == 32 && |key[Cose.LabelY]| == 32
    ensures CredentialPoint(p, cosePublicKey).Ok?
    ensures var key := p.decodeCoseKey(cosePublicKey).value;
      var point := CredentialPoint(p, cosePublicKey).value;
      && point == [Cose.UncompressedTag] + key[Cose.LabelX] + key[Cose.LabelY]
      && Pem.Label(point) == Pem.PublicKeyLabel
      && Pem.Dearmor(Pem.PemText(point), Pem.PublicKeyLabel) == Some(Pem.SubjectPublicKeyInfoPrefix + point)
  {
    var key := p.decodeCoseKey(cosePublicKey).value;
    Cose.P256PointRoundTrip(key);
    var point := CredentialPoint(p, cosePublicKey).value;
    Pem.PemRoundTrip(point);
  }

  /** The parser cuts an over-long credential id short instead of failing,
      but the key is then empty; since CBOR decoding of nothing yields no map,
      the certificate and self-attestation formats still refuse such data. */
  lemma TruncatedCredIdRejected(p: Platform, acceptNone: bool, att: AttestationObject, clientDataJSON: Bytes)
    requires p.decodeCoseKey([]).None?
    requires att.fmt == FidoU2f || att.fmt == Packed
    requires |att.authData| >= CredIdStart && !CredIdComplete(att.authData)
    ensures AttestationOutcome(p, acceptNone, att, clientDataJSON).Err?
  {
    MakeCredErrors(att.authData);
  }

  /** The fido-u2f message splits back into its parts once the lengths of
      the rpIdHash, the client data hash and the credential id are fixed. */
  lemma U2fSignatureBaseInjective(h1: Bytes, c1: Bytes, id1: Bytes, k1: Bytes, h2: Bytes, c2: Bytes, id2: Bytes, k2: Bytes)
    requires |h1| == |h2| && |c1| == |c2| && |id1| == |id2|
    requires U2fSignatureBase(h1, c1, id1, k1) == U2fSignatureBase(h2, c2, id2, k2)
    ensures h1 == h2 && c1 == c2 && id1 == id2 && k1 == k2
  {
    var b1 := U2fSignatureBase(h1, c1, id1, k1);
    var b2 := U2fSignatureBase(h2, c2, id2, k2);
    var i := 1 + |h1|;
    var j := i + |c1|;
    var k := j + |id1|;
    assert b1[1..i] == h1 && b2[1..i] == h2;
    assert b1[i..j] == c1 && b2[i..j] == c2;
    assert b1[j..k] == id1 && b2[j..k] == id2;
    assert b1[k..] == k1 && b2[k..] == k2;
  }

  /** `none` yields no record, and is verified exactly when accepted; any
      other unknown format is an error naming it. */
  lemma OtherFormats(p: Platform, acceptNone: bool, att: AttestationObject, clientDataJSON: Bytes)
    requires att.fmt != FidoU2f && att.fmt != Packed
    ensures att.fmt == NoneFormat ==>
      AttestationOutcome(p, acceptNone, att, clientDataJSON) == Ok(AttestationResponse(acceptNone, None))
    ensures att.fmt != NoneFormat ==>
      AttestationOutcome(p, acceptNone, att, clientDataJSON) == Err(UnsupportedFormat(att.fmt))
  {
  }

  // ---------------------------------------------------------------------
  // Concrete inputs

  /** Authenticator data with the given flags, a zero counter, a zero-length
      credential id and a one-byte COSE key. */
  function SampleAuthData(flags: byte): (s: Bytes)
    ensures |s| == CredIdStart + 1 && s[32] == flags
  {
    Zeros(32) + [flags] + Zeros(22) + SampleCoseKey
  }

  /** Stands for the CBOR encoding of a COSE key (0xa5 opens a map of five entries). */
  const SampleCoseKey: Bytes := [0xa5]

  /** Stands for the DER of an attestation certificate (0x30 opens a SEQUENCE). */
  const SampleCertificate: Bytes := [0x30]

  /** The 65-byte uncompressed point with zero coordinates. */
  function SamplePoint(): (q: Bytes)
    ensures |q| == 65 && q[0] == Cose.UncompressedTag
  {
    [Cose.UncompressedTag] + Zeros(64)
  }

  function Zeros(n: nat): (z: Bytes)
    ensures |z| == n && forall i :: 0 <= i < n ==> z[i] == 0
  {
    seq(n, _ => 0)
  }

  /** A platform on which every signature is good, CBOR decoding of no bytes
      fails, and any other COSE key has 32-byte zero coordinates. */
  function AcceptingPlatform(): Platform {
    Platform(
      (b: Bytes) => b,
      (sig: Bytes, data: Bytes, pem: string) => Some(true),
      (b: Bytes) => if b == [] then None else Some(map[Cose.LabelX := Zeros(32), Cose.LabelY := Zeros(32)]),
      (pem: string) => None,
      (c: string) => true,
      (b: Bytes) => None)
  }

  lemma SampleLayout(flags: byte)
    ensures MakeCredLayout(SampleAuthData(flags))
      == Ok(MakeCredAuthData(Zeros(32), [flags], flags, 0, [0, 0, 0, 0], Zeros(16), [], SampleCoseKey))
  {
    var s := SampleAuthData(flags);
    assert s[53..55] == [0, 0];
    assert BigEndian16(s[53..55]) == 0;
    assert s[33..37] == [0, 0, 0, 0];
    assert BigEndian32(s[33..37]) == 0;
    assert s[..32] == Zeros(32);
    assert s[32..33] == [flags];
    assert s[37..53] == Zeros(16);
    assert s[55..] == SampleCoseKey;
    assert s[55..55] == [];
    assert MakeCredLayout(s) == Ok(MakeCredAuthData(s[..32], s[32..33], s[32], BigEndian32(s[33..37]), s[33..37],
                                                     s[37..53], s[55..55], s[55..]));
  }

  /** On the sample platform the credential point is a 65-byte uncompressed
      point, armoured as a PUBLIC KEY. */
  lemma SamplePointIsPublicKey()
    ensures CredentialPoint(AcceptingPlatform(), SampleCoseKey) == Ok(SamplePoint())
    ensures Pem.Label(SamplePoint()) == Pem.PublicKeyLabel
  {
    var key: Cose.CoseKey := map[Cose.LabelX := Zeros(32), Cose.LabelY := Zeros(32)];
    assert AcceptingPlatform().decodeCoseKey(SampleCoseKey) == Some(key);
    assert Cose.LabelX in key && key[Cose.LabelX] == Zeros(32);
    assert Cose.LabelY in key && key[Cose.LabelY] == Zeros(32);
    assert [Cose.UncompressedTag] + key[Cose.LabelX] + key[Cose.LabelY] == SamplePoint();
  }

  /** Self attestation accepts a registration whose user-present bit is clear,
      on a platform where CBOR decoding of no bytes fails and the key is a
      65-byte PUBLIC KEY point. */
  lemma SelfAttestationIgnoresPresence()
    ensures AcceptingPlatform().decodeCoseKey([]).None?
    ensures var att := AttestationObject(Packed, AttStmt([], None, Some(ES256)), SampleAuthData(0));
      && !UserPresent(att.authData[32])
      && AttestationOutcome(AcceptingPlatform(), false, att, [])
         == Ok(AttestationResponse(true, Some(AuthrInfo(FidoU2f, SamplePoint(), 0, []))))
      && Pem.Label(SamplePoint()) == Pem.PublicKeyLabel
  {
    SampleLayout(0);
    SamplePointIsPublicKey();
  }

  // ---------------------------------------------------------------------
  // The verifier as written

  /** The fido-u2f branch as written: after the presence check it calls a
      `hash` that is not in scope, so it always throws. */
  function U2fOutcomeAsWritten(att: AttestationObject): Result<AttestationResponse> {
    var d :- MakeCredLayout(att.authData);
    if !UserPresent(d.flags) then Err(UserNotPresent) else Err(UnboundHash)
  }

  /** The verifier as written: besides the fido-u2f branch, the `none` branch
      reads `this.config` where `this` is undefined, so it throws as well. */
  function AttestationOutcomeAsWritten(p: Platform, att: AttestationObject, clientDataJSON: Bytes): Result<AttestationResponse> {
    if att.fmt == FidoU2f then U2fOutcomeAsWritten(att)
    else if att.fmt == NoneFormat then Err(UndefinedConfig)
    else AttestationOutcome(p, false, att, clientDataJSON)
  }

  /** As written, no fido-u2f or none attestation ever succeeds; on every
      other format the two verifiers agree. */
  lemma AsWrittenRejects(p: Platform, acceptNone: bool, att: AttestationObject, clientDataJSON: Bytes)
    ensures att.fmt == FidoU2f || att.fmt == NoneFormat ==> AttestationOutcomeAsWritten(p, att, clientDataJSON).Err?
    ensures att.fmt == FidoU2f && MakeCredLayout(att.authData).Ok? && UserPresent(att.authData[32]) ==>
      AttestationOutcomeAsWritten(p, att, clientDataJSON) == Err(UnboundHash)
    ensures att.fmt != FidoU2f && att.fmt != NoneFormat ==>
      AttestationOutcomeAsWritten(p, att, clientDataJSON) == AttestationOutcome(p, acceptNone, att, clientDataJSON)
  {
  }

  /** A present, well-signed fido-u2f attestation: the verifier as written
      throws, the corrected one accepts it and records the credential. */
  lemma UnboundHashCounterexample()
    ensures var att := AttestationObject(FidoU2f, AttStmt([], Some([SampleCertificate]), None), SampleAuthData(1));
      && AttestationOutcomeAsWritten(AcceptingPlatform(), att, []) == Err(UnboundHash)
      && AttestationOutcome(AcceptingPlatform(), false, att, [])
         == Ok(AttestationResponse(true, Some(AuthrInfo(FidoU2f, SamplePoint(), 0, []))))
  {
    SampleLayout(1);
    SamplePointIsPublicKey();
  }

  /** A `none` attestation under a configuration that asks for none: the
      verifier as written throws, the corrected one accepts it. */
  lemma UndefinedConfigCounterexample()
    ensures var att := AttestationObject(NoneFormat, AttStmt([], None, None), []);
      && AttestationOutcomeAsWritten(AcceptingPlatform(), att, []) == Err(UndefinedConfig)
      && AttestationOutcome(AcceptingPlatform(), true, att, []) == Ok(AttestationResponse(true, None))
  {
  }
}
