/** The library calls the verification code makes and that are not modelled:
    Node `crypto` (SHA-256 and signature verification), the `cbor` decoder of
    COSE keys, `@fidm/x509` certificate parsing, the `iso-3166-1` table and JSON parsing.
    Each is a total function the caller supplies. */
module External {
  import opened Bytes
  import opened Errors
  import Cose

  /** An X.509 extension as the certificate library reports it. */
  datatype Extension = Extension(critical: bool, value: Bytes)

  /** The fields of a parsed certificate the packed policy reads; a subject
      attribute that is absent is the empty string. */
  datatype Certificate = Certificate(
    version: int,
    countryName: string,
    organizationName: string,
    organizationalUnitName: string,
    commonName: string,
    isCA: bool,                          // the value the source reads as `pem.extensions.isCA`
    aaguidExtension: Option<Extension>)  // getExtension("1.3.6.1.4.1.45724.1.1.4")

  /** The two fields of the parsed client data the registration reads; an
      absent field is None. */
  datatype ClientData = ClientData(challenge: Option<string>, origin: Option<string>)

  datatype Platform = Platform(
    sha256: Bytes -> Bytes,                              // utils.hash
    verifySignature: (Bytes, Bytes, string) -> Option<bool>,  // signature, data, PEM; None when verify throws
    decodeCoseKey: Bytes -> Option<Cose.CoseKey>,        // cbor.decodeAllSync(...)[0]
    certificateFromPem: string -> Option<Certificate>,   // Certificate.fromPEM
    isAlpha2Country: string -> bool,                     // whereAlpha2(...) is defined
    parseClientData: Bytes -> Option<ClientData>)        // JSON.parse(base64url.decode(...))

  /** utils.verifySignature: the verdict, or the error Node's `verify`
      throws when the PEM text is neither a public key nor a certificate. */
  function VerifySignature(p: Platform, sig: Bytes, data: Bytes, pem: string): Result<bool> {
    match p.verifySignature(sig, data, pem)
    case None => Err(UnusableKey)
    case Some(verified) => Ok(verified)
  }
}
