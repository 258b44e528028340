/** Error kinds raised by the relying-party code, and the failure-compatible
    result type every fallible operation of the model returns. */
module Errors {

  /** Each constructor stands for one way the source throws (or, for the
      two parse errors, one way it reads past the end of a buffer). */
  datatype Error =
    | TruncatedCounter        // readUInt32BE on fewer than 4 bytes
    | TruncatedCredIdLength   // readUInt16BE on fewer than 2 bytes
    | MalformedCoseKey        // CBOR decoding of the COSE key gave no map
    | MissingCoordinate       // COSE label -2 or -3 absent: Buffer.concat throws
    | MissingCertificate      // attStmt.x5c absent: x5c[0] throws
    | NotABuffer              // ASN1toPEM given something that is not a Buffer
    | MalformedCertificate    // Certificate.fromPEM rejects the PEM text
    | UnusableKey             // crypto's verify throws: the PEM is neither a key nor a certificate
    | UserNotPresent          // flags bit 0 clear
    | UnsupportedFormat(fmt: string)
    | UnknownAuthenticator    // findAuthr found no credID match
    | UndefinedAuthenticator  // an undefined entry of the authenticators list is read
    | CounterDidNotIncrease   // replay guard
    | UnboundHash             // ReferenceError: `hash` is not defined
    | UndefinedConfig         // TypeError: `this` has no `config`
    | MalformedClientData     // JSON.parse of the client data throws
    | NoSuchUser              // database[session.username] is undefined
    | NoVerificationResult    // `result` is undefined when read

  datatype Option<T> = None | Some(value: T)

  datatype Result<T> = Ok(value: T) | Err(error: Error) {
    predicate IsFailure() { Err? }

    function PropagateFailure<U>(): Result<U>
      requires Err?
    {
      Err(error)
    }

    function Extract(): T
      requires Ok?
    {
      value
    }
  }
}
