/** Authenticator data (section 6.1 of W3C WebAuthn Level 2) with attested
    credential data (section 6.5.1): rpIdHash(32) flags(1) signCount(4, big
    endian) aaguid(16) credentialIdLength(2, big endian) credentialId
    credentialPublicKey(the rest). */
module AuthData {
  import opened Bytes
  import opened Errors

  const CounterEnd: nat := 37     // 32 + 1 + 4
  const CredIdStart: nat := 55    // 37 + 16 + 2

  /** What parseMakeCredAuthData returns. */
  datatype MakeCredAuthData = MakeCredAuthData(
    rpIdHash: Bytes, flagsBuf: Bytes, flags: byte, counter: nat, counterBuf: Bytes,
    aaguid: Bytes, credId: Bytes, cosePublicKey: Bytes)

  /** What parseGetAssertAuthData returns. */
  datatype GetAssertAuthData = GetAssertAuthData(
    rpIdHash: Bytes, flagsBuf: Bytes, flags: byte, counter: nat, counterBuf: Bytes)

  /** `flags & U2F_USER_PRESENTED` is non-zero. */
  predicate UserPresent(flags: byte) {
    flags % 2 == 1
  }

  /** The make-credential layout read at its fixed offsets. */
  function MakeCredLayout(s: Bytes): Result<MakeCredAuthData> {
    if |s| < CounterEnd then Err(TruncatedCounter)
    else if |s| < CredIdStart then Err(TruncatedCredIdLength)
    else
      var end := CredIdEnd(s);
      Ok(MakeCredAuthData(s[..32], s[32..33], s[32], BigEndian32(s[33..37]), s[33..37],
                          s[37..53], s[55..end], s[end..]))
  }

  /** Where the credential id stops: after the announced length, or at the
      end of the data when fewer bytes are left (slice clamps). */
  function CredIdEnd(s: Bytes): (end: nat)
    requires |s| >= CredIdStart
    ensures CredIdStart <= end <= |s|
  {
    Min(CredIdStart + BigEndian16(s[53..55]), |s|)
  }

  /** The announced credential id fits in the data. */
  predicate CredIdComplete(s: Bytes) {
    |s| >= CredIdStart && |s| - CredIdStart >= BigEndian16(s[53..55])
  }

  /** The get-assertion layout: the first three fields only. */
  function GetAssertLayout(s: Bytes): Result<GetAssertAuthData> {
    if |s| < CounterEnd then Err(TruncatedCounter)
    else Ok(GetAssertAuthData(s[..32], s[32..33], s[32], BigEndian32(s[33..37]), s[33..37]))
  }

  /** parseMakeCredAuthData: peel each field off the front of the buffer. */
  method ParseMakeCredAuthData(input: Bytes) returns (r: Result<MakeCredAuthData>)
    ensures r == MakeCredLayout(input)
  {
    var buffer := input;
    var rpIdHash := Slice(buffer, 0, 32);
    buffer := SliceFrom(buffer, 32);
    var flagsBuf := Slice(buffer, 0, 1);
    buffer := SliceFrom(buffer, 1);
    var counterBuf := Slice(buffer, 0, 4);
    buffer := SliceFrom(buffer, 4);
    if |counterBuf| < 4 {
      return Err(TruncatedCounter);  // readUInt32BE throws a RangeError
    }
    // a full counter means the flags byte was there too
    assert |input| >= CounterEnd && buffer == input[37..];
    assert rpIdHash == input[..32] && flagsBuf == input[32..33] && counterBuf == input[33..37];
    var flags := flagsBuf[0];
    var counter := BigEndian32(counterBuf);
    var aaguid := Slice(buffer, 0, 16);
    buffer := SliceFrom(buffer, 16);
    var credIdLenBuf := Slice(buffer, 0, 2);
    buffer := SliceFrom(buffer, 2);
    if |credIdLenBuf| < 2 {
      return Err(TruncatedCredIdLength);  // readUInt16BE throws a RangeError
    }
    assert |input| >= CredIdStart && buffer == input[55..];
    assert aaguid == input[37..53] && credIdLenBuf == input[53..55];
    var credIdLen := BigEndian16(credIdLenBuf);
    var credId := Slice(buffer, 0, credIdLen);
    buffer := SliceFrom(buffer, credIdLen);
    var cosePublicKey := buffer;
    assert credId == input[55..CredIdEnd(input)] && cosePublicKey == input[CredIdEnd(input)..];
    return Ok(MakeCredAuthData(rpIdHash, flagsBuf, flags, counter, counterBuf, aaguid, credId, cosePublicKey));
  }

  /** parseGetAssertAuthData: the same peeling, stopping after the counter. */
  method ParseGetAssertAuthData(input: Bytes) returns (r: Result<GetAssertAuthData>)
    ensures r == GetAssertLayout(input)
  {
    var buffer := input;
    var rpIdHash := Slice(buffer, 0, 32);
    buffer := SliceFrom(buffer, 32);
    var flagsBuf := Slice(buffer, 0, 1);
    buffer := SliceFrom(buffer, 1);
    var counterBuf := Slice(buffer, 0, 4);
    buffer := SliceFrom(buffer, 4);
    if |counterBuf| < 4 {
      return Err(TruncatedCounter);  // readUInt32BE throws a RangeError
    }
    assert rpIdHash == input[..32] && flagsBuf == input[32..33] && counterBuf == input[33..37];
    var flags := flagsBuf[0];
    var counter := BigEndian32(counterBuf);
    return Ok(GetAssertAuthData(rpIdHash, flagsBuf, flags, counter, counterBuf));
  }

  /** A make-credential structure whose fields have the sizes of the layout. */
  predicate WellFormed(d: MakeCredAuthData) {
    && |d.rpIdHash| == 32
    && d.flagsBuf == [d.flags]
    && |d.counterBuf| == 4
    && d.counter == BigEndian32(d.counterBuf)
    && |d.aaguid| == 16
    && |d.credId| < 0x1_0000
  }

  /** rpIdHash || flags || counter || aaguid || length || credId || key. */
  function Serialize(d: MakeCredAuthData): Bytes
    requires |d.credId| < 0x1_0000
  {
    d.rpIdHash + d.flagsBuf + d.counterBuf + d.aaguid + Uint16Bytes(|d.credId|) + d.credId + d.cosePublicKey
  }

  /** The parser fails exactly when the counter or the length field runs
      past the end; a credential id that does so is cut short, and the key
      is then empty. */
  lemma MakeCredErrors(s: Bytes)
    ensures MakeCredLayout(s).Err? <==> |s| < CredIdStart
    ensures |s| < CounterEnd ==> MakeCredLayout(s) == Err(TruncatedCounter)
    ensures CounterEnd <= |s| < CredIdStart ==> MakeCredLayout(s) == Err(TruncatedCredIdLength)
    ensures |s| >= CredIdStart && !CredIdComplete(s) ==>
      MakeCredLayout(s).value.credId == s[CredIdStart..] && MakeCredLayout(s).value.cosePublicKey == []
  {
  }

  /** Every successful parse puts back together: its fields in order, with
      the two length bytes as read, are the input, also when the credential
      id was cut short. When the id is complete the structure is well formed
      and its serialisation is the input. */
  lemma MakeCredReassembles(s: Bytes)
    requires |s| >= CredIdStart
    ensures MakeCredLayout(s).Ok?
    ensures var d := MakeCredLayout(s).value;
      d.rpIdHash + d.flagsBuf + d.counterBuf + d.aaguid + s[53..55] + d.credId + d.cosePublicKey == s
    ensures CredIdComplete(s) ==> WellFormed(MakeCredLayout(s).value)
    ensures CredIdComplete(s) ==> Serialize(MakeCredLayout(s).value) == s
  {
    var d := MakeCredLayout(s).value;
    assert s == s[..32] + s[32..33] + s[33..37] + s[37..53] + s[53..55] + d.credId + d.cosePublicKey;
    if CredIdComplete(s) {
      BigEndian16RoundTrip(s[53..55]);
      assert Uint16Bytes(|d.credId|) == s[53..55];
    }
  }

  /** Parsing the serialisation of a well-formed structure gives it back. */
  lemma MakeCredRoundTrip(d: MakeCredAuthData)
    requires WellFormed(d)
    ensures MakeCredLayout(Serialize(d)) == Ok(d)
  {
    var s := Serialize(d);
    var n := |d.credId|;
    Uint16BytesRoundTrip(n);
    assert s[..32] == d.rpIdHash;
    assert s[32..33] == d.flagsBuf && s[32] == d.flags;
    assert s[33..37] == d.counterBuf;
    assert s[37..53] == d.aaguid;
    assert s[53..55] == Uint16Bytes(n);
    assert s[55..55 + n] == d.credId;
    assert s[55 + n..] == d.cosePublicKey;
  }

  /** On make-credential data both parsers read the same rpIdHash, flags and counter. */
  lemma LayoutsAgree(s: Bytes)
    requires MakeCredLayout(s).Ok?
    ensures var d := MakeCredLayout(s).value;
      GetAssertLayout(s) == Ok(GetAssertAuthData(d.rpIdHash, d.flagsBuf, d.flags, d.counter, d.counterBuf))
  {
  }

  /** rpIdHash || flagsBuf || counterBuf is exactly the first 37 bytes, and the
      counter is their big-endian value at offsets 33..37. */
  lemma GetAssertPrefix(s: Bytes)
    requires GetAssertLayout(s).Ok?
    ensures var d := GetAssertLayout(s).value;
      && d.rpIdHash + d.flagsBuf + d.counterBuf == s[..CounterEnd]
      && d.flagsBuf == [d.flags]
      && d.counter == BigEndian32(s[33..37])
  {
    assert s[..CounterEnd] == s[..32] + s[32..33] + s[33..37];
  }
}
