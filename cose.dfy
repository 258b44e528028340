/** COSE EC2 public key to an uncompressed SEC 1 point (section 13.1.1 of
    RFC 8152; section 2.3.3 of SEC 1). */
module Cose {
  import opened Bytes
  import opened Errors

  /** A COSE_Key after CBOR decoding: integer labels mapped to byte strings. */
  type CoseKey = map<int, Bytes>

  const LabelX: int := -2
  const LabelY: int := -3
  const UncompressedTag: byte := 0x04

  /** COSEECDHAtoPKCS: 0x04 followed by the x and y coordinates. */
  function CoseEcdhaToPkcs(key: CoseKey): (r: Result<Bytes>)
    ensures r.Ok? <==> LabelX in key && LabelY in key
    ensures r.Err? ==> r.error == MissingCoordinate
    ensures r.Ok? ==>
      var x, y := key[LabelX], key[LabelY];
      && |r.value| == 1 + |x| + |y|
      && r.value[0] == UncompressedTag
      && r.value[1..1 + |x|] == x
      && r.value[1 + |x|..] == y
  {
    if LabelX !in key || LabelY !in key then Err(MissingCoordinate)
    else Ok([UncompressedTag] + key[LabelX] + key[LabelY])
  }

  /** The coordinates of a 65-byte point, read back at their fixed offsets. */
  function Coordinates(point: Bytes): (Bytes, Bytes)
    requires |point| == 65
  {
    (point[1..33], point[33..65])
  }

  /** For P-256 keys (32-byte coordinates) the point has 65 bytes and its
      coordinates are recovered at offsets 1..33 and 33..65. */
  lemma P256PointRoundTrip(key: CoseKey)
    requires LabelX in key && LabelY in key
    requires |key[LabelX]| == 32 && |key[LabelY]| == 32
    ensures CoseEcdhaToPkcs(key).Ok?
    ensures |CoseEcdhaToPkcs(key).value| == 65
    ensures Coordinates(CoseEcdhaToPkcs(key).value) == (key[LabelX], key[LabelY])
  {
    var p := CoseEcdhaToPkcs(key).value;
    assert p[1..33] == p[1..1 + |key[LabelX]|];
    assert p[33..65] == p[1 + |key[LabelX]|..];
  }
}
