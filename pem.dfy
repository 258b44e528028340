/** PEM armour for a raw P-256 point or a certificate: SubjectPublicKeyInfo
    wrapping (section 2 of RFC 5480), base64 body wrapped at 64 characters
    and BEGIN/END framing (section 2 of RFC 7468). */
module Pem {
  import opened Bytes
  import opened Errors
  import Base64

  /** DER of SEQUENCE { SEQUENCE { ecPublicKey, P-256 }, BIT STRING header }:
      the 26 bytes that precede a 65-byte uncompressed point. */
  const SubjectPublicKeyInfoPrefix: Bytes :=
    [0x30, 0x59, 0x30, 0x13, 0x06, 0x07, 0x2a, 0x86, 0x48, 0xce, 0x3d, 0x02, 0x01,
     0x06, 0x08, 0x2a, 0x86, 0x48, 0xce, 0x3d, 0x03, 0x01, 0x07, 0x03, 0x42, 0x00]

  const PublicKeyLabel: string := "PUBLIC KEY"
  const CertificateLabel: string := "CERTIFICATE"
  const LineLength: nat := 64

  /** An uncompressed SEC 1 point: 65 bytes starting with 0x04. */
  predicate IsRawPoint(b: Bytes) {
    |b| == 65 && b[0] == 0x04
  }

  /** The PEM type chosen for the input. */
  function Label(b: Bytes): string {
    if IsRawPoint(b) then PublicKeyLabel else CertificateLabel
  }

  /** The DER that is armoured: the point behind the fixed prefix, or the input itself. */
  function Der(b: Bytes): Bytes {
    if IsRawPoint(b) then SubjectPublicKeyInfoPrefix + b else b
  }

  function Header(pemType: string): string { "-----BEGIN " + pemType + "-----\n" }
  function Footer(pemType: string): string { "-----END " + pemType + "-----\n" }

  /** JavaScript `s.substr(start, len)` for a start inside the string. */
  function Substr(s: string, start: nat, len: nat): string
    requires start <= |s|
  {
    s[start..Min(start + len, |s|)]
  }

  /** The base64 text cut into lines of 64 characters, the last one shorter. */
  function Lines(s: string): (r: seq<string>)
    ensures |r| == (|s| + LineLength - 1) / LineLength
    decreases |s|
  {
    if |s| == 0 then []
    else if |s| <= LineLength then [s]
    else [s[..LineLength]] + Lines(s[LineLength..])
  }

  /** The lines concatenated. */
  function Concat(lines: seq<string>): string {
    if lines == [] then "" else Concat(lines[..|lines| - 1]) + lines[|lines| - 1]
  }

  /** The lines, each followed by a newline. */
  function JoinLines(lines: seq<string>): string {
    if lines == [] then "" else JoinLines(lines[..|lines| - 1]) + lines[|lines| - 1] + "\n"
  }

  /** The PEM text the source produces for `b`. */
  function PemText(b: Bytes): string {
    Header(Label(b)) + JoinLines(Lines(Base64.Encode(Der(b)))) + Footer(Label(b))
  }

  /** ASN1toPEM: choose the type, base64-encode, then append one line per
      64-character window of the base64 text. */
  method Asn1ToPem(pkBuffer: Bytes) returns (pem: string)
    ensures pem == PemText(pkBuffer)
  {
    var der := pkBuffer;
    var pemType: string;
    if |der| == 65 && der[0] == 0x04 {
      der := SubjectPublicKeyInfoPrefix + der;
      pemType := PublicKeyLabel;
    } else {
      pemType := CertificateLabel;
    }
    var b64 := Base64.Encode(der);
    var body := "";
    var lineCount := (|b64| + LineLength - 1) / LineLength;
    for i := 0 to lineCount
      invariant body == JoinLines(Lines(b64)[..i])
    {
      var start := LineLength * i;
      LineAt(b64, i);
      body := body + Substr(b64, start, LineLength) + "\n";
      assert Lines(b64)[..i + 1][..i] == Lines(b64)[..i];
    }
    assert Lines(b64)[..lineCount] == Lines(b64);
    pem := Header(pemType) + body + Footer(pemType);
  }

  /** Line `i` is the `i`-th 64-character window of the text. */
  lemma {:induction false} LineAt(s: string, i: nat)
    requires i < |Lines(s)|
    ensures LineLength * i <= |s|
    ensures Lines(s)[i] == Substr(s, LineLength * i, LineLength)
    decreases |s|
  {
    if i > 0 {
      LineAt(s[LineLength..], i - 1);
      assert s[LineLength..][LineLength * (i - 1)..Min(LineLength * (i - 1) + LineLength, |s| - LineLength)]
          == s[LineLength * i..Min(LineLength * i + LineLength, |s|)];
    }
  }

  /** The shape of the PEM body: ceil(n / 64) lines, every line 1 to 64
      characters, all but the last exactly 64, and together the base64 text. */
  lemma PemLines(b: Bytes)
    ensures var text := Base64.Encode(Der(b));
      var lines := Lines(text);
      && PemText(b) == Header(Label(b)) + JoinLines(lines) + Footer(Label(b))
      && |lines| == (|text| + LineLength - 1) / LineLength
      && (forall i :: 0 <= i < |lines| ==> 0 < |lines[i]| <= LineLength)
      && (forall i :: 0 <= i < |lines| - 1 ==> |lines[i]| == LineLength)
      && Concat(lines) == text
  {
    var text := Base64.Encode(Der(b));
    var lines := Lines(text);
    forall i | 0 <= i < |lines|
      ensures 0 < |lines[i]| <= LineLength
      ensures i < |lines| - 1 ==> |lines[i]| == LineLength
    {
      LineAt(text, i);
    }
    ConcatLines(text);
  }

  lemma {:induction false} ConcatPrepend(line: string, lines: seq<string>)
    ensures Concat([line] + lines) == line + Concat(lines)
    decreases |lines|
  {
    if lines != [] {
      var init := lines[..|lines| - 1];
      ConcatPrepend(line, init);
      assert ([line] + lines)[..|lines|] == [line] + init;
    }
  }

  lemma {:induction false} ConcatLines(s: string)
    ensures Concat(Lines(s)) == s
    decreases |s|
  {
    if |s| == 0 {
    } else if |s| <= LineLength {
      assert Concat([s]) == Concat([]) + s;
    } else {
      ConcatLines(s[LineLength..]);
      ConcatPrepend(s[..LineLength], Lines(s[LineLength..]));
    }
  }

  /** The text with every newline removed. */
  function RemoveNewlines(s: string): string {
    if s == [] then "" else Keep(s[0]) + RemoveNewlines(s[1..])
  }

  function Keep(c: char): string {
    if c == '\n' then "" else [c]
  }

  lemma {:induction false} RemoveNewlinesAppend(a: string, b: string)
    ensures RemoveNewlines(a + b) == RemoveNewlines(a) + RemoveNewlines(b)
    decreases |a|
  {
    if a == [] {
      assert a + b == b;
    } else {
      var ab := a + b;
      assert ab[0] == a[0] && ab[1..] == a[1..] + b;
      calc {
        RemoveNewlines(ab);
        Keep(a[0]) + RemoveNewlines(a[1..] + b);
        { RemoveNewlinesAppend(a[1..], b); }
        Keep(a[0]) + (RemoveNewlines(a[1..]) + RemoveNewlines(b));
        RemoveNewlines(a) + RemoveNewlines(b);
      }
    }
  }

  lemma {:induction false} RemoveNewlinesNone(s: string)
    requires forall i :: 0 <= i < |s| ==> s[i] != '\n'
    ensures RemoveNewlines(s) == s
    decreases |s|
  {
    if s != [] {
      RemoveNewlinesNone(s[1..]);
    }
  }

  /** Removing the newlines from the joined lines gives back their concatenation. */
  lemma {:induction false} RemoveNewlinesJoin(lines: seq<string>)
    requires forall k, i :: 0 <= k < |lines| && 0 <= i < |lines[k]| ==> lines[k][i] != '\n'
    ensures RemoveNewlines(JoinLines(lines)) == Concat(lines)
    decreases |lines|
  {
    if lines != [] {
      var init, last := lines[..|lines| - 1], lines[|lines| - 1];
      RemoveNewlinesJoin(init);
      RemoveNewlinesAppend(JoinLines(init) + last, "\n");
      RemoveNewlinesAppend(JoinLines(init), last);
      RemoveNewlinesNone(last);
    }
  }

  /** Strip the framing of `pemType`, drop the newlines and base64-decode. */
  function Dearmor(pem: string, pemType: string): Option<Bytes> {
    var h, f := Header(pemType), Footer(pemType);
    if |pem| < |h| + |f| || pem[..|h|] != h || pem[|pem| - |f|..] != f then None
    else Base64.Decode(RemoveNewlines(pem[|h|..|pem| - |f|]))
  }

  /** Undoing the armour of PemText(b) yields exactly the DER that was armoured. */
  lemma DearmorPemText(b: Bytes)
    ensures Dearmor(PemText(b), Label(b)) == Some(Der(b))
  {
    var text := Base64.Encode(Der(b));
    var lines := Lines(text);
    var h, f, body := Header(Label(b)), Footer(Label(b)), JoinLines(lines);
    var pem := PemText(b);
    assert pem == h + body + f;
    assert pem[..|h|] == h && pem[|pem| - |f|..] == f && pem[|h|..|pem| - |f|] == body;
    Base64.EncodeLetters(Der(b));
    forall k, i | 0 <= k < |lines| && 0 <= i < |lines[k]|
      ensures lines[k][i] != '\n'
    {
      LineAt(text, k);
      assert lines[k][i] == text[LineLength * k + i];
    }
    RemoveNewlinesJoin(lines);
    ConcatLines(text);
    Base64.DecodeEncode(Der(b));
  }

  /** Round trip in the source's two cases: a raw point comes back behind the
      26-byte prefix under PUBLIC KEY; anything else comes back unchanged
      under CERTIFICATE. */
  lemma PemRoundTrip(b: Bytes)
    ensures IsRawPoint(b) ==>
      && Label(b) == PublicKeyLabel
      && Dearmor(PemText(b), PublicKeyLabel) == Some(SubjectPublicKeyInfoPrefix + b)
      && (SubjectPublicKeyInfoPrefix + b)[|SubjectPublicKeyInfoPrefix|..] == b
    ensures !IsRawPoint(b) ==>
      Label(b) == CertificateLabel && Dearmor(PemText(b), CertificateLabel) == Some(b)
  {
    DearmorPemText(b);
  }
}
