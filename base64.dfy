/** Base64 with padding, as in section 4 of RFC 4648 (the encoding Node's
    `Buffer.toString("base64")` produces), and its decoder. */
module Base64 {
  import opened Bytes
  import opened Errors

  /** The 64-letter alphabet: A-Z, a-z, 0-9, '+', '/'. */
  predicate IsAlphabetChar(c: char) {
    ('A' <= c <= 'Z') || ('a' <= c <= 'z') || ('0' <= c <= '9') || c == '+' || c == '/'
  }

  /** The letter of a 6-bit value. */
  function Char(i: nat): (c: char)
    requires i < 64
    ensures IsAlphabetChar(c)
  {
    if i < 26 then (i + 65) as char
    else if i < 52 then (i - 26 + 97) as char
    else if i < 62 then (i - 52 + 48) as char
    else if i == 62 then '+'
    else '/'
  }

  /** The 6-bit value of a letter. */
  function Index(c: char): (i: nat)
    requires IsAlphabetChar(c)
    ensures i < 64
  {
    if 'A' <= c <= 'Z' then c as int - 65
    else if 'a' <= c <= 'z' then c as int - 97 + 26
    else if '0' <= c <= '9' then c as int - 48 + 52
    else if c == '+' then 62
    else 63
  }

  lemma IndexOfChar(i: nat)
    requires i < 64
    ensures Index(Char(i)) == i
  {
  }

  /** Three bytes become four letters. */
  function EncodeGroup(b0: byte, b1: byte, b2: byte): string {
    [Char(b0 / 4), Char((b0 % 4) * 16 + b1 / 16), Char((b1 % 16) * 4 + b2 / 64), Char(b2 % 64)]
  }

  /** Base64 text of `b`: one group per three bytes, and a last group padded
      with one or two '=' when one or two bytes are left over. */
  function Encode(b: Bytes): (s: string)
    ensures |s| == 4 * ((|b| + 2) / 3)
    ensures |s| > 0 ==> IsAlphabetChar(s[0])
    decreases |b|
  {
    if |b| == 0 then ""
    else if |b| == 1 then [Char(b[0] / 4), Char((b[0] % 4) * 16), '=', '=']
    else if |b| == 2 then [Char(b[0] / 4), Char((b[0] % 4) * 16 + b[1] / 16), Char((b[1] % 16) * 4), '=']
    else EncodeGroup(b[0], b[1], b[2]) + Encode(b[3..])
  }

  /** Four letters become three bytes. */
  function DecodeGroup(c0: nat, c1: nat, c2: nat, c3: nat): Bytes
    requires c0 < 64 && c1 < 64 && c2 < 64 && c3 < 64
  {
    [c0 * 4 + c1 / 16, (c1 % 16) * 16 + c2 / 4, (c2 % 4) * 64 + c3]
  }

  predicate IsGroup(s: string)
    requires |s| >= 4
  {
    IsAlphabetChar(s[0]) && IsAlphabetChar(s[1]) && IsAlphabetChar(s[2]) && IsAlphabetChar(s[3])
  }

  /** The last group when it ends in '=': one byte for "xy==", two for "xyz=". */
  function DecodePadded(c0: char, c1: char, c2: char): Option<Bytes> {
    if !IsAlphabetChar(c0) || !IsAlphabetChar(c1) then None
    else if c2 == '=' then Some([Index(c0) * 4 + Index(c1) / 16])
    else if IsAlphabetChar(c2) then Some([Index(c0) * 4 + Index(c1) / 16, (Index(c1) % 16) * 16 + Index(c2) / 4])
    else None
  }

  /** Base64 text back to bytes; None when the text is not a sequence of
      four-letter groups with padding only in the last group. */
  function Decode(s: string): Option<Bytes>
    decreases |s|
  {
    if |s| == 0 then Some([])
    else if |s| < 4 then None
    else if |s| == 4 && s[3] == '=' then DecodePadded(s[0], s[1], s[2])
    else if !IsGroup(s) then None
    else
      match Decode(s[4..])
      case None => None
      case Some(rest) => Some(DecodeGroup(Index(s[0]), Index(s[1]), Index(s[2]), Index(s[3])) + rest)
  }

  /** The bit arithmetic of one group is invertible. */
  lemma GroupRoundTrip(b0: byte, b1: byte, b2: byte)
    ensures DecodeGroup(b0 / 4, (b0 % 4) * 16 + b1 / 16, (b1 % 16) * 4 + b2 / 64, b2 % 64) == [b0, b1, b2]
  {
    var c1 := (b0 % 4) * 16 + b1 / 16;
    var c2 := (b1 % 16) * 4 + b2 / 64;
    assert c1 / 16 == b0 % 4 && c1 % 16 == b1 / 16;
    assert c2 / 4 == b1 % 16 && c2 % 4 == b2 / 64;
  }

  lemma DecodeLastOne(b0: byte)
    ensures Decode([Char(b0 / 4), Char((b0 % 4) * 16), '=', '=']) == Some([b0])
  {
    IndexOfChar(b0 / 4);
    IndexOfChar((b0 % 4) * 16);
    assert ((b0 % 4) * 16) / 16 == b0 % 4;
  }

  lemma DecodeLastTwo(b0: byte, b1: byte)
    ensures Decode([Char(b0 / 4), Char((b0 % 4) * 16 + b1 / 16), Char((b1 % 16) * 4), '=']) == Some([b0, b1])
  {
    var c1 := (b0 % 4) * 16 + b1 / 16;
    IndexOfChar(b0 / 4);
    IndexOfChar(c1);
    IndexOfChar((b1 % 16) * 4);
    assert c1 / 16 == b0 % 4 && c1 % 16 == b1 / 16;
    assert ((b1 % 16) * 4) / 4 == b1 % 16;
  }

  /** Decode's step over one full group. */
  lemma DecodeStep(s: string)
    requires |s| >= 4 && IsGroup(s) && s[3] != '='
    requires Decode(s[4..]).Some?
    ensures Decode(s) == Some(DecodeGroup(Index(s[0]), Index(s[1]), Index(s[2]), Index(s[3])) + Decode(s[4..]).value)
  {
  }

  lemma EncodeGroupLetters(b0: byte, b1: byte, b2: byte)
    ensures var g := EncodeGroup(b0, b1, b2);
      IsGroup(g) && g[3] != '=' &&
      DecodeGroup(Index(g[0]), Index(g[1]), Index(g[2]), Index(g[3])) == [b0, b1, b2]
  {
    IndexOfChar(b0 / 4);
    IndexOfChar((b0 % 4) * 16 + b1 / 16);
    IndexOfChar((b1 % 16) * 4 + b2 / 64);
    IndexOfChar(b2 % 64);
    GroupRoundTrip(b0, b1, b2);
  }

  lemma DecodeFullGroup(b0: byte, b1: byte, b2: byte, rest: string)
    requires Decode(rest).Some?
    ensures Decode(EncodeGroup(b0, b1, b2) + rest) == Some([b0, b1, b2] + Decode(rest).value)
  {
    var g := EncodeGroup(b0, b1, b2);
    var s := g + rest;
    assert s[..4] == g;
    assert s[4..] == rest;
    EncodeGroupLetters(b0, b1, b2);
    DecodeStep(s);
  }

  lemma DecodeEncodeOne(b0: byte)
    ensures Decode(Encode([b0])) == Some([b0])
  {
    DecodeLastOne(b0);
  }

  lemma DecodeEncodeTwo(b0: byte, b1: byte)
    ensures Decode(Encode([b0, b1])) == Some([b0, b1])
  {
    DecodeLastTwo(b0, b1);
  }

  lemma DecodeEncodeShort(b: Bytes)
    requires 0 < |b| < 3
    ensures Decode(Encode(b)) == Some(b)
  {
    if |b| == 1 {
      assert b == [b[0]];
      DecodeEncodeOne(b[0]);
    } else {
      assert b == [b[0], b[1]];
      DecodeEncodeTwo(b[0], b[1]);
    }
  }

  lemma DecodeEncodeStep(b: Bytes)
    requires |b| >= 3
    requires Decode(Encode(b[3..])) == Some(b[3..])
    ensures Decode(Encode(b)) == Some(b)
  {
    var rest := Encode(b[3..]);
    assert Encode(b) == EncodeGroup(b[0], b[1], b[2]) + rest;
    DecodeFullGroup(b[0], b[1], b[2], rest);
    SplitGroup(b);
  }

  lemma SplitGroup(b: Bytes)
    requires |b| >= 3
    ensures [b[0], b[1], b[2]] + b[3..] == b
  {
  }

  /** Decoding undoes encoding, for every byte string. */
  lemma {:induction false} DecodeEncode(b: Bytes)
    ensures Decode(Encode(b)) == Some(b)
    decreases |b|
  {
    if |b| == 0 {
    } else if |b| < 3 {
      DecodeEncodeShort(b);
    } else {
      DecodeEncode(b[3..]);
      DecodeEncodeStep(b);
    }
  }

  /** Encoding is one-to-one: different bytes never share a base64 text. */
  lemma EncodeInjective(a: Bytes, b: Bytes)
    requires Encode(a) == Encode(b)
    ensures a == b
  {
    DecodeEncode(a);
    DecodeEncode(b);
  }

  /** Every character of the base64 text is a letter of the alphabet or padding. */
  lemma {:induction false} EncodeLetters(b: Bytes)
    ensures forall i :: 0 <= i < |Encode(b)| ==> IsAlphabetChar(Encode(b)[i]) || Encode(b)[i] == '='
    decreases |b|
  {
    if |b| >= 3 {
      EncodeLetters(b[3..]);
      var g := EncodeGroup(b[0], b[1], b[2]);
      assert Encode(b) == g + Encode(b[3..]);
      forall i | 0 <= i < |Encode(b)|
        ensures IsAlphabetChar(Encode(b)[i]) || Encode(b)[i] == '='
      {
        if i >= 4 { assert Encode(b)[i] == Encode(b[3..])[i - 4]; }
      }
    }
  }
}
