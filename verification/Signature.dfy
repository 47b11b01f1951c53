// The request signature header: printing it, and verifying one that was received.  HMAC-SHA256
// itself is a parameter that yields 32 bytes.

module Signature {
  import opened Words
  import opened Text
  import Hex

  type Digest = b: seq<u8> | |b| == 32 witness seq(32, _ => 0)

  // HMAC of a body under a key.
  type Mac = (seq<u8>, string) -> Digest

  const PREFIX := "sha256="
  const HEX_LEN: nat := 64
  const SIGNATURE_HEADER := "X-Anchor-Signature"

  // ----- UTF-8 -----

  function Utf8Char(c: char): (b: seq<u8>)
    ensures IsAscii(c) ==> b == [c as int]
    ensures !IsAscii(c) ==> |b| >= 2 && forall x <- b :: x >= 0x80
    ensures |b| == Utf8CharLen(c)
  {
    var v := c as int;
    if v < 0x80 then [v]
    else if v < 0x800 then [0xC0 + v / 0x40, 0x80 + v % 0x40]
    else if v < 0x10000 then [0xE0 + v / 0x1000, 0x80 + v / 0x40 % 0x40, 0x80 + v % 0x40]
    else [0xF0 + v / 0x40000, 0x80 + v / 0x1000 % 0x40, 0x80 + v / 0x40 % 0x40, 0x80 + v % 0x40]
  }

  function Utf8(s: string): seq<u8> {
    if s == "" then [] else Utf8Char(s[0]) + Utf8(s[1..])
  }

  // A byte that continues a multi-byte character; a string cannot be cut before it.
  predicate Continuation(b: u8) { 0x80 <= b < 0xC0 }

  lemma {:induction false} Utf8Ascii(s: string)
    requires AllAscii(s)
    ensures |Utf8(s)| == |s| && forall i :: 0 <= i < |s| ==> Utf8(s)[i] == s[i] as int
  {
    if s != "" {
      Utf8Ascii(s[1..]);
    }
  }

  // Bytes below 0x80 spell the string out.
  lemma {:induction false} AsciiBytesAsciiString(s: string)
    requires forall b <- Utf8(s) :: b < 0x80
    ensures AllAscii(s)
  {
    if s != "" {
      assert Utf8(s) == Utf8Char(s[0]) + Utf8(s[1..]);
      assert forall b <- Utf8Char(s[0]) :: b in Utf8(s);
      assert Utf8Char(s[0])[0] in Utf8Char(s[0]);
      assert forall b <- Utf8(s[1..]) :: b in Utf8(s);
      AsciiBytesAsciiString(s[1..]);
      assert s == [s[0]] + s[1..];
      assert IsAscii(s[0]);
    }
  }

  // ----- printing -----

  function SignatureValue(mac: Mac, key: seq<u8>, body: string): string {
    PREFIX + Hex.Print(mac(key, body))
  }

  // ----- verifying -----

  // What the verifier accepts, on the characters of the trimmed header.
  ghost predicate AcceptsTrimmed(v: string, expected: Digest) {
    && |v| == |PREFIX| + HEX_LEN
    && SameText(v[..|PREFIX|], "sha256=")
    && Hex.AllHex(v[|PREFIX|..])
    && Hex.Decode(v[|PREFIX|..]) == expected
  }

  // The header is accepted exactly when, trimmed, it is the scheme in any case followed by 64
  // hex digits of either case that decode to the expected digest.
  ghost predicate Accepts(header: string, expected: Digest) {
    AcceptsTrimmed(Trim(header), expected)
  }

  // ----- bits -----

  // Bitwise combination of the low `bits` bits.
  function Xor(a: nat, b: nat, bits: nat): nat {
    if bits == 0 then 0 else 2 * Xor(a / 2, b / 2, bits - 1) + (a + b) % 2
  }

  function Or(a: nat, b: nat, bits: nat): nat {
    if bits == 0 then 0 else 2 * Or(a / 2, b / 2, bits - 1) + Max(a % 2, b % 2)
  }

  function Pow2(bits: nat): (p: nat)
    ensures p > 0
  {
    if bits == 0 then 1 else 2 * Pow2(bits - 1)
  }

  lemma Halves(a: nat, b: nat)
    ensures a == b <==> a / 2 == b / 2 && a % 2 == b % 2
    ensures (a + b) % 2 == 0 <==> a % 2 == b % 2
  {
    assert a == 2 * (a / 2) + a % 2 && b == 2 * (b / 2) + b % 2;
    var sum := a % 2 + b % 2;
    assert a + b == 2 * (a / 2 + b / 2) + sum;
  }

  lemma {:induction false} XorZeroIffEqual(a: nat, b: nat, bits: nat)
    requires a < Pow2(bits) && b < Pow2(bits)
    ensures Xor(a, b, bits) == 0 <==> a == b
    ensures Xor(a, b, bits) < Pow2(bits)
  {
    if bits > 0 {
      XorZeroIffEqual(a / 2, b / 2, bits - 1);
      Halves(a, b);
    }
  }

  lemma {:induction false} OrZeroIffBothZero(a: nat, b: nat, bits: nat)
    requires a < Pow2(bits) && b < Pow2(bits)
    ensures Or(a, b, bits) == 0 <==> a == 0 && b == 0
    ensures Or(a, b, bits) < Pow2(bits)
  {
    if bits > 0 {
      OrZeroIffBothZero(a / 2, b / 2, bits - 1);
    }
  }

  lemma ByteRange(n: nat)
    ensures n < 256 <==> n < Pow2(8)
  {
    assert Pow2(4) == 16;
    assert Pow2(8) == 2 * (2 * (2 * (2 * Pow2(4))));
  }

  // The exclusive-or of corresponding bytes, or-ed together.
  function XorFold(a: seq<u8>, b: seq<u8>): nat
    requires |a| == |b|
  {
    if a == [] then 0 else
      Or(XorFold(a[..|a| - 1], b[..|b| - 1]), Xor(a[|a| - 1], b[|b| - 1], 8), 8)
  }

  // The fold is zero exactly when the two sequences agree.
  lemma {:induction false} XorFoldZeroIffEqual(a: seq<u8>, b: seq<u8>)
    requires |a| == |b|
    ensures XorFold(a, b) == 0 <==> a == b
    ensures XorFold(a, b) < Pow2(8)
  {
    ByteRange(0);
    if a != [] {
      var x, y, u, v := a[..|a| - 1], b[..|b| - 1], a[|a| - 1], b[|b| - 1];
      XorFoldZeroIffEqual(x, y);
      ByteRange(u);
      ByteRange(v);
      XorZeroIffEqual(u, v, 8);
      OrZeroIffBothZero(XorFold(x, y), Xor(u, v, 8), 8);
      assert a == x + [u] && b == y + [v];
    }
  }

  // ----- the verifier -----

  // Each byte as the character of the same number.
  function Chars(bytes: seq<u8>): (s: string)
    ensures |s| == |bytes|
  {
    seq(|bytes|, i requires 0 <= i < |bytes| => bytes[i] as char)
  }

  // What the verifier accepts, on the bytes of the trimmed header.
  ghost predicate AcceptsBytes(v: seq<u8>, expected: Digest) {
    && |v| == |PREFIX| + HEX_LEN
    && !Continuation(v[|PREFIX|])
    && SameText(Chars(v[..|PREFIX|]), PREFIX)
    && Hex.AllHex(Chars(v[|PREFIX|..]))
    && Hex.Decode(Chars(v[|PREFIX|..])) == expected
  }

  method VerifyOutboundSignature(mac: Mac, body: string, header: string, key: seq<u8>) returns (ok: bool)
    ensures ok <==> Accepts(header, mac(key, body))
  {
    var value := Trim(header);
    BytesAgree(value, mac(key, body));
    ok := VerifyBytes(Utf8(value), mac(key, body));
  }

  method VerifyBytes(value: seq<u8>, expected: Digest) returns (ok: bool)
    ensures ok <==> AcceptsBytes(value, expected)
  {
    if |value| != |PREFIX| + HEX_LEN {
      return false;
    }
    if Continuation(value[|PREFIX|]) {
      return false;
    }
    EqIgnoreCaseIff(Chars(value[..|PREFIX|]), PREFIX);
    if !EqIgnoreCase(Chars(value[..|PREFIX|]), PREFIX) {
      return false;
    }
    var received := ReadDigest(Chars(value[|PREFIX|..]));
    if received.None? {
      return false;
    }
    var diff := Difference(received.value, expected);
    XorFoldZeroIffEqual(received.value, expected);
    return diff == 0;
  }

  // Fill the digest byte by byte, stopping at the first pair that is not two hex digits.
  method ReadDigest(hex: string) returns (r: Option<Digest>)
    requires |hex| == HEX_LEN
    ensures r.Some? <==> Hex.AllHex(hex)
    ensures r.Some? ==> r.value == Hex.Decode(hex)
  {
    var received := new u8[32];
    for i := 0 to 32
      invariant forall j :: 0 <= j < 2 * i ==> Hex.IsHex(hex[j])
      invariant forall j :: 0 <= j < i ==>
        received[j] == Hex.NibbleOf(hex[2 * j]).value * 16 + Hex.NibbleOf(hex[2 * j + 1]).value
    {
      var hi, lo := Hex.NibbleOf(hex[2 * i]), Hex.NibbleOf(hex[2 * i + 1]);
      if hi.None? || lo.None? {
        return None;
      }
      received[i] := hi.value * 16 + lo.value;
    }
    return Some(received[..]);
  }

  // The constant-time comparison.
  method Difference(a: Digest, b: Digest) returns (diff: nat)
    ensures diff == XorFold(a, b)
  {
    diff := 0;
    for i := 0 to 32
      invariant diff == XorFold(a[..i], b[..i])
    {
      assert a[..i + 1][..i] == a[..i] && b[..i + 1][..i] == b[..i];
      diff := Or(diff, Xor(a[i], b[i], 8), 8);
    }
    assert a[..32] == a && b[..32] == b;
  }

  lemma AsciiBytesAgree(v: string, expected: Digest)
    requires AllAscii(v)
    ensures AcceptsBytes(Utf8(v), expected) <==> AcceptsTrimmed(v, expected)
  {
    Utf8Ascii(v);
    if |v| == |PREFIX| + HEX_LEN {
      var bytes := Utf8(v);
      assert IsAscii(v[|PREFIX|]);
      assert Chars(bytes[..|PREFIX|]) == v[..|PREFIX|];
      assert Chars(bytes[|PREFIX|..]) == v[|PREFIX|..];
    }
  }

  // Working on bytes is working on characters: a header with any other byte is refused by both.
  lemma BytesAgree(v: string, expected: Digest)
    ensures AcceptsBytes(Utf8(v), expected) <==> AcceptsTrimmed(v, expected)
  {
    if AllAscii(v) {
      AsciiBytesAgree(v, expected);
    } else if AcceptsBytes(Utf8(v), expected) {
      AcceptedBytesAscii(Utf8(v), expected);
      AsciiBytesAsciiString(v);
    } else if AcceptsTrimmed(v, expected) {
      AcceptedAscii(v, expected);
    }
  }

  lemma AcceptedAscii(v: string, expected: Digest)
    requires AcceptsTrimmed(v, expected)
    ensures AllAscii(v)
  {
    PrefixAscii(v[..|PREFIX|]);
    HexAscii(v[|PREFIX|..]);
    assert v == v[..|PREFIX|] + v[|PREFIX|..];
  }

  lemma PrefixAscii(p: string)
    requires SameText(p, PREFIX)
    ensures AllAscii(p)
  {
    forall i | 0 <= i < |p| ensures IsAscii(p[i]) {
      assert SameLetter(p[i], PREFIX[i]);
    }
  }

  lemma HexAscii(h: string)
    requires Hex.AllHex(h)
    ensures AllAscii(h)
  {
  }

  lemma AcceptedBytesAscii(v: seq<u8>, expected: Digest)
    requires AcceptsBytes(v, expected)
    ensures forall b <- v :: b < 0x80
  {
    var p, h := Chars(v[..|PREFIX|]), Chars(v[|PREFIX|..]);
    PrefixAscii(p);
    HexAscii(h);
    forall i | 0 <= i < |v| ensures v[i] < 0x80 {
      if i < |PREFIX| {
        assert p[i] in p;
      } else {
        assert h[i - |PREFIX|] in h;
      }
    }
  }

  // ----- what is printed is accepted -----

  lemma DecodeIgnoresCase(digits: string, other: string)
    requires SameText(digits, other) && Hex.AllHex(digits) && |digits| % 2 == 0
    ensures |other| == |digits| && Hex.AllHex(other) && Hex.Decode(other) == Hex.Decode(digits)
  {
    forall i | 0 <= i < |digits| ensures Hex.NibbleOf(other[i]) == Hex.NibbleOf(digits[i]) && Hex.IsHex(other[i]) {
      assert SameLetter(digits[i], other[i]);
      assert Hex.IsHex(digits[i]);
    }
  }

  // The signature value that is printed is accepted, in any case of the scheme and the digits
  // and with any whitespace around it.
  lemma PrintedIsAccepted(mac: Mac, key: seq<u8>, body: string, before: string, value: string, after: string)
    requires SameText(value, SignatureValue(mac, key, body))
    requires forall c <- before + after :: IsWhitespace(c)
    ensures Accepts(before + value + after, mac(key, body))
  {
    var hex := Hex.Print(mac(key, body));
    var printed := PREFIX + hex;
    Hex.DecodePrint(mac(key, body));
    var scheme, digits := value[..|PREFIX|], value[|PREFIX|..];
    forall i | 0 <= i < |PREFIX| ensures SameLetter(scheme[i], PREFIX[i]) {
      assert SameLetter(value[i], printed[i]);
    }
    forall i | 0 <= i < |hex| ensures SameLetter(hex[i], digits[i]) {
      assert SameLetter(value[|PREFIX| + i], printed[|PREFIX| + i]);
    }
    DecodeIgnoresCase(hex, digits);
    NoSpaceAround(scheme, digits);
    assert value == scheme + digits;
    TrimPadded(before, value, after);
  }

  lemma NoSpaceAround(scheme: string, digits: string)
    requires SameText(scheme, PREFIX) && Hex.AllHex(digits) && digits != ""
    ensures Trimmed(scheme + digits)
  {
    assert SameLetter(scheme[0], 's');
    assert Hex.IsHex(digits[|digits| - 1]);
  }
}
