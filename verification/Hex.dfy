// Two-digit lowercase hexadecimal printing of bytes and case-tolerant digit reading.

module Hex {
  import opened Words
  import opened Text

  // `{:02x}` and `hex_nibble` for one half of a byte.
  function NibbleChar(v: nat): (c: char)
    requires v < 16
    ensures IsLowerHex(c) && NibbleOf(c) == Some(v)
  {
    if v < 10 then ('0' as int + v) as char else ('a' as int + v - 10) as char
  }

  predicate IsLowerHex(c: char) { IsDigit(c) || 'a' <= c <= 'f' }

  predicate IsHex(c: char) { IsLowerHex(c) || 'A' <= c <= 'F' }

  // `to_digit(16)`.
  function NibbleOf(c: char): (r: Option<nat>)
    ensures r.Some? ==> r.value < 16
    ensures r.Some? <==> IsHex(c)
  {
    if IsDigit(c) then Some(c as int - '0' as int)
    else if 'a' <= c <= 'f' then Some(c as int - 'a' as int + 10)
    else if 'A' <= c <= 'F' then Some(c as int - 'A' as int + 10)
    else None
  }

  // The sixteen digits, in order and in both cases.
  lemma DigitsAre(v: nat)
    requires v < 16
    ensures NibbleChar(v) == "0123456789abcdef"[v]
    ensures NibbleOf("0123456789abcdef"[v]) == NibbleOf("0123456789ABCDEF"[v]) == Some(v)
  {
  }

  lemma HexDigitIff(c: char)
    ensures IsLowerHex(c) <==> c in "0123456789abcdef"
    ensures IsHex(c) <==> c in "0123456789abcdef" || c in "0123456789ABCDEF"
  {
    var lower, upper := "0123456789abcdef", "0123456789ABCDEF";
    if IsDigit(c) {
      assert lower[c as int - '0' as int] == c;
    } else if 'a' <= c <= 'f' {
      assert lower[c as int - 'a' as int + 10] == c;
    } else if 'A' <= c <= 'F' {
      assert upper[c as int - 'A' as int + 10] == c;
    }
  }

  // Printing folds over the bytes, high half first.
  function Print(bytes: seq<u8>): (s: string)
    ensures |s| == 2 * |bytes|
    ensures forall c <- s :: IsLowerHex(c)
  {
    if bytes == [] then ""
    else
      var b := bytes[|bytes| - 1];
      Print(bytes[..|bytes| - 1]) + [NibbleChar(b / 16), NibbleChar(b % 16)]
  }

  predicate AllHex(s: string) { forall c <- s :: IsHex(c) }

  // What 2n hex digits of either case denote.
  function Decode(s: string): (bytes: seq<u8>)
    requires |s| % 2 == 0 && AllHex(s)
    ensures |bytes| == |s| / 2
  {
    seq(|s| / 2, i requires 0 <= i < |s| / 2 => NibbleOf(s[2 * i]).value * 16 + NibbleOf(s[2 * i + 1]).value)
  }

  lemma {:induction false} PrintAt(bytes: seq<u8>, i: nat)
    requires i < |bytes|
    ensures Print(bytes)[2 * i] == NibbleChar(bytes[i] / 16)
    ensures Print(bytes)[2 * i + 1] == NibbleChar(bytes[i] % 16)
  {
    if i < |bytes| - 1 {
      PrintAt(bytes[..|bytes| - 1], i);
    }
  }

  lemma DecodePrint(bytes: seq<u8>)
    ensures AllHex(Print(bytes)) && Decode(Print(bytes)) == bytes
  {
    var s := Print(bytes);
    forall i | 0 <= i < |bytes| ensures Decode(s)[i] == bytes[i] {
      PrintAt(bytes, i);
    }
  }

  // Each byte is two digits, the high half first.
  lemma PrintDigits(bytes: seq<u8>, i: nat)
    requires i < |bytes|
    ensures Print(bytes)[2 * i] == "0123456789abcdef"[bytes[i] / 16]
    ensures Print(bytes)[2 * i + 1] == "0123456789abcdef"[bytes[i] % 16]
  {
    PrintAt(bytes, i);
    DigitsAre(bytes[i] / 16);
    DigitsAre(bytes[i] % 16);
  }

  // The digits for a and b, in either case, are the byte 16 a + b.
  lemma DecodeDigits(s: string, i: nat, a: nat, b: nat)
    requires |s| % 2 == 0 && AllHex(s) && 2 * i + 1 < |s| && a < 16 && b < 16
    requires s[2 * i] == "0123456789abcdef"[a] || s[2 * i] == "0123456789ABCDEF"[a]
    requires s[2 * i + 1] == "0123456789abcdef"[b] || s[2 * i + 1] == "0123456789ABCDEF"[b]
    ensures Decode(s)[i] == 16 * a + b
  {
    DigitsAre(a);
    DigitsAre(b);
  }
}
