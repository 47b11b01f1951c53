// Decimal printing of naturals and the checked parser for 32-bit counts.

module Decimal {
  import opened Words
  import opened Text

  function DigitChar(d: nat): (c: char)
    requires d < 10
    ensures IsDigit(c) && DigitOf(c) == d
  {
    ('0' as int + d) as char
  }

  function DigitOf(c: char): (d: nat)
    requires IsDigit(c)
    ensures d < 10
  {
    c as int - '0' as int
  }

  // The number a digit string denotes, read left to right after a prefix worth `acc`.
  function ValueFrom(acc: nat, s: string): (v: nat)
    requires AllDigits(s)
    ensures v >= acc
    decreases |s|
  {
    if s == "" then acc else ValueFrom(acc * 10 + DigitOf(s[0]), s[1..])
  }

  function Value(s: string): nat
    requires AllDigits(s)
  {
    ValueFrom(0, s)
  }

  // The number a digit string denotes, by positions: ten times what precedes the last digit.
  function Number(s: string): int {
    if s == "" then 0 else Number(s[..|s| - 1]) * 10 + (s[|s| - 1] as int - '0' as int)
  }

  lemma {:induction false} ValueIsNumber(s: string)
    requires AllDigits(s)
    ensures Value(s) == Number(s)
  {
    if s != "" {
      var front, last := s[..|s| - 1], s[|s| - 1];
      assert s == front + [last];
      ValueIsNumber(front);
      ValueSnoc(0, front, last);
    }
  }

  lemma {:induction false} ValueSnoc(acc: nat, s: string, c: char)
    requires AllDigits(s) && IsDigit(c)
    ensures AllDigits(s + [c]) && ValueFrom(acc, s + [c]) == ValueFrom(acc, s) * 10 + DigitOf(c)
    decreases |s|
  {
    if s != "" {
      assert (s + [c])[1..] == s[1..] + [c];
      ValueSnoc(acc * 10 + DigitOf(s[0]), s[1..], c);
    } else {
      assert s + [c] == [c];
    }
  }

  // `to_string` on an unsigned integer.
  function Print(n: nat): (s: string)
    ensures s != "" && AllDigits(s)
  {
    if n < 10 then [DigitChar(n)] else Print(n / 10) + [DigitChar(n % 10)]
  }

  lemma {:induction false} ValuePrint(n: nat)
    ensures Value(Print(n)) == n
  {
    if n >= 10 {
      ValuePrint(n / 10);
      ValueSnoc(0, Print(n / 10), DigitChar(n % 10));
    } else {
      assert Print(n)[1..] == "" && ValueFrom(n, "") == n;
    }
  }

  // `parse::<u32>`: an optional plus sign, then at least one digit, with overflow checked at
  // every digit.
  function ParseU32(s: string): Option<u32> {
    if s == "" then None
    else if s[0] == '+' then (if |s| == 1 then None else ParseDigits(0, s[1..]))
    else ParseDigits(0, s)
  }

  function ParseDigits(acc: u32, s: string): Option<u32>
    decreases |s|
  {
    if s == "" then Some(acc)
    else if !IsDigit(s[0]) then None
    else
      var next := acc * 10 + DigitOf(s[0]);
      if next > U32_MAX then None else ParseDigits(next, s[1..])
  }

  // Digit-by-digit checking agrees with parsing exactly and testing the bound once.
  lemma {:induction false} ParseDigitsIsBoundedValue(acc: u32, s: string)
    ensures ParseDigits(acc, s) ==
            if AllDigits(s) && ValueFrom(acc, s) <= U32_MAX then Some(ValueFrom(acc, s)) else None
    decreases |s|
  {
    if s != "" && IsDigit(s[0]) {
      assert AllDigits(s) <==> AllDigits(s[1..]) by {
        assert s == [s[0]] + s[1..];
      }
      var next := acc * 10 + DigitOf(s[0]);
      if next <= U32_MAX {
        ParseDigitsIsBoundedValue(next, s[1..]);
      }
    }
  }

  lemma ParsePrint(n: u32)
    ensures ParseU32(Print(n)) == Some(n)
  {
    ValuePrint(n);
    assert IsDigit(Print(n)[0]);
    ParseDigitsIsBoundedValue(0, Print(n));
  }

  // What is printed denotes the number, in digits, without a leading zero unless it is zero.
  lemma {:induction false} PrintDenotes(n: nat)
    ensures (forall c <- Print(n) :: '0' <= c <= '9') && Number(Print(n)) == n
    ensures Print(n)[0] == '0' ==> n == 0
  {
    assert forall c <- Print(n) :: IsDigit(c);
    ValuePrint(n);
    ValueIsNumber(Print(n));
    if n >= 10 {
      PrintDenotes(n / 10);
    }
  }

  // One or more digits, after an optional plus sign, worth n.
  ghost predicate Denotes(s: string, n: nat) {
    var digits := if s != "" && s[0] == '+' then s[1..] else s;
    digits != "" && (forall c <- digits :: '0' <= c <= '9') && Number(digits) == n
  }

  // A text is read as a count exactly when it denotes one of at most 32 bits.
  lemma ParseU32Iff(s: string, n: nat)
    ensures n <= U32_MAX ==> (ParseU32(s) == Some(n) <==> Denotes(s, n))
    ensures n > U32_MAX && Denotes(s, n) ==> ParseU32(s) == None
    ensures ParseU32(s).Some? ==> Denotes(s, ParseU32(s).value)
  {
    var digits := if s != "" && s[0] == '+' then s[1..] else s;
    ParseDigitsIsBoundedValue(0, digits);
    if AllDigits(digits) {
      ValueIsNumber(digits);
    }
    assert (forall c <- digits :: '0' <= c <= '9') <==> AllDigits(digits);
  }
}
