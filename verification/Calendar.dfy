// Seconds since the Unix epoch as a UTC calendar date and time.

module Calendar {
  import opened Words
  import opened Text
  import Decimal

  predicate IsLeap(y: nat) {
    (y % 4 == 0 && y % 100 != 0) || y % 400 == 0
  }

  function YearLength(y: nat): nat {
    if IsLeap(y) then 366 else 365
  }

  function MonthDays(leap: bool): (lengths: seq<nat>)
    ensures |lengths| == 12
  {
    [31, if leap then 29 else 28, 31, 30, 31, 30, 31, 31, 30, 31, 30, 31]
  }

  // ----- the closed form -----

  // Days of the proleptic Gregorian calendar before January 1 of year y.
  function DaysBeforeYear(y: nat): int
    requires y >= 1
  {
    var n := y - 1;
    365 * n + n / 4 - n / 100 + n / 400
  }

  // Days of the year before the first of month m.
  function DaysBeforeMonth(m: int, leap: bool): int
    requires 1 <= m <= 13
  {
    (367 * m - 362) / 12 - (if m <= 2 then 0 else if leap then 1 else 2)
  }

  const EPOCH := DaysBeforeYear(1970)

  predicate ValidDate(y: nat, m: nat, d: nat) {
    y >= 1970 && 1 <= m <= 12 && 1 <= d <= MonthDays(IsLeap(y))[m - 1]
  }

  // Days from 1970-01-01 to the given date.
  function DayNumber(y: nat, m: nat, d: nat): int
    requires ValidDate(y, m, d)
  {
    DaysBeforeYear(y) - EPOCH + DaysBeforeMonth(m, IsLeap(y)) + d - 1
  }

  // A quotient and a remainder determine a division.
  lemma Divides(n: nat, k: nat, q: nat, r: nat)
    requires k > 0 && r < k && n == q * k + r
    ensures n / k == q && n % k == r
  {
    var d := n / k - q;
    assert n == n / k * k + n % k;
    assert d * k == r - n % k;
    assert d >= 1 ==> d * k >= k;
    assert d <= -1 ==> d * k + k <= 0;
  }

  // Stepping to a multiple of k, and nothing else, raises the quotient.
  lemma QuotientStep(y: nat, k: nat)
    requires y >= 1 && k > 0
    ensures y / k == (y - 1) / k + if y % k == 0 then 1 else 0
  {
    var q, r := y / k, y % k;
    assert y == q * k + r;
    if r == 0 {
      assert (q - 1) * k == q * k - k;
      assert q >= 1;
      Divides(y - 1, k, q - 1, k - 1);
    } else {
      Divides(y - 1, k, q, r - 1);
    }
  }

  lemma MultipleOfMultiple(y: nat, k: nat, c: nat)
    requires k > 0 && c > 0 && c * k > 0 && y % (c * k) == 0
    ensures y % k == 0
  {
    var q := y / (c * k);
    assert y == q * (c * k) == (q * c) * k;
    Divides(y, k, q * c, 0);
  }

  lemma YearStep(y: nat)
    requires y >= 1
    ensures DaysBeforeYear(y + 1) == DaysBeforeYear(y) + YearLength(y)
  {
    QuotientStep(y, 4);
    QuotientStep(y, 100);
    QuotientStep(y, 400);
    if y % 100 == 0 {
      MultipleOfMultiple(y, 4, 25);
    }
    if y % 400 == 0 {
      MultipleOfMultiple(y, 100, 4);
    }
  }

  lemma MonthStep(m: nat, leap: bool)
    requires 1 <= m <= 12
    ensures DaysBeforeMonth(m + 1, leap) == DaysBeforeMonth(m, leap) + MonthDays(leap)[m - 1]
  {
  }

  // ----- the conversion loops -----

  method DaysToYmd(days: u64) returns (y: u64, m: nat, d: nat)
    ensures ValidDate(y, m, d) && DayNumber(y, m, d) == days
    ensures 365 * (y - 1970) <= days
  {
    var left: int := days;
    y := 1970;
    while left >= YearLength(y)
      invariant y >= 1970 && left >= 0
      invariant DaysBeforeYear(y) - EPOCH + left == days
      invariant 365 * (y - 1970) + left <= days
      decreases left
    {
      YearStep(y);
      left := left - YearLength(y);
      y := y + 1;
    }
    var lengths := MonthDays(IsLeap(y));
    m := 1;
    while m <= 12 && left >= lengths[m - 1]
      invariant 1 <= m <= 13 && left >= 0
      invariant DaysBeforeYear(y) - EPOCH + DaysBeforeMonth(m, IsLeap(y)) + left == days
      invariant DaysBeforeMonth(m, IsLeap(y)) + left < YearLength(y)
      decreases 13 - m
    {
      MonthStep(m, IsLeap(y));
      left := left - lengths[m - 1];
      m := m + 1;
    }
    d := left + 1;
  }

  // ----- time of day -----

  datatype Civil = Civil(year: nat, month: nat, day: nat, hour: nat, minute: nat, second: nat)

  predicate Valid(c: Civil) {
    ValidDate(c.year, c.month, c.day) && c.hour < 24 && c.minute < 60 && c.second < 60
  }

  function Seconds(c: Civil): int
    requires Valid(c)
  {
    ((DayNumber(c.year, c.month, c.day) * 24 + c.hour) * 60 + c.minute) * 60 + c.second
  }

  // The fields are in calendar range and recompose to the original count.
  method ToCivil(secs: u64) returns (c: Civil)
    ensures Valid(c) && Seconds(c) == secs
  {
    var ss := secs % 60;
    var m := secs / 60;
    var mm := m % 60;
    var h := m / 60;
    var hh := h % 24;
    var days := h / 24;
    var y, mo, d := DaysToYmd(days);
    c := Civil(y, mo, d, hh, mm, ss);
  }

  // ----- order -----

  predicate Earlier(a: Civil, b: Civil) {
    || a.year < b.year
    || (a.year == b.year && (a.month < b.month
    || (a.month == b.month && (a.day < b.day
    || (a.day == b.day && (a.hour < b.hour
    || (a.hour == b.hour && (a.minute < b.minute
    || (a.minute == b.minute && a.second < b.second)))))))))
  }

  lemma {:induction false} YearsAscend(a: nat, b: nat)
    requires 1 <= a < b
    ensures DaysBeforeYear(a) + YearLength(a) <= DaysBeforeYear(b)
    decreases b
  {
    YearStep(b - 1);
    if a < b - 1 {
      YearsAscend(a, b - 1);
    }
  }

  lemma {:induction false} MonthsAscend(a: nat, b: nat, leap: bool)
    requires 1 <= a < b <= 13
    ensures DaysBeforeMonth(a, leap) + MonthDays(leap)[a - 1] <= DaysBeforeMonth(b, leap)
    decreases b
  {
    MonthStep(b - 1, leap);
    if a < b - 1 {
      MonthsAscend(a, b - 1, leap);
    }
  }

  lemma DateWithinYear(y: nat, m: nat, d: nat)
    requires ValidDate(y, m, d)
    ensures DaysBeforeYear(y) - EPOCH <= DayNumber(y, m, d) < DaysBeforeYear(y) - EPOCH + YearLength(y)
  {
    MonthsAscend(m, 13, IsLeap(y));
    if m > 1 {
      MonthsAscend(1, m, IsLeap(y));
    }
  }

  lemma LaterDateLaterDay(y1: nat, m1: nat, d1: nat, y2: nat, m2: nat, d2: nat)
    requires ValidDate(y1, m1, d1) && ValidDate(y2, m2, d2)
    requires y1 < y2 || (y1 == y2 && (m1 < m2 || (m1 == m2 && d1 < d2)))
    ensures DayNumber(y1, m1, d1) < DayNumber(y2, m2, d2)
  {
    if y1 < y2 {
      DateWithinYear(y1, m1, d1);
      DateWithinYear(y2, m2, d2);
      YearsAscend(y1, y2);
    } else if m1 < m2 {
      MonthsAscend(m1, m2, IsLeap(y1));
    }
  }

  lemma EarlierFewerSeconds(a: Civil, b: Civil)
    requires Valid(a) && Valid(b) && Earlier(a, b)
    ensures Seconds(a) < Seconds(b)
  {
    if !(a.year == b.year && a.month == b.month && a.day == b.day) {
      LaterDateLaterDay(a.year, a.month, a.day, b.year, b.month, b.day);
    }
  }

  // Calendar order is the order of the counts, so the conversion is injective and strictly
  // order-preserving, for every count.
  lemma OrderPreserved(a: Civil, b: Civil)
    requires Valid(a) && Valid(b)
    ensures Seconds(a) < Seconds(b) <==> Earlier(a, b)
    ensures Seconds(a) == Seconds(b) <==> a == b
  {
    if Earlier(a, b) {
      EarlierFewerSeconds(a, b);
    } else if Earlier(b, a) {
      EarlierFewerSeconds(b, a);
    }
  }

  // ----- the printed form -----

  function Zeros(n: nat): (s: string)
    ensures |s| == n && AllDigits(s)
  {
    if n == 0 then "" else "0" + Zeros(n - 1)
  }

  // At least `width` digits, zero-padded on the left.
  function Pad(n: nat, width: nat): (s: string)
    ensures AllDigits(s)
  {
    var digits := Decimal.Print(n);
    if |digits| >= width then digits else Zeros(width - |digits|) + digits
  }

  function Render(c: Civil): string {
    Pad(c.year, 4) + "-" + (Pad(c.month, 2) + "-" + (Pad(c.day, 2) + "T"
      + (Pad(c.hour, 2) + ":" + (Pad(c.minute, 2) + ":" + (Pad(c.second, 2) + "Z")))))
  }

  lemma {:induction false} ZerosAddNothing(n: nat, s: string)
    requires AllDigits(s)
    ensures Decimal.Value(Zeros(n) + s) == Decimal.Value(s)
  {
    if n == 0 {
      assert Zeros(0) + s == s;
    } else {
      assert (Zeros(n) + s)[1..] == Zeros(n - 1) + s;
      ZerosAddNothing(n - 1, s);
    }
  }

  lemma PadKeepsValue(n: nat, width: nat)
    ensures Decimal.Value(Pad(n, width)) == n
  {
    Decimal.ValuePrint(n);
    var digits := Decimal.Print(n);
    if |digits| < width {
      ZerosAddNothing(width - |digits|, digits);
    }
  }

  // ----- reading the printed form by position -----

  // Digits worth n.
  predicate Field(text: string, n: nat) {
    (forall c <- text :: '0' <= c <= '9') && Decimal.Number(text) == n
  }

  // Year, month, day, hour, minute and second, in this order, all but the year in two digits and
  // the year in four or, without leading zeros, more.
  predicate Shows(text: string, c: Civil) {
    var w := |text| - 16;
    && w >= 4 && (w > 4 ==> text[0] != '0')
    && Field(text[..w], c.year) && text[w] == '-'
    && Field(text[w + 1..w + 3], c.month) && text[w + 3] == '-'
    && Field(text[w + 4..w + 6], c.day) && text[w + 6] == 'T'
    && Field(text[w + 7..w + 9], c.hour) && text[w + 9] == ':'
    && Field(text[w + 10..w + 12], c.minute) && text[w + 12] == ':'
    && Field(text[w + 13..w + 15], c.second) && text[w + 15] == 'Z'
  }

  lemma PadIsField(n: nat, width: nat)
    ensures Field(Pad(n, width), n)
  {
    PadKeepsValue(n, width);
    assert forall c <- Pad(n, width) :: IsDigit(c);
    Decimal.ValueIsNumber(Pad(n, width));
  }

  lemma PadTwo(n: nat)
    requires n < 100
    ensures |Pad(n, 2)| == 2
  {
    assert n >= 10 ==> Decimal.Print(n / 10) == [Decimal.DigitChar(n / 10)];
  }

  lemma PadYear(y: nat)
    requires y >= 1970
    ensures |Pad(y, 4)| >= 4 && (|Pad(y, 4)| > 4 ==> Pad(y, 4)[0] != '0')
  {
    Decimal.PrintDenotes(y);
  }

  lemma Pieces(y: string, mo: string, d: string, h: string, mi: string, s: string)
    requires |mo| == |d| == |h| == |mi| == |s| == 2
    ensures var text := y + "-" + (mo + "-" + (d + "T" + (h + ":" + (mi + ":" + (s + "Z"))))); var w := |y|;
            && |text| == w + 16 && text[..w] == y && text[w] == '-'
            && text[w + 1..w + 3] == mo && text[w + 3] == '-' && text[w + 4..w + 6] == d && text[w + 6] == 'T'
            && text[w + 7..w + 9] == h && text[w + 9] == ':' && text[w + 10..w + 12] == mi && text[w + 12] == ':'
            && text[w + 13..w + 15] == s && text[w + 15] == 'Z'
  {
  }

  lemma RenderShows(c: Civil)
    requires Valid(c)
    ensures Shows(Render(c), c)
  {
    PadYear(c.year);
    PadIsField(c.year, 4);
    PadTwo(c.month);
    PadIsField(c.month, 2);
    PadTwo(c.day);
    PadIsField(c.day, 2);
    PadTwo(c.hour);
    PadIsField(c.hour, 2);
    PadTwo(c.minute);
    PadIsField(c.minute, 2);
    PadTwo(c.second);
    PadIsField(c.second, 2);
    Pieces(Pad(c.year, 4), Pad(c.month, 2), Pad(c.day, 2), Pad(c.hour, 2), Pad(c.minute, 2), Pad(c.second, 2));
    assert Render(c)[0] == Pad(c.year, 4)[0];
  }

  // The epoch is day and second zero.
  lemma EpochIsZero()
    ensures Seconds(Civil(1970, 1, 1, 0, 0, 0)) == 0
  {
  }

  method CurrentTimestamp(secs: u64) returns (text: string)
    ensures exists c: Civil :: Valid(c) && Seconds(c) == secs && Shows(text, c)
  {
    var c := ToCivil(secs);
    text := Render(c);
    RenderShows(c);
  }

  lemma FirstField(p: string, sep: string, x: string)
    requires AllDigits(p) && |sep| == 1 && !IsDigit(sep[0])
    ensures Before(p + sep + x, {sep[0]}) == p
    ensures (p + sep + x)[|p| + 1..] == x
  {
    BeforeIs(p, sep + x, {sep[0]});
    assert p + sep + x == p + (sep + x);
  }

  lemma FieldsSplit(a: nat, b: nat, width: nat, sep: string, x: string, y: string)
    requires |sep| == 1 && !IsDigit(sep[0])
    requires Pad(a, width) + sep + x == Pad(b, width) + sep + y
    ensures a == b && x == y
  {
    FirstField(Pad(a, width), sep, x);
    FirstField(Pad(b, width), sep, y);
    PadKeepsValue(a, width);
    PadKeepsValue(b, width);
  }

  // Different moments print differently, whatever their year.
  lemma RenderInjective(a: Civil, b: Civil)
    requires Render(a) == Render(b)
    ensures a == b
  {
    var sa := Pad(a.second, 2) + "Z";
    var sb := Pad(b.second, 2) + "Z";
    var ma, mb := Pad(a.minute, 2) + ":" + sa, Pad(b.minute, 2) + ":" + sb;
    var ha, hb := Pad(a.hour, 2) + ":" + ma, Pad(b.hour, 2) + ":" + mb;
    var da, db := Pad(a.day, 2) + "T" + ha, Pad(b.day, 2) + "T" + hb;
    var na, nb := Pad(a.month, 2) + "-" + da, Pad(b.month, 2) + "-" + db;
    FieldsSplit(a.year, b.year, 4, "-", na, nb);
    FieldsSplit(a.month, b.month, 2, "-", da, db);
    FieldsSplit(a.day, b.day, 2, "T", ha, hb);
    FieldsSplit(a.hour, b.hour, 2, ":", ma, mb);
    FieldsSplit(a.minute, b.minute, 2, ":", sa, sb);
    assert sa == sa + "" && sb == sb + "";
    FieldsSplit(a.second, b.second, 2, "Z", "", "");
  }
}
