// Strings as sequences of Unicode scalar values: character classes, ASCII case folding,
// whitespace trimming, searching, splitting and joining, ordering, and UTF-8 lengths.

module Text {
  import opened Words

  // ----- character classes -----

  predicate IsDigit(c: char) { '0' <= c <= '9' }

  predicate IsAlphanumeric(c: char) {
    IsDigit(c) || 'a' <= c <= 'z' || 'A' <= c <= 'Z'
  }

  predicate IsAscii(c: char) { c as int < 0x80 }

  predicate IsAsciiControl(c: char) { c as int < 0x20 || c as int == 0x7F }

  // The characters with the Unicode White_Space property, which `str::trim` removes.
  predicate IsWhitespace(c: char) {
    var n := c as int;
    || 0x09 <= n <= 0x0D || n == 0x20 || n == 0x85 || n == 0xA0 || n == 0x1680
    || 0x2000 <= n <= 0x200A || n == 0x2028 || n == 0x2029 || n == 0x202F || n == 0x205F
    || n == 0x3000
  }

  predicate AllDigits(s: string) { forall c <- s :: IsDigit(c) }

  predicate AllAscii(s: string) { forall c <- s :: IsAscii(c) }

  // ----- ASCII case folding -----

  function LowerChar(c: char): char {
    if 'A' <= c <= 'Z' then (c as int + 32) as char else c
  }

  function UpperChar(c: char): char {
    if 'a' <= c <= 'z' then (c as int - 32) as char else c
  }

  function Lower(s: string): (r: string)
    ensures |r| == |s|
  {
    seq(|s|, i requires 0 <= i < |s| => LowerChar(s[i]))
  }

  function Upper(s: string): (r: string)
    ensures |r| == |s|
  {
    seq(|s|, i requires 0 <= i < |s| => UpperChar(s[i]))
  }

  predicate EqIgnoreCase(a: string, b: string) {
    Lower(a) == Lower(b)
  }

  // ----- what folding means -----

  // The same character, or the two cases of one ASCII letter.
  predicate SameLetter(a: char, b: char) {
    || a == b
    || ('A' <= a <= 'Z' && b as int == a as int + 32)
    || ('A' <= b <= 'Z' && a as int == b as int + 32)
  }

  // The same text up to the case of ASCII letters.
  predicate SameText(a: string, b: string) {
    |a| == |b| && forall i :: 0 <= i < |a| ==> SameLetter(a[i], b[i])
  }

  lemma EqIgnoreCaseIff(a: string, b: string)
    ensures EqIgnoreCase(a, b) <==> SameText(a, b)
  {
    if EqIgnoreCase(a, b) {
      assert |a| == |Lower(a)| == |Lower(b)| == |b|;
      forall i | 0 <= i < |a| ensures SameLetter(a[i], b[i]) {
        assert Lower(a)[i] == LowerChar(a[i]) && Lower(b)[i] == LowerChar(b[i]);
      }
    }
    if SameText(a, b) {
      assert forall i :: 0 <= i < |a| ==> Lower(a)[i] == Lower(b)[i];
    }
  }

  // Upper case is the one spelling of a text without lower-case ASCII letters.
  lemma UpperIs(s: string, t: string)
    ensures t == Upper(s) <==> SameText(t, s) && forall c <- t :: !('a' <= c <= 'z')
  {
    if SameText(t, s) && forall c <- t :: !('a' <= c <= 'z') {
      forall i | 0 <= i < |t| ensures t[i] == Upper(s)[i] {
        assert t[i] in t && SameLetter(t[i], s[i]);
      }
    }
  }

  lemma SameUpperIff(a: string, b: string)
    ensures Upper(a) == Upper(b) <==> SameText(a, b)
  {
    if Upper(a) == Upper(b) {
      assert |a| == |Upper(a)| == |Upper(b)| == |b|;
      forall i | 0 <= i < |a| ensures SameLetter(a[i], b[i]) {
        assert Upper(a)[i] == UpperChar(a[i]) && Upper(b)[i] == UpperChar(b[i]);
      }
    }
    if SameText(a, b) {
      forall i | 0 <= i < |a| ensures Upper(a)[i] == Upper(b)[i] {
        assert SameLetter(a[i], b[i]);
      }
    }
  }

  // ----- concatenation -----

  lemma Associates(a: string, b: string, c: string)
    ensures (a + b) + c == a + (b + c)
  {
  }

  lemma CutAt(s: string, i: nat)
    requires i < |s|
    ensures s == s[..i] + ([s[i]] + s[i + 1..])
    ensures s == s[..i] + [s[i]] + s[i + 1..]
  {
    assert s[i..] == [s[i]] + s[i + 1..];
    assert s == s[..i] + s[i..];
    Associates(s[..i], [s[i]], s[i + 1..]);
  }

  // ----- trimming -----

  function TrimStart(s: string): string {
    if s != "" && IsWhitespace(s[0]) then TrimStart(s[1..]) else s
  }

  function TrimEnd(s: string): string {
    if s != "" && IsWhitespace(s[|s| - 1]) then TrimEnd(s[..|s| - 1]) else s
  }

  function Trim(s: string): string {
    TrimEnd(TrimStart(s))
  }

  predicate Trimmed(s: string) {
    s == "" || (!IsWhitespace(s[0]) && !IsWhitespace(s[|s| - 1]))
  }

  lemma TrimIsTrimmed(s: string)
    ensures Trimmed(Trim(s))
  {
    TrimStartHead(s);
    TrimEndHead(TrimStart(s));
  }

  lemma TrimOfTrimmed(s: string)
    requires Trimmed(s)
    ensures Trim(s) == s
  {
  }

  lemma {:induction false} TrimStartHead(s: string)
    ensures TrimStart(s) == "" || !IsWhitespace(TrimStart(s)[0])
  {
    if s != "" && IsWhitespace(s[0]) {
      TrimStartHead(s[1..]);
    }
  }

  lemma {:induction false} TrimEndHead(s: string)
    ensures TrimEnd(s) == "" || (TrimEnd(s)[0] == s[0] && !IsWhitespace(TrimEnd(s)[|TrimEnd(s)| - 1]))
  {
    if s != "" && IsWhitespace(s[|s| - 1]) {
      TrimEndHead(s[..|s| - 1]);
    }
  }

  // Trimming keeps a stretch of the string and drops only whitespace around it.
  lemma TrimParts(s: string) returns (before: string, after: string)
    ensures s == before + Trim(s) + after
    ensures forall c <- before + after :: IsWhitespace(c)
  {
    before := DroppedStart(s);
    after := DroppedEnd(TrimStart(s));
  }

  lemma {:induction false} DroppedStart(s: string) returns (before: string)
    ensures s == before + TrimStart(s) && forall c <- before :: IsWhitespace(c)
  {
    before := "";
    if s != "" && IsWhitespace(s[0]) {
      var more := DroppedStart(s[1..]);
      before := [s[0]] + more;
      assert s == [s[0]] + s[1..];
      assert before + TrimStart(s) == [s[0]] + (more + TrimStart(s));
    }
  }

  lemma {:induction false} DroppedEnd(s: string) returns (after: string)
    ensures s == TrimEnd(s) + after && forall c <- after :: IsWhitespace(c)
  {
    after := "";
    if s != "" && IsWhitespace(s[|s| - 1]) {
      var more := DroppedEnd(s[..|s| - 1]);
      after := more + [s[|s| - 1]];
      assert s == s[..|s| - 1] + [s[|s| - 1]];
      assert TrimEnd(s) + after == (TrimEnd(s) + more) + [s[|s| - 1]];
    }
  }

  lemma {:induction false} TrimStartPadding(pad: string, s: string)
    requires forall c <- pad :: IsWhitespace(c)
    ensures TrimStart(pad + s) == TrimStart(s)
  {
    if pad == "" {
      assert pad + s == s;
    } else {
      assert (pad + s)[1..] == pad[1..] + s;
      TrimStartPadding(pad[1..], s);
    }
  }

  lemma {:induction false} TrimEndPadding(s: string, pad: string)
    requires forall c <- pad :: IsWhitespace(c)
    ensures TrimEnd(s + pad) == TrimEnd(s)
  {
    if pad == "" {
      assert s + pad == s;
    } else {
      var front := pad[..|pad| - 1];
      assert (s + pad)[..|s + pad| - 1] == s + front;
      TrimEndPadding(s, front);
    }
  }

  // Trimming stops at the first character it keeps, and otherwise goes on behind the string.
  lemma {:induction false} TrimStartConcat(s: string, after: string)
    ensures TrimStart(s + after) == if TrimStart(s) == "" then TrimStart(after) else TrimStart(s) + after
  {
    if s == "" {
      assert s + after == after;
    } else if IsWhitespace(s[0]) {
      assert (s + after)[1..] == s[1..] + after;
      TrimStartConcat(s[1..], after);
    }
  }

  // Whitespace around a string makes no difference to what trimming leaves.
  lemma TrimPadding(before: string, s: string, after: string)
    requires forall c <- before + after :: IsWhitespace(c)
    ensures Trim(before + s + after) == Trim(s)
  {
    assert before + s + after == before + (s + after);
    TrimStartPadding(before, s + after);
    TrimStartConcat(s, after);
    if TrimStart(s) == "" {
      TrimStartPadding(after, "");
      assert after + "" == after;
    } else {
      TrimEndPadding(TrimStart(s), after);
    }
  }

  lemma TrimPadded(before: string, s: string, after: string)
    requires Trimmed(s) && forall c <- before + after :: IsWhitespace(c)
    ensures Trim(before + s + after) == s
  {
    TrimPadding(before, s, after);
    TrimOfTrimmed(s);
  }

  // What trimming leaves is the one trimmed text with nothing but whitespace around it.
  lemma TrimIs(s: string, t: string)
    ensures t == Trim(s) <==>
            Trimmed(t) && exists before: string, after: string :: PaddedBy(s, before, t, after)
  {
    if t == Trim(s) {
      TrimIsTrimmed(s);
      var before, after := TrimParts(s);
      assert PaddedBy(s, before, t, after);
    }
    if Trimmed(t) {
      if before: string, after: string :| PaddedBy(s, before, t, after) {
        TrimPadded(before, t, after);
      }
    }
  }

  ghost predicate PaddedBy(s: string, before: string, t: string, after: string) {
    s == before + t + after && forall c <- before + after :: IsWhitespace(c)
  }

  // The 25 characters that count as whitespace.
  lemma WhitespaceIs(c: char)
    ensures IsWhitespace(c) <==>
            c as int in {
              0x0009, 0x000A, 0x000B, 0x000C, 0x000D, 0x0020, 0x0085, 0x00A0, 0x1680, 0x2000, 0x2001, 0x2002, 0x2003,
              0x2004, 0x2005, 0x2006, 0x2007, 0x2008, 0x2009, 0x200A, 0x2028, 0x2029, 0x202F, 0x205F, 0x3000}
  {
  }

  // Case folding keeps whitespace where it is, so it commutes with trimming.
  lemma {:induction false} TrimUpper(s: string)
    ensures Trim(Upper(s)) == Upper(Trim(s))
  {
    TrimStartUpper(s);
    TrimEndUpper(TrimStart(s));
  }

  lemma {:induction false} TrimStartUpper(s: string)
    ensures TrimStart(Upper(s)) == Upper(TrimStart(s))
  {
    if s != "" && IsWhitespace(s[0]) {
      assert Upper(s)[1..] == Upper(s[1..]);
      TrimStartUpper(s[1..]);
    }
  }

  lemma {:induction false} TrimEndUpper(s: string)
    ensures TrimEnd(Upper(s)) == Upper(TrimEnd(s))
  {
    if s != "" && IsWhitespace(s[|s| - 1]) {
      assert Upper(s)[..|s| - 1] == Upper(s[..|s| - 1]);
      TrimEndUpper(s[..|s| - 1]);
    }
  }

  // ----- searching -----

  // Position of the first character that belongs to `stops`.
  function IndexOf(s: string, stops: set<char>): (r: Option<nat>)
    ensures r.Some? ==> r.value < |s| && s[r.value] in stops
  {
    if s == "" then None
    else if s[0] in stops then Some(0)
    else match IndexOf(s[1..], stops)
      case None => None
      case Some(i) => Some(i + 1)
  }

  predicate Avoids(s: string, stops: set<char>) { forall c <- s :: c !in stops }

  lemma {:induction false} IndexOfIsFirst(s: string, stops: set<char>)
    ensures match IndexOf(s, stops)
            case None => Avoids(s, stops)
            case Some(i) => Avoids(s[..i], stops)
  {
    if s != "" && s[0] !in stops {
      IndexOfIsFirst(s[1..], stops);
      match IndexOf(s[1..], stops)
      case None => assert s == [s[0]] + s[1..];
      case Some(i) => assert s[..i + 1] == [s[0]] + s[1..][..i];
    }
  }

  lemma {:induction false} IndexOfIs(a: string, b: string, stops: set<char>)
    requires Avoids(a, stops) && (b == "" || b[0] in stops)
    ensures IndexOf(a + b, stops) == if b == "" then None else Some(|a|)
  {
    if a != "" {
      assert (a + b)[1..] == a[1..] + b;
      assert a[0] in a;
      IndexOfIs(a[1..], b, stops);
    } else {
      assert a + b == b;
    }
  }

  // The part before the first stop character, or everything when there is none.
  function Before(s: string, stops: set<char>): (r: string)
    ensures |r| <= |s|
  {
    match IndexOf(s, stops)
    case None => s
    case Some(i) => s[..i]
  }

  lemma CutBefore(s: string, stops: set<char>) returns (tail: string)
    ensures s == Before(s, stops) + tail && tail == s[|Before(s, stops)|..]
    ensures tail == "" || tail[0] in stops
  {
    tail := s[|Before(s, stops)|..];
  }

  lemma BeforeIs(a: string, b: string, stops: set<char>)
    requires Avoids(a, stops) && (b == "" || b[0] in stops)
    ensures Before(a + b, stops) == a
  {
    IndexOfIs(a, b, stops);
    assert b == "" ==> a + b == a;
  }

  // Position of the last occurrence of `c`.
  function LastIndexOf(s: string, c: char): (r: Option<nat>)
    ensures r.Some? ==> r.value < |s| && s[r.value] == c
  {
    if s == "" then None
    else if s[|s| - 1] == c then Some(|s| - 1)
    else LastIndexOf(s[..|s| - 1], c)
  }

  lemma {:induction false} LastIndexIs(a: string, c: char, b: string)
    requires c !in b
    ensures LastIndexOf(a + [c] + b, c) == Some(|a|)
  {
    var s := a + [c] + b;
    if b != "" {
      assert b[|b| - 1] in b && s[|s| - 1] == b[|b| - 1];
      assert s[..|s| - 1] == a + [c] + b[..|b| - 1];
      LastIndexIs(a, c, b[..|b| - 1]);
    }
  }

  function Count(s: string, c: char): nat {
    if s == "" then 0 else (if s[0] == c then 1 else 0) + Count(s[1..], c)
  }

  lemma {:induction false} CountZero(s: string, c: char)
    ensures Count(s, c) == 0 <==> c !in s
  {
    if s != "" {
      CountZero(s[1..], c);
      assert s == [s[0]] + s[1..];
    }
  }

  lemma {:induction false} CountConcat(a: string, b: string, c: char)
    ensures Count(a + b, c) == Count(a, c) + Count(b, c)
  {
    if a == "" {
      assert a + b == b;
    } else {
      assert (a + b)[1..] == a[1..] + b;
      CountConcat(a[1..], b, c);
    }
  }

  // ----- splitting and joining -----

  function Split(s: string, sep: char): (parts: seq<string>)
    ensures |parts| >= 1
    decreases |s|
  {
    match IndexOf(s, {sep})
    case None => [s]
    case Some(i) => [s[..i]] + Split(s[i + 1..], sep)
  }

  function Join(parts: seq<string>, sep: char): string
    requires |parts| >= 1
  {
    if |parts| == 1 then parts[0] else parts[0] + [sep] + Join(parts[1..], sep)
  }

  lemma {:induction false} SplitParts(s: string, sep: char)
    ensures forall p <- Split(s, sep) :: sep !in p
    decreases |s|
  {
    IndexOfIsFirst(s, {sep});
    match IndexOf(s, {sep})
    case None =>
    case Some(i) => SplitParts(s[i + 1..], sep);
  }

  lemma {:induction false} JoinSplit(s: string, sep: char)
    ensures Join(Split(s, sep), sep) == s
    decreases |s|
  {
    match IndexOf(s, {sep})
    case None =>
    case Some(i) =>
      var rest := s[i + 1..];
      JoinSplit(rest, sep);
      JoinCons(s[..i], Split(rest, sep), sep);
      CutAt(s, i);
  }

  lemma JoinCons(first: string, rest: seq<string>, sep: char)
    requires |rest| >= 1
    ensures Join([first] + rest, sep) == first + [sep] + Join(rest, sep)
  {
    assert ([first] + rest)[1..] == rest;
  }

  lemma {:induction false} SplitJoin(parts: seq<string>, sep: char)
    requires |parts| >= 1
    requires forall p <- parts :: sep !in p
    ensures Split(Join(parts, sep), sep) == parts
  {
    if |parts| > 1 {
      var rest := Join(parts[1..], sep);
      SplitFirst(parts[0], rest, sep);
      SplitJoin(parts[1..], sep);
    } else {
      IndexOfIs(parts[0], "", {sep});
      assert parts[0] + "" == parts[0];
    }
  }

  lemma {:induction false} IndexOfLower(s: string, sep: char)
    requires !('A' <= sep <= 'Z') && !('a' <= sep <= 'z')
    ensures IndexOf(Lower(s), {sep}) == IndexOf(s, {sep})
  {
    if s != "" {
      assert Lower(s)[1..] == Lower(s[1..]);
      IndexOfLower(s[1..], sep);
    }
  }

  function LowerAll(parts: seq<string>): (r: seq<string>)
    ensures |r| == |parts|
  {
    seq(|parts|, i requires 0 <= i < |parts| => Lower(parts[i]))
  }

  lemma LowerParts(s: string, n: nat)
    requires n < |s|
    ensures Lower(s)[..n] == Lower(s[..n]) && Lower(s)[n + 1..] == Lower(s[n + 1..])
  {
  }

  lemma LowerAllCons(first: string, rest: seq<string>)
    ensures LowerAll([first] + rest) == [Lower(first)] + LowerAll(rest)
  {
  }

  lemma SplitAt(s: string, sep: char, n: nat)
    requires IndexOf(s, {sep}) == Some(n)
    ensures Split(s, sep) == [s[..n]] + Split(s[n + 1..], sep)
  {
  }

  // Folding a string folds its parts.
  lemma {:induction false} SplitLower(s: string, sep: char)
    requires !('A' <= sep <= 'Z') && !('a' <= sep <= 'z')
    ensures Split(Lower(s), sep) == LowerAll(Split(s, sep))
    decreases |s|, 1
  {
    IndexOfLower(s, sep);
    var at := IndexOf(s, {sep});
    if at.None? {
      assert LowerAll([s]) == [Lower(s)];
    } else {
      SplitLowerAt(s, sep, at.value);
    }
  }

  lemma {:induction false} SplitLowerAt(s: string, sep: char, n: nat)
    requires !('A' <= sep <= 'Z') && !('a' <= sep <= 'z')
    requires IndexOf(s, {sep}) == Some(n) && IndexOf(Lower(s), {sep}) == Some(n)
    ensures Split(Lower(s), sep) == LowerAll(Split(s, sep))
    decreases |s|, 0
  {
    var first, rest := s[..n], s[n + 1..];
    SplitLower(rest, sep);
    SplitAt(s, sep, n);
    SplitAt(Lower(s), sep, n);
    LowerParts(s, n);
    LowerAllCons(first, Split(rest, sep));
  }

  lemma SplitFirst(first: string, rest: string, sep: char)
    requires sep !in first
    ensures Split(first + [sep] + rest, sep) == [first] + Split(rest, sep)
  {
    var s := first + [sep] + rest;
    IndexOfIs(first, [sep] + rest, {sep});
    assert s == first + ([sep] + rest);
    assert s[..|first|] == first && s[|first| + 1..] == rest;
  }

  lemma SplitConcat(a: string, b: string, sep: char)
    ensures Split(a + [sep] + b, sep) == Split(a, sep) + Split(b, sep)
  {
    JoinSplit(a, sep);
    JoinSplit(b, sep);
    JoinConcat(Split(a, sep), Split(b, sep), sep);
    SplitParts(a, sep);
    SplitParts(b, sep);
    SplitJoin(Split(a, sep) + Split(b, sep), sep);
  }

  lemma {:induction false} JoinConcat(a: seq<string>, b: seq<string>, sep: char)
    requires |a| >= 1 && |b| >= 1
    ensures Join(a + b, sep) == Join(a, sep) + [sep] + Join(b, sep)
  {
    if |a| == 1 {
      assert (a + b)[1..] == b;
    } else {
      assert (a + b)[1..] == a[1..] + b;
      JoinConcat(a[1..], b, sep);
    }
  }

  // ----- ordering -----

  // Lexicographic order by scalar value, which is the byte order of the UTF-8 encodings.
  predicate StrLess(a: string, b: string) {
    b != "" && (a == "" || a[0] < b[0] || (a[0] == b[0] && StrLess(a[1..], b[1..])))
  }

  // One string precedes another when it is a proper prefix, or has the smaller character at the
  // first position where they differ.
  ghost predicate Precedes(a: string, b: string, n: nat) {
    && n <= |a| && n <= |b| && a[..n] == b[..n]
    && (if n < |a| then n < |b| && a[n] < b[n] else n < |b|)
  }

  lemma {:induction false} StrLessIff(a: string, b: string)
    ensures StrLess(a, b) <==> exists n: nat :: Precedes(a, b, n)
  {
    if a != "" && b != "" && a[0] == b[0] {
      var x, y := a[1..], b[1..];
      StrLessIff(x, y);
      assert a == [a[0]] + x && b == [b[0]] + y;
      if n: nat :| Precedes(x, y, n) {
        assert a[..n + 1] == [a[0]] + x[..n] && b[..n + 1] == [b[0]] + y[..n];
        assert Precedes(a, b, n + 1);
      }
      if n: nat :| Precedes(a, b, n) {
        assert n > 0;
        assert x[..n - 1] == a[..n][1..] && y[..n - 1] == b[..n][1..];
        assert Precedes(x, y, n - 1);
      }
    } else {
      if StrLess(a, b) {
        assert Precedes(a, b, 0);
      }
      if n: nat :| Precedes(a, b, n) {
        assert n > 0 ==> a[..n][0] == b[..n][0];
      }
    }
  }

  lemma {:induction false} StrOrder(a: string, b: string)
    ensures StrLess(a, b) || a == b || StrLess(b, a)
    ensures !(StrLess(a, b) && StrLess(b, a))
    ensures !StrLess(a, a)
  {
    if a != "" {
      assert a == [a[0]] + a[1..];
      StrOrder(a[1..], a[1..]);
      if b != "" {
        assert b == [b[0]] + b[1..];
        StrOrder(a[1..], b[1..]);
      }
    }
  }

  lemma {:induction false} StrTransitive(a: string, b: string, c: string)
    requires StrLess(a, b) && StrLess(b, c)
    ensures StrLess(a, c)
  {
    if a != "" && a[0] == b[0] == c[0] {
      StrTransitive(a[1..], b[1..], c[1..]);
    }
  }

  // ----- UTF-8 lengths -----

  function Utf8CharLen(c: char): (n: nat)
    ensures 1 <= n <= 4
    ensures n == 1 <==> IsAscii(c)
  {
    var v := c as int;
    if v < 0x80 then 1 else if v < 0x800 then 2 else if v < 0x10000 then 3 else 4
  }

  // What the host language calls the length of a string.
  function Utf8Len(s: string): (n: nat)
    ensures n >= |s|
    ensures n == |s| <==> AllAscii(s)
  {
    if s == "" then 0 else
      assert AllAscii(s) <==> IsAscii(s[0]) && AllAscii(s[1..]);
      Utf8CharLen(s[0]) + Utf8Len(s[1..])
  }
}
