// The recognizer accepts exactly the grammar, and the extractor returns exactly the host.

module DomainGrammar {
  import opened Words
  import opened Text
  import opened DomainValidator
  import Decimal

  // ----- labels and names -----

  lemma LabelIff(l: string)
    ensures ValidateLabel(l) == Accepted <==> HostLabel(l)
  {
    if HostLabel(l) || ValidateLabel(l) == Accepted {
      assert AllAscii(l);
    }
  }

  lemma DotsByParts(name: string)
    ensures '.' in name <==> |Split(name, '.')| >= 2
  {
    IndexOfIsFirst(name, {'.'});
  }

  // With no empty label there is no doubled, leading or trailing dot.
  lemma {:induction false} NoStrayDots(labels: seq<string>)
    requires |labels| >= 1
    requires forall l <- labels :: l != "" && '.' !in l
    ensures var name := Join(labels, '.');
            name != "" && !HasDoubleDot(name) && name[0] != '.' && name[|name| - 1] != '.'
  {
    assert labels[0] in labels;
    if |labels| > 1 {
      assert forall l <- labels[1..] :: l in labels;
      NoStrayDots(labels[1..]);
      var rest := Join(labels[1..], '.');
      var name := Join(labels, '.');
      assert name == labels[0] + ["."[0]] + rest;
      assert labels[0][0] in labels[0] && labels[0][|labels[0]| - 1] in labels[0];
      forall i | 0 <= i < |name| - 1 ensures !(name[i] == '.' && name[i + 1] == '.') {
        var k := |labels[0]|;
        if i < k {
          assert name[i] in labels[0];
        } else if i > k {
          assert name[i] == rest[i - k - 1] && name[i + 1] == rest[i - k];
        }
      }
    } else {
      var name := labels[0];
      assert name[0] in name && name[|name| - 1] in name;
      assert forall i :: 0 <= i < |name| ==> name[i] in name;
    }
  }

  lemma NameIff(name: string)
    ensures ValidateName(name) == Accepted <==> HostName(name)
  {
    if ValidateName(name) == Accepted {
      AcceptedNameIsMade(name);
    }
    if HostName(name) {
      var labels :| MakesHost(labels, name);
      MadeNameIsAccepted(labels, name);
    }
  }

  lemma AcceptedNameIsMade(name: string)
    requires ValidateName(name) == Accepted
    ensures HostName(name)
  {
    var labels := Split(name, '.');
    JoinSplit(name, '.');
    DotsByParts(name);
    forall l | l in labels ensures HostLabel(l) { LabelIff(l); }
    NameAscii(labels);
    assert MakesHost(labels, name);
  }

  lemma MadeNameIsAccepted(labels: seq<string>, name: string)
    requires |name| <= 253 && MakesHost(labels, name)
    ensures ValidateName(name) == Accepted
  {
    SplitJoin(labels, '.');
    DotsByParts(name);
    NoStrayDots(labels);
    NameAscii(labels);
    forall l | l in labels ensures ValidateLabel(l) == Accepted { LabelIff(l); }
  }

  lemma {:induction false} NameAscii(labels: seq<string>)
    requires |labels| >= 1 && forall l <- labels :: HostLabel(l)
    ensures AllAscii(Join(labels, '.'))
    ensures forall c <- Join(labels, '.') :: IsAlphanumeric(c) || c == '-' || c == '.'
  {
    assert labels[0] in labels;
    if |labels| > 1 {
      NameAscii(labels[1..]);
    }
  }

  // ----- authorities -----

  lemma HostChars(host: string)
    requires HostName(host)
    ensures host != ""
    ensures forall c <- host :: IsAlphanumeric(c) || c == '-' || c == '.'
  {
    var labels :| MakesHost(labels, host);
    NameAscii(labels);
    assert labels[0] in labels;
    assert Join(labels, '.')[0] == labels[0][0];
  }

  lemma PortIff(port: string)
    ensures Port(port) <==>
            port != "" && AllDigits(port) && Decimal.ParseU32(port).Some? && 1 <= Decimal.ParseU32(port).value <= 65535
  {
    if port != "" && AllDigits(port) {
      assert IsDigit(port[0]);
      Decimal.ParseDigitsIsBoundedValue(0, port);
      Decimal.ValueIsNumber(port);
    }
  }

  lemma AuthorityChars(p: Parts)
    requires MakesAuthority(p)
    ensures Authority(p) != ""
    ensures forall c <- Authority(p) :: IsAlphanumeric(c) || c == '-' || c == '.' || c == ':'
    ensures Count(Authority(p), ':') <= 1
  {
    HostChars(p.host);
    CountConcat(p.host, PortPart(p.port), ':');
    CountZero(p.host, ':');
    if p.port.Some? {
      CountZero(p.port.value, ':');
      assert PortPart(p.port)[1..] == p.port.value;
    }
  }

  lemma AuthoritySplits(p: Parts)
    requires MakesAuthority(p)
    ensures LastIndexOf(Authority(p), ':') == if p.port.None? then None else Some(|p.host|)
    ensures Authority(p)[..|p.host|] == p.host
    ensures p.port.Some? ==> Authority(p)[|p.host| + 1..] == p.port.value
  {
    HostChars(p.host);
    assert ':' !in p.host;
    if p.port.Some? {
      assert ':' !in p.port.value;
      LastIndexIs(p.host, ':', p.port.value);
      assert Authority(p) == p.host + [':'] + p.port.value;
    } else {
      assert Authority(p) == p.host;
    }
  }

  lemma HostWithPort(a: string, name: string, port: string)
    requires LastIndexOf(a, ':') == Some(|name|) && a[..|name|] == name && a[|name| + 1..] == port
    requires ' ' !in a && HostName(name) && Port(port)
    ensures ValidateHost(a) == Accepted
  {
    NameIff(name);
    PortIff(port);
  }

  lemma HostWithoutPort(a: string)
    requires LastIndexOf(a, ':') == None
    requires a != "" && ' ' !in a && HostName(a)
    ensures ValidateHost(a) == Accepted
  {
    NameIff(a);
  }

  // The authorities accepted are exactly host names with an optional port.
  lemma AuthorityAccepted(p: Parts)
    requires MakesAuthority(p)
    ensures ValidateHost(Authority(p)) == Accepted
  {
    var a := Authority(p);
    AuthorityChars(p);
    assert ' ' !in a;
    AuthoritySplits(p);
    match p.port
    case None =>
      assert a == p.host;
      HostWithoutPort(a);
    case Some(port) => HostWithPort(a, p.host, port);
  }

  lemma AcceptedWithoutPort(a: string) returns (p: Parts)
    requires ValidateHost(a) == Accepted && LastIndexOf(a, ':').None?
    ensures MakesAuthority(p) && Authority(p) == a
  {
    NameIff(a);
    p := Parts(a, None, "", "");
  }

  lemma AcceptedWithPort(a: string, colon: nat) returns (p: Parts)
    requires ValidateHost(a) == Accepted && LastIndexOf(a, ':') == Some(colon)
    ensures MakesAuthority(p) && Authority(p) == a
  {
    var name, port := a[..colon], a[colon + 1..];
    assert ValidateName(name) == Accepted && port != "" && AllDigits(port);
    NameIff(name);
    PortIff(port);
    p := Parts(name, Some(port), "", "");
    CutAt(a, colon);
  }

  lemma AcceptedAuthority(a: string) returns (p: Parts)
    requires ValidateHost(a) == Accepted
    ensures MakesAuthority(p) && Authority(p) == a
  {
    var colon := LastIndexOf(a, ':');
    if colon.None? {
      p := AcceptedWithoutPort(a);
    } else {
      p := AcceptedWithPort(a, colon.value);
    }
  }

  // ----- whole URLs -----

  lemma SchemeStripped(url: string, p: Parts)
    requires MadeOf(url, p)
    ensures SCHEME <= url && url[|SCHEME|..] == AfterScheme(p)
  {
  }

  lemma ShapeScans(p: Parts)
    requires WellShaped(p)
    ensures Before(AfterScheme(p), AUTHORITY_END) == Authority(p)
    ensures AfterScheme(p)[|Authority(p)|..] == p.root + p.tail
    ensures Before(p.root + p.tail, {'?', '#'}) == p.root
  {
    AuthorityChars(p);
    BeforeIs(Authority(p), p.root + p.tail, AUTHORITY_END);
    BeforeIs(p.root, p.tail, {'?', '#'});
  }

  lemma AfterSchemeAccepted(after: string, authority: string, rest: string)
    requires Before(after, AUTHORITY_END) == authority && after[|authority|..] == rest
    requires Before(rest, {'?', '#'}) == "" || Before(rest, {'?', '#'}) == "/"
    requires authority != "" && '@' !in authority && Count(authority, ':') <= 1
    requires ValidateHost(authority) == Accepted
    ensures ValidateAfterScheme(after) == Accepted
  {
  }

  lemma ShapeAccepted(p: Parts)
    requires WellShaped(p)
    ensures ValidateAfterScheme(AfterScheme(p)) == Accepted
  {
    ShapeScans(p);
    AuthorityChars(p);
    AuthorityAccepted(p);
    AfterSchemeAccepted(AfterScheme(p), Authority(p), p.root + p.tail);
  }

  lemma AcceptedAfterScheme(after: string) returns (authority: string, path: string, tail: string)
    requires ValidateAfterScheme(after) == Accepted
    ensures after == authority + (path + tail) && ValidateHost(authority) == Accepted
    ensures path == "" || path == "/"
    ensures tail == "" || tail[0] == '?' || tail[0] == '#'
  {
    authority := Before(after, AUTHORITY_END);
    var rest := CutBefore(after, AUTHORITY_END);
    path := Before(rest, {'?', '#'});
    tail := CutBefore(rest, {'?', '#'});
  }

  lemma AcceptedShape(after: string) returns (p: Parts)
    requires ValidateAfterScheme(after) == Accepted
    ensures WellShaped(p) && AfterScheme(p) == after
  {
    var authority, path, tail := AcceptedAfterScheme(after);
    var q := AcceptedAuthority(authority);
    p := Parts(q.host, q.port, path, tail);
    assert Authority(p) == Authority(q);
  }

  lemma SchemeRestored(url: string)
    requires SCHEME <= url
    ensures url == SCHEME + url[|SCHEME|..]
  {
  }

  lemma AcceptedMadeOf(url: string) returns (p: Parts)
    requires SCHEME <= url && ValidateAfterScheme(url[|SCHEME|..]) == Accepted
    ensures MadeOf(url, p)
  {
    SchemeRestored(url);
    p := AcceptedShape(url[|SCHEME|..]);
  }

  lemma AllowedAreTrimmed(url: string)
    requires forall c <- url :: AllowedUrlChar(c)
    ensures Trim(url) == url && AllAscii(url) && Utf8Len(url) == |url|
  {
    assert forall c <- url :: IsAscii(c) && !IsWhitespace(c);
    assert url == "" || (url[0] in url && url[|url| - 1] in url);
    assert Trimmed(url);
  }

  lemma UrlCharIff(c: char)
    ensures AllowedUrlChar(c) <==> UrlChar(c)
  {
  }

  lemma AcceptedIsUrl(url: string)
    requires ValidateAnchorDomain(url) == Accepted
    ensures AnchorUrl(url)
  {
    AllowedAreTrimmed(url);
    var p := AcceptedMadeOf(url);
    forall c | c in url ensures UrlChar(c) {
      UrlCharIff(c);
    }
  }

  lemma UrlIsAccepted(url: string)
    requires AnchorUrl(url)
    ensures ValidateAnchorDomain(url) == Accepted
  {
    forall c | c in url ensures AllowedUrlChar(c) {
      UrlCharIff(c);
    }
    AllowedAreTrimmed(url);
    var p :| MadeOf(url, p);
    SchemeStripped(url, p);
    ShapeAccepted(p);
  }

  // A URL is accepted exactly when the grammar makes it.
  lemma AcceptedIffGrammar(url: string)
    ensures ValidateAnchorDomain(url) == Accepted <==> AnchorUrl(url)
  {
    if ValidateAnchorDomain(url) == Accepted {
      AcceptedIsUrl(url);
    }
    if AnchorUrl(url) {
      UrlIsAccepted(url);
    }
  }

  lemma ExtractFromAuthority(url: string, a: string, host: string, port: Option<string>)
    requires SCHEME <= url && Before(url[|SCHEME|..], AUTHORITY_END) == a
    requires LastIndexOf(a, ':') == if port.None? then None else Some(|host|)
    requires port.None? ==> a == host
    requires port.Some? ==> a[..|host|] == host && a[|host| + 1..] == port.value
    requires port.Some? ==> port.value != "" && AllDigits(port.value)
    ensures ExtractHost(url) == host
  {
  }

  // The extractor finds the one host the URL is made of.
  lemma ExtractedHost(url: string, p: Parts)
    requires MadeOf(url, p)
    ensures ExtractHost(url) == p.host
  {
    SchemeStripped(url, p);
    ShapeScans(p);
    AuthoritySplits(p);
    assert p.port.None? ==> Authority(p) == p.host;
    ExtractFromAuthority(url, Authority(p), p.host, p.port);
  }

  // The shortest well-formed origin has eleven characters and falls below the length floor.
  lemma LengthFloor()
    ensures ValidateAnchorDomain("https://a.b") == InvalidEndpointFormat
  {
    assert Utf8Len("https://a.b") == 11 by {
      assert forall c <- "https://a.b" :: IsAscii(c);
    }
  }

  lemma HostLabelsShort(host: string)
    requires HostName(host)
    ensures forall l <- Split(host, '.') :: |l| <= 63
  {
    var labels :| MakesHost(labels, host);
    forall l | l in labels ensures '.' !in l && |l| <= 63 {
      assert HostLabel(l);
    }
    SplitJoin(labels, '.');
  }

  // However short the URL stays, and whatever port, path or query it has, a label of more than
  // 63 characters anywhere in its host is rejected.
  lemma {:induction false} LongLabelRejected(url: string, l: string)
    requires l in Split(ExtractHost(url), '.') && |l| > 63
    ensures ValidateAnchorDomain(url) == InvalidEndpointFormat
  {
    AcceptedIffGrammar(url);
    OnlyTwoVerdicts(url);
    if AnchorUrl(url) {
      var p :| MadeOf(url, p);
      ExtractedHost(url, p);
      HostLabelsShort(p.host);
    }
  }

  lemma OnlyTwoVerdicts(url: string)
    ensures ValidateAnchorDomain(url) == Accepted || ValidateAnchorDomain(url) == InvalidEndpointFormat
  {
  }
}
