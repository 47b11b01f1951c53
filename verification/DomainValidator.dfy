// The anchor-domain recognizer, the separate host extractor, and the grammar both are proved
// against.

module DomainValidator {
  import opened Words
  import opened Text
  import Decimal

  const SCHEME := "https://"

  datatype Verdict = Accepted | InvalidEndpointFormat | BlockedByPolicy(host: string)

  // ----- the recognizer -----

  predicate AllowedUrlChar(c: char) {
    && IsAscii(c) && !IsAsciiControl(c) && c != ' '
    && c !in {'<', '>', '{', '}', '|', '\\', '[', ']', '^', '`'}
  }

  // The authority ends at the first of these.
  const AUTHORITY_END: set<char> := {'/', '?', '#'}

  function ValidateAnchorDomain(domain: string): Verdict {
    if Trim(domain) == "" then InvalidEndpointFormat
    else if domain != Trim(domain) then InvalidEndpointFormat
    else if Utf8Len(domain) < 12 then InvalidEndpointFormat
    else if Utf8Len(domain) > 2048 then InvalidEndpointFormat
    else if !(SCHEME <= domain) then InvalidEndpointFormat
    else if exists c <- domain :: !AllowedUrlChar(c) then InvalidEndpointFormat
    else ValidateAfterScheme(domain[|SCHEME|..])
  }

  function ValidateAfterScheme(afterScheme: string): Verdict {
    if afterScheme == "" then InvalidEndpointFormat else
      var authority := Before(afterScheme, AUTHORITY_END);
      if authority == "" then InvalidEndpointFormat
      else if '@' in authority then InvalidEndpointFormat
      else if authority[0] != '[' && Count(authority, ':') > 1 then InvalidEndpointFormat
      else
        var path := Before(afterScheme[|authority|..], {'?', '#'});
        if path != "" && path != "/" then InvalidEndpointFormat
        else ValidateHost(authority)
  }

  function ValidateHost(host: string): Verdict {
    if host == "" then InvalidEndpointFormat
    else if ' ' in host then InvalidEndpointFormat
    else match LastIndexOf(host, ':')
      case None => ValidateName(host)
      case Some(colon) =>
        var port := host[colon + 1..];
        if port == "" then InvalidEndpointFormat
        else if !AllDigits(port) then InvalidEndpointFormat
        else match Decimal.ParseU32(port)
          case None => InvalidEndpointFormat
          case Some(p) =>
            if 1 <= p <= 65535 then ValidateName(host[..colon]) else InvalidEndpointFormat
  }

  function ValidateName(name: string): Verdict {
    if name == "" then InvalidEndpointFormat
    else if Utf8Len(name) > 253 then InvalidEndpointFormat
    else if '.' !in name then InvalidEndpointFormat
    else if HasDoubleDot(name) then InvalidEndpointFormat
    else if name[0] == '.' || name[|name| - 1] == '.' then InvalidEndpointFormat
    else
      var labels := Split(name, '.');
      if forall l <- labels :: AllDigits(l) then InvalidEndpointFormat
      else if forall l <- labels :: ValidateLabel(l) == Accepted then Accepted
      else InvalidEndpointFormat
  }

  predicate HasDoubleDot(s: string) {
    exists i :: 0 <= i < |s| - 1 && s[i] == '.' && s[i + 1] == '.'
  }

  function ValidateLabel(l: string): Verdict {
    if l == "" then InvalidEndpointFormat
    else if Utf8Len(l) > 63 then InvalidEndpointFormat
    else if !IsAlphanumeric(l[0]) || !IsAlphanumeric(l[|l| - 1]) then InvalidEndpointFormat
    else if exists c <- l :: !IsAlphanumeric(c) && c != '-' then InvalidEndpointFormat
    else Accepted
  }

  // ----- the host extractor -----

  function ExtractHost(domain: string): string {
    if !(SCHEME <= domain) then "" else
      var authority := Before(domain[|SCHEME|..], AUTHORITY_END);
      match LastIndexOf(authority, ':')
      case None => authority
      case Some(colon) =>
        var port := authority[colon + 1..];
        if port != "" && AllDigits(port) then authority[..colon] else authority
  }

  // ----- the grammar -----

  predicate LetterOrDigit(c: char) {
    '0' <= c <= '9' || 'A' <= c <= 'Z' || 'a' <= c <= 'z'
  }

  // A visible ASCII character other than ten that are never allowed.
  predicate UrlChar(c: char) {
    '!' <= c <= '~' && c !in "<>{}|\\[]^`"
  }

  predicate Numeric(s: string) {
    forall c <- s :: '0' <= c <= '9'
  }

  predicate HostLabel(l: string) {
    && 1 <= |l| <= 63
    && LetterOrDigit(l[0]) && LetterOrDigit(l[|l| - 1])
    && forall c <- l :: LetterOrDigit(c) || c == '-'
  }

  // Two or more labels, not all of them numeric, joined by dots into at most 253 bytes.
  ghost predicate HostName(host: string) {
    |host| <= 253 && exists labels :: MakesHost(labels, host)
  }

  ghost predicate MakesHost(labels: seq<string>, host: string) {
    && |labels| >= 2
    && (forall l <- labels :: HostLabel(l))
    && !(forall l <- labels :: Numeric(l))
    && host == Join(labels, '.')
  }

  predicate Port(port: string) {
    port != "" && Numeric(port) && 1 <= Decimal.Number(port) <= 65535
  }

  function PortPart(port: Option<string>): string {
    match port case None => "" case Some(p) => ":" + p
  }

  datatype Parts = Parts(host: string, port: Option<string>, root: string, tail: string)

  function Authority(p: Parts): string {
    p.host + PortPart(p.port)
  }

  ghost predicate MakesAuthority(p: Parts) {
    HostName(p.host) && (p.port.Some? ==> Port(p.port.value))
  }

  // host [:port] [/] [?query or #fragment]
  ghost predicate WellShaped(p: Parts) {
    && MakesAuthority(p)
    && (p.root == "" || p.root == "/")
    && (p.tail == "" || p.tail[0] == '?' || p.tail[0] == '#')
  }

  function AfterScheme(p: Parts): string {
    Authority(p) + (p.root + p.tail)
  }

  ghost predicate MadeOf(url: string, p: Parts) {
    WellShaped(p) && url == SCHEME + AfterScheme(p)
  }

  ghost predicate AnchorUrl(url: string) {
    && 12 <= |url| <= 2048
    && (forall c <- url :: UrlChar(c))
    && exists p :: MadeOf(url, p)
  }
}
