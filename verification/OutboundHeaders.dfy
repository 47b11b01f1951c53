// The extra headers of an outbound request: idempotency key, body signature, trace context and
// credentials, and what a receiver reads back from them.

module OutboundHeaders {
  import opened Words
  import opened Text
  import Hex
  import opened Signature

  type Header = (string, string)

  // A span of a trace.  Its parent is never sent.
  datatype Trace = Trace(traceId: string, spanId: string, sampled: bool)

  datatype Credentials =
    | Bearer(token: string)
    | Basic(username: string, password: string)
    | HeaderCredential(name: string, value: string)

  datatype Options = Options(
    idempotencyKey: Option<string>, signingKey: Option<seq<u8>>, trace: Option<Trace>,
    credentials: Option<Credentials>)

  datatype Error =
    | BlankSigningKey
    | BlankToken
    | EmptyUsername
    | ColonInUsername
    | EmptyName
    | InvalidName
    | ProtectedName
    | ControlCharacter(what: string)

  // The base64 form of a text's bytes, and the header names a credential may not use.
  datatype Settings = Settings(base64: string -> string, protected: seq<string>)

  // ----- validation -----

  predicate AsciiSpace(b: u8) { b in {9, 10, 12, 13, 32} }

  // A key that is empty or only ASCII whitespace is refused.
  predicate BlankKey(key: seq<u8>) {
    forall b <- key :: AsciiSpace(b)
  }

  predicate Clean(s: string) {
    forall c <- s :: !IsAsciiControl(c)
  }

  function RejectControl(what: string, s: string): Result<(), Error> {
    if Clean(s) then Ok(()) else Err(ControlCharacter(what))
  }

  predicate TokenChar(c: char) {
    IsAlphanumeric(c) || c in {'-', '_', '.', '!', '#', '$', '%', '&', '\'', '*', '+', '^', '`', '|', '~'}
  }

  function CheckCredentials(st: Settings, cr: Credentials): Result<(), Error> {
    match cr
    case Bearer(token) =>
      if Trim(token) == "" then Err(BlankToken) else RejectControl("bearer token", token)
    case Basic(username, password) =>
      if username == "" then Err(EmptyUsername)
      else if ':' in username then Err(ColonInUsername)
      else if !Clean(username) then RejectControl("username", username)
      else RejectControl("password", password)
    case HeaderCredential(name, value) =>
      if name == "" then Err(EmptyName)
      else if !(forall c <- name :: TokenChar(c)) then Err(InvalidName)
      else if exists p <- st.protected :: EqIgnoreCase(name, p) then Err(ProtectedName)
      else RejectControl("header value", value)
  }

  function Check(st: Settings, o: Options): Result<(), Error> {
    if o.signingKey.Some? && BlankKey(o.signingKey.value) then Err(BlankSigningKey)
    else if o.credentials.Some? then CheckCredentials(st, o.credentials.value)
    else Ok(())
  }

  // ----- printing -----

  const VERSION := "00"

  function Flags(sampled: bool): string {
    if sampled then "01" else "00"
  }

  function Traceparent(t: Trace): string {
    VERSION + "-" + t.traceId + "-" + t.spanId + "-" + Flags(t.sampled)
  }

  function CredentialHeader(st: Settings, cr: Credentials): Header {
    match cr
    case Bearer(token) => ("Authorization", "Bearer " + token)
    case Basic(username, password) => ("Authorization", "Basic " + st.base64(username + ":" + password))
    case HeaderCredential(name, value) => (name, value)
  }

  function IdempotencyHeaders(key: Option<string>): seq<Header> {
    if key.Some? && key.value != "" then [("Idempotency-Key", key.value), ("X-Request-Id", key.value)] else []
  }

  function SignatureHeaders(mac: Mac, key: Option<seq<u8>>, body: string): seq<Header> {
    if key.Some? then [(SIGNATURE_HEADER, SignatureValue(mac, key.value, body))] else []
  }

  function TraceHeaders(trace: Option<Trace>): seq<Header> {
    if trace.Some? then
      var t := trace.value;
      [("traceparent", Traceparent(t)), ("X-Trace-Id", t.traceId), ("X-Span-Id", t.spanId)]
    else []
  }

  function CredentialHeaders(st: Settings, cr: Option<Credentials>): seq<Header> {
    if cr.Some? then [CredentialHeader(st, cr.value)] else []
  }

  // Nothing is printed unless everything is valid.
  function Outbound(mac: Mac, st: Settings, o: Options, body: string): Result<seq<Header>, Error> {
    match Check(st, o)
    case Err(e) => Err(e)
    case Ok(_) =>
      Ok(IdempotencyHeaders(o.idempotencyKey) + SignatureHeaders(mac, o.signingKey, body)
         + TraceHeaders(o.trace) + CredentialHeaders(st, o.credentials))
  }

  method BuildHeaders(mac: Mac, st: Settings, o: Options, body: string) returns (r: Result<seq<Header>, Error>)
    ensures r == Outbound(mac, st, o, body)
  {
    var valid := Check(st, o);
    if valid.Err? {
      return Err(valid.error);
    }
    var headers: seq<Header> := [];
    if o.idempotencyKey.Some? {
      if o.idempotencyKey.value != "" {
        headers := headers + [("Idempotency-Key", o.idempotencyKey.value)];
        headers := headers + [("X-Request-Id", o.idempotencyKey.value)];
      }
    }
    assert headers == IdempotencyHeaders(o.idempotencyKey);
    if o.signingKey.Some? {
      var sig := Hex.Print(mac(o.signingKey.value, body));
      headers := headers + [(SIGNATURE_HEADER, PREFIX + sig)];
    }
    assert headers == IdempotencyHeaders(o.idempotencyKey) + SignatureHeaders(mac, o.signingKey, body);
    if o.trace.Some? {
      headers := headers + TraceHeaders(o.trace);
    }
    assert headers ==
      IdempotencyHeaders(o.idempotencyKey) + SignatureHeaders(mac, o.signingKey, body) + TraceHeaders(o.trace);
    if o.credentials.Some? {
      headers := headers + [CredentialHeader(st, o.credentials.value)];
    }
    assert headers ==
      IdempotencyHeaders(o.idempotencyKey) + SignatureHeaders(mac, o.signingKey, body) + TraceHeaders(o.trace)
      + CredentialHeaders(st, o.credentials);
    return Ok(headers);
  }

  // ----- what is built, and what is refused -----

  predicate AnyControl(s: string) {
    exists c <- s :: c as int < 0x20 || c as int == 0x7F
  }

  predicate BlankBytes(key: seq<u8>) {
    forall b <- key :: b == 9 || b == 10 || b == 12 || b == 13 || b == 32
  }

  // A token character of RFC 7230, section 3.2.6.
  predicate NameChar(c: char) {
    '0' <= c <= '9' || 'A' <= c <= 'Z' || 'a' <= c <= 'z' || c in "!#$%&'*+-.^_`|~"
  }

  lemma TokenCharIff(c: char)
    ensures TokenChar(c) <==> NameChar(c)
  {
    if c in {'-', '_', '.', '!', '#', '$', '%', '&', '\'', '*', '+', '^', '`', '|', '~'} {
      var marks := "!#$%&'*+-.^_`|~";
      assert marks[0] == '!' && marks[1] == '#' && marks[2] == '$' && marks[3] == '%' && marks[4] == '&';
      assert marks[5] == '\'' && marks[6] == '*' && marks[7] == '+' && marks[8] == '-' && marks[9] == '.';
      assert marks[10] == '^' && marks[11] == '_' && marks[12] == '`' && marks[13] == '|' && marks[14] == '~';
    }
  }

  lemma CleanIff(s: string)
    ensures Clean(s) <==> !AnyControl(s)
  {
  }

  lemma HeaderVerdict(st: Settings, name: string, value: string)
    ensures CheckCredentials(st, HeaderCredential(name, value)) ==
            if name == "" then Err(EmptyName)
            else if exists c <- name :: !NameChar(c) then Err(InvalidName)
            else if exists p <- st.protected :: SameText(name, p) then Err(ProtectedName)
            else if AnyControl(value) then Err(ControlCharacter("header value")) else Ok(())
  {
    CleanIff(value);
    forall c | c in name ensures TokenChar(c) <==> NameChar(c) {
      TokenCharIff(c);
    }
    forall p | p in st.protected ensures EqIgnoreCase(name, p) <==> SameText(name, p) {
      EqIgnoreCaseIff(name, p);
    }
  }

  // The first condition that credentials fail gives their error.
  lemma CredentialVerdict(st: Settings, cr: Credentials)
    ensures cr.Bearer? ==>
              CheckCredentials(st, cr) ==
              if Trim(cr.token) == "" then Err(BlankToken)
              else if AnyControl(cr.token) then Err(ControlCharacter("bearer token")) else Ok(())
    ensures cr.Basic? ==>
              CheckCredentials(st, cr) ==
              if cr.username == "" then Err(EmptyUsername)
              else if ':' in cr.username then Err(ColonInUsername)
              else if AnyControl(cr.username) then Err(ControlCharacter("username"))
              else if AnyControl(cr.password) then Err(ControlCharacter("password")) else Ok(())
    ensures cr.HeaderCredential? ==>
              CheckCredentials(st, cr) ==
              if cr.name == "" then Err(EmptyName)
              else if exists c <- cr.name :: !NameChar(c) then Err(InvalidName)
              else if exists p <- st.protected :: SameText(cr.name, p) then Err(ProtectedName)
              else if AnyControl(cr.value) then Err(ControlCharacter("header value")) else Ok(())
  {
    match cr
    case Bearer(token) => CleanIff(token);
    case Basic(username, password) =>
      CleanIff(username);
      CleanIff(password);
    case HeaderCredential(name, value) => HeaderVerdict(st, name, value);
  }

  // A blank signing key refuses everything, and otherwise the credentials decide.
  lemma RefusedIff(mac: Mac, st: Settings, o: Options, body: string)
    ensures Outbound(mac, st, o, body).Err? <==>
            || (o.signingKey.Some? && BlankBytes(o.signingKey.value))
            || (o.credentials.Some? && CheckCredentials(st, o.credentials.value).Err?)
    ensures Outbound(mac, st, o, body).Err? ==>
              Outbound(mac, st, o, body).error ==
              if o.signingKey.Some? && BlankBytes(o.signingKey.value) then BlankSigningKey
              else CheckCredentials(st, o.credentials.value).error
  {
    if o.signingKey.Some? {
      BlankIff(o.signingKey.value);
    }
  }

  lemma BlankIff(key: seq<u8>)
    ensures BlankKey(key) <==> BlankBytes(key)
  {
  }

  // The whole list, in order.
  lemma BuiltList(mac: Mac, st: Settings, o: Options, body: string)
    requires Outbound(mac, st, o, body).Ok?
    ensures Outbound(mac, st, o, body).value ==
            (match o.idempotencyKey
             case None => []
             case Some(key) => if key == "" then [] else [("Idempotency-Key", key), ("X-Request-Id", key)])
            + (match o.signingKey
               case None => []
               case Some(key) => [("X-Anchor-Signature", "sha256=" + Hex.Print(mac(key, body)))])
            + (match o.trace
               case None => []
               case Some(Trace(id, span, sampled)) =>
                 [("traceparent", "00-" + id + "-" + span + if sampled then "-01" else "-00"),
                  ("X-Trace-Id", id), ("X-Span-Id", span)])
            + (match o.credentials
               case None => []
               case Some(Bearer(token)) => [("Authorization", "Bearer " + token)]
               case Some(Basic(username, password)) =>
                 [("Authorization", "Basic " + st.base64(username + ":" + password))]
               case Some(HeaderCredential(name, value)) => [(name, value)])
  {
    if o.trace.Some? {
      var t := o.trace.value;
      assert Traceparent(t) == "00-" + t.traceId + "-" + t.spanId + if t.sampled then "-01" else "-00";
    }
  }

  // ----- reading a traceparent -----

  predicate ValidIdOf(id: string, len: nat) {
    && |id| == len
    && (forall c <- id :: Hex.IsLowerHex(c))
    && (exists c <- id :: c != '0')
  }

  predicate ValidTrace(t: Trace) {
    ValidIdOf(t.traceId, 32) && ValidIdOf(t.spanId, 16)
  }

  datatype TraceError = MalformedTraceparent | UnsupportedVersion | InvalidTraceId | InvalidSpanId | InvalidFlags

  predicate GoodFlags(flags: string) {
    |flags| == 2 && forall c <- flags :: Hex.IsLowerHex(c)
  }

  function ParseTraceparent(header: string): Result<Trace, TraceError> {
    var parts := Split(Trim(header), '-');
    if |parts| != 4 then Err(MalformedTraceparent)
    else if parts[0] != VERSION then Err(UnsupportedVersion)
    else if !ValidIdOf(parts[1], 32) then Err(InvalidTraceId)
    else if !ValidIdOf(parts[2], 16) then Err(InvalidSpanId)
    else if !GoodFlags(parts[3]) then Err(InvalidFlags)
    else Ok(Trace(parts[1], parts[2], Hex.NibbleOf(parts[3][1]).value % 2 == 1))
  }

  lemma NoDash(s: string)
    requires forall c <- s :: Hex.IsLowerHex(c)
    ensures '-' !in s
  {
  }

  // A header is accepted as a trace exactly when, trimmed, it is the version, the two identifiers
  // and two flag digits joined by dashes, with the lowest flag bit telling whether it is sampled.
  ghost predicate Denotes(header: string, t: Trace, flags: string) {
    && Trim(header) == VERSION + "-" + t.traceId + "-" + t.spanId + "-" + flags
    && ValidTrace(t) && GoodFlags(flags)
    && t.sampled == (Hex.NibbleOf(flags[1]).value % 2 == 1)
  }

  lemma FourJoined(parts: seq<string>)
    requires |parts| == 4
    ensures Join(parts, '-') == parts[0] + "-" + parts[1] + "-" + parts[2] + "-" + parts[3]
  {
    assert Join(parts[3..], '-') == parts[3];
    assert parts[2..][1..] == parts[3..] && parts[1..][1..] == parts[2..];
    assert Join(parts[2..], '-') == parts[2] + "-" + parts[3];
    assert Join(parts[1..], '-') == parts[1] + "-" + (parts[2] + "-" + parts[3]);
  }

  lemma ParsesIff(header: string, t: Trace)
    ensures ParseTraceparent(header) == Ok(t) <==> exists flags :: Denotes(header, t, flags)
  {
    if ParseTraceparent(header) == Ok(t) {
      var parts := Split(Trim(header), '-');
      JoinSplit(Trim(header), '-');
      FourJoined(parts);
      assert Denotes(header, t, parts[3]);
    }
    if flags :| Denotes(header, t, flags) {
      var parts := [VERSION, t.traceId, t.spanId, flags];
      FourJoined(parts);
      NoDash(t.traceId);
      NoDash(t.spanId);
      NoDash(flags);
      SplitJoin(parts, '-');
    }
  }

  // Every valid trace that is sent is read back, whatever whitespace surrounds it.
  lemma TraceRoundTrip(t: Trace, before: string, after: string)
    requires ValidTrace(t) && forall c <- before + after :: IsWhitespace(c)
    ensures ParseTraceparent(before + Traceparent(t) + after) == Ok(t)
  {
    var value := Traceparent(t);
    assert Trimmed(value);
    TrimPadded(before, value, after);
    assert Denotes(before + value + after, t, Flags(t.sampled));
    ParsesIff(before + value + after, t);
  }

  // ----- what the receiver gets -----

  // When there is a signing key, the list carries a signature header that the receiver accepts.
  lemma BuiltSignatureVerifies(mac: Mac, st: Settings, o: Options, body: string) returns (i: nat)
    requires Outbound(mac, st, o, body).Ok? && o.signingKey.Some?
    ensures var headers := Outbound(mac, st, o, body).value;
            && i < |headers| && headers[i].0 == SIGNATURE_HEADER
            && Accepts(headers[i].1, mac(o.signingKey.value, body))
  {
    var key, idem := o.signingKey.value, IdempotencyHeaders(o.idempotencyKey);
    i := |idem|;
    var value := SignatureValue(mac, key, body);
    PrintedIsAccepted(mac, key, body, "", value, "");
    assert "" + value + "" == value;
  }

  ghost predicate Faithful(st: Settings) {
    && (forall a, b :: st.base64(a) == st.base64(b) ==> a == b)
    && (forall a :: Clean(st.base64(a)))
  }

  // Credentials are sent last, and without a control character in name or value.
  lemma SentCredentialIsClean(mac: Mac, st: Settings, o: Options, body: string)
    requires Faithful(st) && Outbound(mac, st, o, body).Ok? && o.credentials.Some?
    ensures var headers := Outbound(mac, st, o, body).value;
            && headers != [] && headers[|headers| - 1] == CredentialHeader(st, o.credentials.value)
            && Clean(headers[|headers| - 1].0) && Clean(headers[|headers| - 1].1)
  {
    CredentialHeaderClean(st, o.credentials.value);
  }

  lemma CredentialHeaderClean(st: Settings, cr: Credentials)
    requires Faithful(st) && CheckCredentials(st, cr).Ok?
    ensures Clean(CredentialHeader(st, cr).0) && Clean(CredentialHeader(st, cr).1)
  {
  }

  ghost predicate AllClean(headers: seq<Header>) {
    forall h <- headers :: Clean(h.0) && Clean(h.1)
  }

  lemma AllCleanConcat(a: seq<Header>, b: seq<Header>)
    ensures AllClean(a + b) <==> AllClean(a) && AllClean(b)
  {
    assert forall h <- a :: h in a + b;
    assert forall h <- b :: h in a + b;
  }

  lemma IdempotencyCleanIff(key: Option<string>)
    ensures AllClean(IdempotencyHeaders(key)) <==> key.None? || Clean(key.value)
  {
    if key.Some? && key.value != "" {
      assert IdempotencyHeaders(key)[0] == ("Idempotency-Key", key.value);
    }
  }

  lemma SignatureClean(mac: Mac, key: Option<seq<u8>>, body: string)
    ensures AllClean(SignatureHeaders(mac, key, body))
  {
  }

  lemma CleanConcat(a: string, b: string)
    requires Clean(a) && Clean(b)
    ensures Clean(a + b)
  {
  }

  lemma TraceparentClean(t: Trace)
    requires Clean(t.traceId) && Clean(t.spanId)
    ensures Clean(Traceparent(t))
  {
    CleanConcat("00-", t.traceId);
    CleanConcat("00-" + t.traceId, "-");
    CleanConcat("00-" + t.traceId + "-", t.spanId);
    CleanConcat("00-" + t.traceId + "-" + t.spanId, "-");
    CleanConcat("00-" + t.traceId + "-" + t.spanId + "-", Flags(t.sampled));
    assert VERSION + "-" == "00-";
  }

  lemma TraceClean(trace: Option<Trace>)
    requires trace.Some? ==> ValidTrace(trace.value)
    ensures AllClean(TraceHeaders(trace))
  {
    if trace.Some? {
      TraceparentClean(trace.value);
    }
  }

  // The one value that is never checked is the idempotency key: what is built is free of control
  // characters exactly when that key is.
  lemma BuiltCleanIff(mac: Mac, st: Settings, o: Options, body: string)
    requires Faithful(st) && Outbound(mac, st, o, body).Ok?
    requires o.trace.Some? ==> ValidTrace(o.trace.value)
    ensures AllClean(Outbound(mac, st, o, body).value) <==> o.idempotencyKey.None? || Clean(o.idempotencyKey.value)
  {
    var a, b := IdempotencyHeaders(o.idempotencyKey), SignatureHeaders(mac, o.signingKey, body);
    var c, d := TraceHeaders(o.trace), CredentialHeaders(st, o.credentials);
    AllCleanConcat(a, b);
    AllCleanConcat(a + b, c);
    AllCleanConcat(a + b + c, d);
    IdempotencyCleanIff(o.idempotencyKey);
    SignatureClean(mac, o.signingKey, body);
    TraceClean(o.trace);
    if o.credentials.Some? {
      CredentialHeaderClean(st, o.credentials.value);
    }
  }

  // Credentials that pass are told apart by their header, once a credential may not name the
  // authorization header itself: the colon after a user name that has none is where it ends.
  lemma CredentialsRecovered(st: Settings, a: Credentials, b: Credentials)
    requires Faithful(st) && "Authorization" in st.protected
    requires CheckCredentials(st, a).Ok? && CheckCredentials(st, b).Ok?
    requires CredentialHeader(st, a) == CredentialHeader(st, b)
    ensures a == b
  {
    assert EqIgnoreCase("Authorization", "Authorization");
    var value := CredentialHeader(st, a).1;
    match (a, b)
    case (Bearer(t), Bearer(u)) => assert t == value[7..] == u;
    case (Basic(x, p), Basic(y, q)) =>
      assert st.base64(x + ":" + p) == value[6..] == st.base64(y + ":" + q);
      SplitAtColon(x, p);
      SplitAtColon(y, q);
    case (Bearer(t), Basic(x, p)) => SchemesDiffer(t, st.base64(x + ":" + p));
    case (Basic(x, p), Bearer(t)) => SchemesDiffer(t, st.base64(x + ":" + p));
    case (_, _) =>
  }

  lemma SchemesDiffer(token: string, encoded: string)
    ensures "Bearer " + token != "Basic " + encoded
  {
    assert ("Bearer " + token)[1] != ("Basic " + encoded)[1];
  }

  lemma SplitAtColon(username: string, password: string)
    requires ':' !in username
    ensures Before(username + ":" + password, {':'}) == username
    ensures (username + ":" + password)[|username| + 1..] == password
  {
    assert username + ":" + password == username + (":" + password);
    BeforeIs(username, ":" + password, {':'});
  }
}
