// The correlation context, its header printer and its header parser.

module Correlation {
  import opened Words
  import opened Text
  import Decimal
  import Hex

  datatype Context = Context(
    id: string, origin: string, current: string, hops: u32, baggage: map<string, string>)

  datatype Error =
    | MissingCorrelationId
    | InvalidCorrelationId(value: string)
    | InvalidHopCount(value: string)

  type Header = (string, string)

  const ID_HEADER := "X-Correlation-Id"
  const ORIGIN_HEADER := "X-Origin-Service"
  const HOP_HEADER := "X-Hop-Count"
  const BAGGAGE_HEADER := "X-Baggage"

  predicate ValidId(id: string) {
    Utf8Len(id) == 32 && forall c <- id :: Hex.IsLowerHex(c)
  }

  // ----- constructors and hops -----

  // The identifier is the first half of a 32-byte digest of the seed, in hexadecimal.
  function New(service: string, digest: seq<u8>): Context
    requires |digest| == 32
  {
    Context(Hex.Print(digest[..16]), service, service, 0, map[])
  }

  function WithId(service: string, id: string): Result<Context, Error> {
    if ValidId(id) then Ok(Context(id, service, service, 0, map[])) else Err(InvalidCorrelationId(id))
  }

  function SetBaggage(c: Context, key: string, value: string): Context {
    c.(baggage := c.baggage[key := value])
  }

  function NextHop(c: Context, service: string): Context {
    c.(current := service, hops := SatAdd32(c.hops, 1))
  }

  // A derived identifier is one that a gateway could have supplied, and it determines the half
  // of the digest it was taken from.
  lemma DerivedIdIsValid(service: string, digest: seq<u8>)
    requires |digest| == 32
    ensures var c := New(service, digest);
            && WithId(service, c.id) == Ok(c)
            && Hex.AllHex(c.id) && Hex.Decode(c.id) == digest[..16]
            && c.origin == c.current == service && c.hops == 0 && c.baggage == map[]
  {
    Hex.DecodePrint(digest[..16]);
    assert AllAscii(New(service, digest).id);
  }

  // ----- printing -----

  function Pair(key: string, value: string): string {
    key + "=" + value
  }

  function Get(m: map<string, string>, key: string): string {
    if key in m then m[key] else ""
  }

  function Pairs(m: map<string, string>, keys: seq<string>): (texts: seq<string>)
    ensures |texts| == |keys|
  {
    seq(|keys|, i requires 0 <= i < |keys| => Pair(keys[i], Get(m, keys[i])))
  }

  // The keys of a map in ascending order, as an ordered map lists them.
  ghost predicate Listing(keys: seq<string>, m: map<string, string>) {
    && (forall k <- keys :: k in m)
    && (forall k <- m.Keys :: k in keys)
    && (forall i, j :: 0 <= i < j < |keys| ==> StrLess(keys[i], keys[j]))
  }

  ghost predicate PrintedAs(c: Context, headers: seq<Header>, keys: seq<string>)
    requires Listing(keys, c.baggage)
  {
    headers ==
      [(ID_HEADER, c.id), (ORIGIN_HEADER, c.origin), (HOP_HEADER, Decimal.Print(c.hops))]
      + if c.baggage == map[] then [] else
          assert keys != [] by { assert c.baggage.Keys != {}; }
          [(BAGGAGE_HEADER, Join(Pairs(c.baggage, keys), ','))]
  }

  // What `to_headers` produces for a context.
  ghost predicate Prints(c: Context, headers: seq<Header>) {
    exists keys :: Listing(keys, c.baggage) && PrintedAs(c, headers, keys)
  }

  method ToHeaders(c: Context) returns (headers: seq<Header>)
    ensures Prints(c, headers)
    ensures [("X-Correlation-Id", c.id), ("X-Origin-Service", c.origin), ("X-Hop-Count", Decimal.Print(c.hops))]
            <= headers
    ensures if c.baggage == map[] then |headers| == 3 else |headers| == 4 && headers[3].0 == "X-Baggage"
  {
    headers := [];
    headers := headers + [(ID_HEADER, c.id)];
    headers := headers + [(ORIGIN_HEADER, c.origin)];
    headers := headers + [(HOP_HEADER, Decimal.Print(c.hops))];
    var keys := SortedKeys(c.baggage);
    if c.baggage != map[] {
      assert c.baggage.Keys != {};
      headers := headers + [(BAGGAGE_HEADER, Join(Pairs(c.baggage, keys), ','))];
    }
    assert PrintedAs(c, headers, keys);
  }

  // In-order traversal: repeatedly the least key not listed yet.
  method SortedKeys(m: map<string, string>) returns (keys: seq<string>)
    ensures Listing(keys, m)
  {
    keys := [];
    var rest := m.Keys;
    while rest != {}
      invariant rest <= m.Keys
      invariant forall k <- keys :: k in m
      invariant forall k <- m.Keys :: k in keys || k in rest
      invariant forall k <- keys, r <- rest :: StrLess(k, r)
      invariant forall i, j :: 0 <= i < j < |keys| ==> StrLess(keys[i], keys[j])
      decreases |rest|
    {
      var least := Least(rest);
      keys := keys + [least];
      rest := rest - {least};
    }
  }

  method Least(s: set<string>) returns (least: string)
    requires s != {}
    ensures least in s && forall k <- s - {least} :: StrLess(least, k)
  {
    least :| least in s;
    var rest := s - {least};
    while rest != {}
      invariant rest <= s && least in s && least !in rest
      invariant forall k <- s - rest :: k == least || StrLess(least, k)
      decreases |rest|
    {
      var k :| k in rest;
      StrOrder(k, least);
      if StrLess(k, least) {
        forall o | o in s - rest && o != least ensures StrLess(k, o) {
          StrTransitive(k, least, o);
        }
        least := k;
      }
      rest := rest - {k};
    }
  }

  // ----- parsing -----

  // One baggage item: what precedes and follows its first equals sign, trimmed.
  function ParsePair(text: string): Option<(string, string)> {
    var pair := Trim(text);
    match IndexOf(pair, {'='})
    case None => None
    case Some(pos) =>
      var k, v := Trim(pair[..pos]), Trim(pair[pos + 1..]);
      if k == "" then None else Some((k, v))
  }

  function AddPair(m: map<string, string>, text: string): map<string, string> {
    match ParsePair(text)
    case None => m
    case Some((k, v)) => m[k := v]
  }

  function AddPairs(m: map<string, string>, texts: seq<string>): map<string, string> {
    if texts == [] then m
    else AddPair(AddPairs(m, texts[..|texts| - 1]), texts[|texts| - 1])
  }

  datatype Scan = Scan(id: Option<string>, origin: Option<string>, hops: u32, baggage: map<string, string>)

  const EMPTY_SCAN := Scan(None, None, 0, map[])

  predicate Named(h: Header, name: string) {
    EqIgnoreCase(h.0, name)
  }

  function ScanHeader(s: Scan, h: Header): Result<Scan, Error> {
    if Named(h, ID_HEADER) then Ok(s.(id := Some(h.1)))
    else if Named(h, ORIGIN_HEADER) then Ok(s.(origin := Some(h.1)))
    else if Named(h, HOP_HEADER) then
      match Decimal.ParseU32(h.1)
      case None => Err(InvalidHopCount(h.1))
      case Some(n) => Ok(s.(hops := n))
    else if Named(h, BAGGAGE_HEADER) then Ok(s.(baggage := AddPairs(s.baggage, Split(h.1, ','))))
    else Ok(s)
  }

  function ScanHeaders(hs: seq<Header>): Result<Scan, Error> {
    if hs == [] then Ok(EMPTY_SCAN) else
      match ScanHeaders(hs[..|hs| - 1])
      case Err(e) => Err(e)
      case Ok(s) => ScanHeader(s, hs[|hs| - 1])
  }

  function FromHeaders(hs: seq<Header>): Result<Context, Error> {
    match ScanHeaders(hs)
    case Err(e) => Err(e)
    case Ok(s) =>
      if s.id.None? then Err(MissingCorrelationId)
      else if !ValidId(s.id.value) then Err(InvalidCorrelationId(s.id.value))
      else
        var origin := if s.origin.Some? then s.origin.value else "";
        Ok(Context(s.id.value, origin, origin, s.hops, s.baggage))
  }

  lemma {:induction false} ScanErrorSticks(hs: seq<Header>, n: nat)
    requires n <= |hs| && ScanHeaders(hs[..n]).Err?
    ensures ScanHeaders(hs) == ScanHeaders(hs[..n])
  {
    if n < |hs| {
      assert hs[..|hs| - 1][..n] == hs[..n];
      ScanErrorSticks(hs[..|hs| - 1], n);
    } else {
      assert hs[..n] == hs;
    }
  }

  // The loop over headers, with its early return on a bad hop count.
  method ParseHeaders(hs: seq<Header>) returns (r: Result<Context, Error>)
    ensures r == FromHeaders(hs)
  {
    var id, origin: Option<string> := None, None;
    var hops: u32 := 0;
    var baggage: map<string, string> := map[];
    for i := 0 to |hs|
      invariant ScanHeaders(hs[..i]) == Ok(Scan(id, origin, hops, baggage))
    {
      assert hs[..i + 1][..i] == hs[..i];
      var (name, value) := hs[i];
      if EqIgnoreCase(name, ID_HEADER) {
        id := Some(value);
      } else if EqIgnoreCase(name, ORIGIN_HEADER) {
        origin := Some(value);
      } else if EqIgnoreCase(name, HOP_HEADER) {
        var n := Decimal.ParseU32(value);
        if n.None? {
          ScanErrorSticks(hs, i + 1);
          return Err(InvalidHopCount(value));
        }
        hops := n.value;
      } else if EqIgnoreCase(name, BAGGAGE_HEADER) {
        baggage := ParseBaggage(baggage, value);
      }
    }
    assert hs[..|hs|] == hs;
    if id.None? {
      return Err(MissingCorrelationId);
    }
    if !ValidId(id.value) {
      return Err(InvalidCorrelationId(id.value));
    }
    var o := if origin.Some? then origin.value else "";
    return Ok(Context(id.value, o, o, hops, baggage));
  }

  method ParseBaggage(start: map<string, string>, value: string) returns (baggage: map<string, string>)
    ensures baggage == AddPairs(start, Split(value, ','))
  {
    baggage := start;
    var texts := Split(value, ',');
    for i := 0 to |texts|
      invariant baggage == AddPairs(start, texts[..i])
    {
      assert texts[..i + 1][..i] == texts[..i];
      baggage := InsertPair(baggage, texts[i]);
    }
    assert texts[..|texts|] == texts;
  }

  method InsertPair(m: map<string, string>, text: string) returns (baggage: map<string, string>)
    ensures baggage == AddPair(m, text)
  {
    baggage := m;
    var pair := Trim(text);
    var pos := IndexOf(pair, {'='});
    if pos.Some? {
      var k, v := Trim(pair[..pos.value]), Trim(pair[pos.value + 1..]);
      if k != "" {
        baggage := baggage[k := v];
      }
    }
  }
}
