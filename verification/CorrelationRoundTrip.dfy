// Printing a context and parsing it back: exactly which contexts survive, that header order
// and the case of header names do not matter, and what a chain of hops preserves.

module CorrelationRoundTrip {
  import opened Words
  import opened Text
  import opened Correlation
  import Decimal

  // ----- which baggage survives -----

  predicate SafeKey(k: string) {
    k != "" && ',' !in k && '=' !in k && Trimmed(k)
  }

  predicate SafeValue(v: string) {
    ',' !in v && Trimmed(v)
  }

  ghost predicate SafeBaggage(m: map<string, string>) {
    forall k <- m.Keys :: SafeKey(k) && SafeValue(m[k])
  }

  // The context a receiver starts from.
  function Received(c: Context): Context {
    c.(current := c.origin)
  }

  // ----- the parser sees only the values of each header name -----

  // The values carried under a name in any ASCII case, in order.
  function ValuesOf(hs: seq<Header>, name: string): seq<string> {
    if hs == [] then [] else WithValue(ValuesOf(hs[..|hs| - 1], name), hs[|hs| - 1], name)
  }

  function WithValue(values: seq<string>, h: Header, name: string): seq<string> {
    if SameText(h.0, name) then values + [h.1] else values
  }

  function Last(values: seq<string>): Option<string> {
    if values == [] then None else Some(values[|values| - 1])
  }

  function ScanHops(values: seq<string>): Result<u32, Error> {
    if values == [] then Ok(0) else
      match ScanHops(values[..|values| - 1])
      case Err(e) => Err(e)
      case Ok(_) =>
        var v := values[|values| - 1];
        match Decimal.ParseU32(v)
        case None => Err(InvalidHopCount(v))
        case Some(n) => Ok(n)
  }

  function ScanBaggage(values: seq<string>): map<string, string> {
    if values == [] then map[]
    else AddPairs(ScanBaggage(values[..|values| - 1]), Split(values[|values| - 1], ','))
  }

  function Assemble(ids: seq<string>, origins: seq<string>, hops: seq<string>, baggage: seq<string>)
    : Result<Scan, Error>
  {
    match ScanHops(hops)
    case Err(e) => Err(e)
    case Ok(n) => Ok(Scan(Last(ids), Last(origins), n, ScanBaggage(baggage)))
  }

  lemma NamesDiffer(h: Header)
    ensures SameText(h.0, ID_HEADER) ==>
              !SameText(h.0, ORIGIN_HEADER) && !SameText(h.0, HOP_HEADER) && !SameText(h.0, BAGGAGE_HEADER)
    ensures SameText(h.0, ORIGIN_HEADER) ==> !SameText(h.0, HOP_HEADER) && !SameText(h.0, BAGGAGE_HEADER)
    ensures SameText(h.0, HOP_HEADER) ==> !SameText(h.0, BAGGAGE_HEADER)
  {
    assert |ID_HEADER| == |ORIGIN_HEADER| == 16 && |HOP_HEADER| == 11 && |BAGGAGE_HEADER| == 9;
    assert ID_HEADER[2] == 'C' && ORIGIN_HEADER[2] == 'O';
  }

  lemma NamedIff(h: Header)
    ensures Named(h, ID_HEADER) <==> SameText(h.0, ID_HEADER)
    ensures Named(h, ORIGIN_HEADER) <==> SameText(h.0, ORIGIN_HEADER)
    ensures Named(h, HOP_HEADER) <==> SameText(h.0, HOP_HEADER)
    ensures Named(h, BAGGAGE_HEADER) <==> SameText(h.0, BAGGAGE_HEADER)
  {
    EqIgnoreCaseIff(h.0, ID_HEADER);
    EqIgnoreCaseIff(h.0, ORIGIN_HEADER);
    EqIgnoreCaseIff(h.0, HOP_HEADER);
    EqIgnoreCaseIff(h.0, BAGGAGE_HEADER);
  }

  lemma ScanStep(ids: seq<string>, origins: seq<string>, hops: seq<string>, baggage: seq<string>, h: Header)
    requires Assemble(ids, origins, hops, baggage).Ok?
    ensures ScanHeader(Assemble(ids, origins, hops, baggage).value, h) ==
            Assemble(WithValue(ids, h, ID_HEADER), WithValue(origins, h, ORIGIN_HEADER),
                     WithValue(hops, h, HOP_HEADER), WithValue(baggage, h, BAGGAGE_HEADER))
  {
    NamesDiffer(h);
    NamedIff(h);
    assert (ids + [h.1])[..|ids|] == ids && (origins + [h.1])[..|origins|] == origins;
    assert (hops + [h.1])[..|hops|] == hops && (baggage + [h.1])[..|baggage|] == baggage;
  }

  lemma ScanErrorStays(ids: seq<string>, origins: seq<string>, hops: seq<string>, baggage: seq<string>, h: Header)
    requires Assemble(ids, origins, hops, baggage).Err?
    ensures Assemble(WithValue(ids, h, ID_HEADER), WithValue(origins, h, ORIGIN_HEADER),
                     WithValue(hops, h, HOP_HEADER), WithValue(baggage, h, BAGGAGE_HEADER))
            == Assemble(ids, origins, hops, baggage)
  {
    assert (hops + [h.1])[..|hops|] == hops;
  }

  // Parsing is a function of the values carried under each of the four names, in order.
  lemma {:induction false} ScanByName(hs: seq<Header>)
    ensures ScanHeaders(hs) ==
            Assemble(ValuesOf(hs, ID_HEADER), ValuesOf(hs, ORIGIN_HEADER),
                     ValuesOf(hs, HOP_HEADER), ValuesOf(hs, BAGGAGE_HEADER))
  {
    if hs != [] {
      var before, h := hs[..|hs| - 1], hs[|hs| - 1];
      ScanByName(before);
      var ids, origins := ValuesOf(before, ID_HEADER), ValuesOf(before, ORIGIN_HEADER);
      var hops, baggage := ValuesOf(before, HOP_HEADER), ValuesOf(before, BAGGAGE_HEADER);
      if Assemble(ids, origins, hops, baggage).Ok? {
        ScanStep(ids, origins, hops, baggage, h);
      } else {
        ScanErrorStays(ids, origins, hops, baggage, h);
      }
    }
  }

  // Headers that agree name by name parse alike, whatever else surrounds them.
  lemma SameValuesParseAlike(hs: seq<Header>, other: seq<Header>)
    requires ValuesOf(hs, ID_HEADER) == ValuesOf(other, ID_HEADER)
    requires ValuesOf(hs, ORIGIN_HEADER) == ValuesOf(other, ORIGIN_HEADER)
    requires ValuesOf(hs, HOP_HEADER) == ValuesOf(other, HOP_HEADER)
    requires ValuesOf(hs, BAGGAGE_HEADER) == ValuesOf(other, BAGGAGE_HEADER)
    ensures FromHeaders(hs) == FromHeaders(other)
  {
    ScanByName(hs);
    ScanByName(other);
  }

  // ----- everything parsed is well formed -----

  lemma ParsePairSafe(text: string)
    requires ',' !in text
    ensures var r := ParsePair(text); r.Some? ==> SafeKey(r.value.0) && SafeValue(r.value.1)
  {
    var pair := Trim(text);
    TrimKeepsOut(text, {','});
    var pos := IndexOf(pair, {'='});
    if pos.Some? {
      var before, after := pair[..pos.value], pair[pos.value + 1..];
      IndexOfIsFirst(pair, {'='});
      assert '=' !in before;
      TrimKeepsOut(before, {',', '='});
      TrimKeepsOut(after, {','});
      TrimIsTrimmed(before);
      TrimIsTrimmed(after);
    }
  }

  lemma TrimKeepsOut(s: string, banned: set<char>)
    requires forall c <- banned :: c !in s
    ensures forall c <- banned :: c !in Trim(s)
  {
    var before, after := TrimParts(s);
    assert forall c <- Trim(s) :: c in s;
  }

  lemma {:induction false} AddPairsSafe(m: map<string, string>, texts: seq<string>)
    requires SafeBaggage(m)
    requires forall t <- texts :: ',' !in t
    ensures SafeBaggage(AddPairs(m, texts))
  {
    if texts != [] {
      AddPairsSafe(m, texts[..|texts| - 1]);
      ParsePairSafe(texts[|texts| - 1]);
    }
  }

  lemma {:induction false} ScanBaggageSafe(values: seq<string>)
    ensures SafeBaggage(ScanBaggage(values))
  {
    if values != [] {
      ScanBaggageSafe(values[..|values| - 1]);
      var v := values[|values| - 1];
      SplitParts(v, ',');
      AddPairsSafe(ScanBaggage(values[..|values| - 1]), Split(v, ','));
    }
  }

  lemma ParsedIsWellFormed(hs: seq<Header>)
    ensures var r := FromHeaders(hs);
            r.Ok? ==> ValidId(r.value.id) && SafeBaggage(r.value.baggage) && r.value == Received(r.value)
  {
    ScanByName(hs);
    ScanBaggageSafe(ValuesOf(hs, BAGGAGE_HEADER));
  }

  // ----- safe baggage survives -----

  lemma PairParses(k: string, v: string)
    requires SafeKey(k) && SafeValue(v)
    ensures ParsePair(Pair(k, v)) == Some((k, v))
  {
    var pair := Pair(k, v);
    assert pair[0] == k[0];
    assert pair[|pair| - 1] == if v == "" then '=' else v[|v| - 1];
    assert Trim(pair) == pair;
    PairSplits(k, v);
    assert Trim(k) == k && Trim(v) == v;
  }

  lemma PairSplits(k: string, v: string)
    requires '=' !in k
    ensures IndexOf(Pair(k, v), {'='}) == Some(|k|)
    ensures Pair(k, v)[..|k|] == k && Pair(k, v)[|k| + 1..] == v
  {
    IndexOfIs(k, "=" + v, {'='});
    assert Pair(k, v) == k + ("=" + v);
  }

  function Restrict(m: map<string, string>, keys: seq<string>): map<string, string> {
    map k | k in keys :: Get(m, k)
  }

  function Items(m: map<string, string>, keys: seq<string>): (items: seq<(string, string)>)
    ensures |items| == |keys|
  {
    seq(|keys|, i requires 0 <= i < |keys| => (keys[i], Get(m, keys[i])))
  }

  function Merge(items: seq<(string, string)>): map<string, string> {
    if items == [] then map[] else
      var (k, v) := items[|items| - 1];
      Merge(items[..|items| - 1])[k := v]
  }

  lemma {:induction false} AddPairsIsMerge(texts: seq<string>, items: seq<(string, string)>)
    requires |texts| == |items|
    requires forall i :: 0 <= i < |texts| ==> ParsePair(texts[i]) == Some(items[i])
    ensures AddPairs(map[], texts) == Merge(items)
  {
    if texts != [] {
      AddPairsIsMerge(texts[..|texts| - 1], items[..|items| - 1]);
    }
  }

  lemma {:induction false} MergeIsRestrict(m: map<string, string>, keys: seq<string>)
    ensures Merge(Items(m, keys)) == Restrict(m, keys)
  {
    if keys != [] {
      var before, last := keys[..|keys| - 1], keys[|keys| - 1];
      MergeIsRestrict(m, before);
      assert Items(m, keys)[..|keys| - 1] == Items(m, before);
      assert keys == before + [last];
    }
  }

  lemma PairsParse(m: map<string, string>, keys: seq<string>)
    requires SafeBaggage(m) && forall k <- keys :: k in m
    ensures forall p <- Pairs(m, keys) :: ',' !in p
    ensures AddPairs(map[], Pairs(m, keys)) == Restrict(m, keys)
  {
    var texts := Pairs(m, keys);
    forall i | 0 <= i < |keys|
      ensures ',' !in texts[i] && ParsePair(texts[i]) == Some(Items(m, keys)[i])
    {
      assert SafeKey(keys[i]) && SafeValue(m[keys[i]]);
      PairParses(keys[i], m[keys[i]]);
    }
    AddPairsIsMerge(texts, Items(m, keys));
    MergeIsRestrict(m, keys);
  }

  lemma BaggageParses(m: map<string, string>, keys: seq<string>)
    requires SafeBaggage(m) && Listing(keys, m) && keys != []
    ensures AddPairs(map[], Split(Join(Pairs(m, keys), ','), ',')) == m
  {
    PairsParse(m, keys);
    SplitJoin(Pairs(m, keys), ',');
    RestrictToListing(m, keys);
  }

  lemma RestrictToListing(m: map<string, string>, keys: seq<string>)
    requires Listing(keys, m)
    ensures Restrict(m, keys) == m
  {
  }

  lemma ValuesConcat(a: seq<Header>, h: Header, name: string)
    ensures ValuesOf(a + [h], name) == WithValue(ValuesOf(a, name), h, name)
  {
    assert (a + [h])[..|a|] == a;
  }

  lemma ThreeValues(a: Header, b: Header, c: Header, name: string)
    ensures ValuesOf([a, b, c], name) == WithValue(WithValue(WithValue([], a, name), b, name), c, name)
  {
    ValuesConcat([], a, name);
    ValuesConcat([a], b, name);
    ValuesConcat([a, b], c, name);
    assert [a, b] + [c] == [a, b, c] && [a] + [b] == [a, b] && [] + [a] == [a];
  }

  // Every name is its own and no other.
  lemma NamesApart(name: string, other: string)
    requires name in {ID_HEADER, ORIGIN_HEADER, HOP_HEADER, BAGGAGE_HEADER}
    requires other in {ID_HEADER, ORIGIN_HEADER, HOP_HEADER, BAGGAGE_HEADER}
    ensures SameText(name, other) <==> name == other
  {
    NamesDiffer((name, ""));
    NamesDiffer((other, ""));
  }

  lemma PrintedThree(id: string, origin: string, hops: string)
    ensures var hs := [(ID_HEADER, id), (ORIGIN_HEADER, origin), (HOP_HEADER, hops)];
            && ValuesOf(hs, ID_HEADER) == [id] && ValuesOf(hs, ORIGIN_HEADER) == [origin]
            && ValuesOf(hs, HOP_HEADER) == [hops] && ValuesOf(hs, BAGGAGE_HEADER) == []
  {
    forall name | name in {ID_HEADER, ORIGIN_HEADER, HOP_HEADER, BAGGAGE_HEADER}
      ensures ValuesOf([(ID_HEADER, id), (ORIGIN_HEADER, origin), (HOP_HEADER, hops)], name) ==
              if name == ID_HEADER then [id] else if name == ORIGIN_HEADER then [origin]
              else if name == HOP_HEADER then [hops] else []
    {
      ThreeValues((ID_HEADER, id), (ORIGIN_HEADER, origin), (HOP_HEADER, hops), name);
      NamesApart(ID_HEADER, name);
      NamesApart(ORIGIN_HEADER, name);
      NamesApart(HOP_HEADER, name);
    }
  }

  lemma PrintedValues(c: Context, hs: seq<Header>, keys: seq<string>)
    requires Listing(keys, c.baggage) && PrintedAs(c, hs, keys)
    ensures ValuesOf(hs, ID_HEADER) == [c.id]
    ensures ValuesOf(hs, ORIGIN_HEADER) == [c.origin]
    ensures ValuesOf(hs, HOP_HEADER) == [Decimal.Print(c.hops)]
    ensures c.baggage == map[] ==> ValuesOf(hs, BAGGAGE_HEADER) == []
    ensures c.baggage != map[] ==> keys != [] && ValuesOf(hs, BAGGAGE_HEADER) == [Join(Pairs(c.baggage, keys), ',')]
  {
    var three := [(ID_HEADER, c.id), (ORIGIN_HEADER, c.origin), (HOP_HEADER, Decimal.Print(c.hops))];
    PrintedThree(c.id, c.origin, Decimal.Print(c.hops));
    if c.baggage == map[] {
      assert hs == three;
    } else {
      assert c.baggage.Keys != {};
      var last := (BAGGAGE_HEADER, Join(Pairs(c.baggage, keys), ','));
      assert hs == three + [last];
      forall name | name in {ID_HEADER, ORIGIN_HEADER, HOP_HEADER, BAGGAGE_HEADER}
        ensures ValuesOf(hs, name) == WithValue(ValuesOf(three, name), last, name)
      {
        ValuesConcat(three, last, name);
      }
      NamesApart(BAGGAGE_HEADER, ID_HEADER);
      NamesApart(BAGGAGE_HEADER, ORIGIN_HEADER);
      NamesApart(BAGGAGE_HEADER, HOP_HEADER);
    }
  }

  lemma ScanOne(v: string)
    ensures ScanHops([v]) == match Decimal.ParseU32(v) case None => Err(InvalidHopCount(v)) case Some(n) => Ok(n)
    ensures ScanBaggage([v]) == AddPairs(map[], Split(v, ','))
  {
    assert [v][..0] == [];
  }

  lemma AssemblePrinted(c: Context, values: seq<string>)
    requires ScanBaggage(values) == c.baggage
    ensures Assemble([c.id], [c.origin], [Decimal.Print(c.hops)], values)
            == Ok(Scan(Some(c.id), Some(c.origin), c.hops, c.baggage))
  {
    Decimal.ParsePrint(c.hops);
    ScanOne(Decimal.Print(c.hops));
  }

  lemma PrintedBaggage(c: Context, hs: seq<Header>, keys: seq<string>)
    requires Listing(keys, c.baggage) && PrintedAs(c, hs, keys) && SafeBaggage(c.baggage)
    ensures ScanBaggage(ValuesOf(hs, BAGGAGE_HEADER)) == c.baggage
  {
    PrintedValues(c, hs, keys);
    if c.baggage != map[] {
      ScanOne(Join(Pairs(c.baggage, keys), ','));
      BaggageParses(c.baggage, keys);
    }
  }

  lemma PrintedScan(c: Context, hs: seq<Header>, keys: seq<string>)
    requires Listing(keys, c.baggage) && PrintedAs(c, hs, keys) && SafeBaggage(c.baggage)
    ensures ScanHeaders(hs) == Ok(Scan(Some(c.id), Some(c.origin), c.hops, c.baggage))
  {
    PrintedBaggage(c, hs, keys);
    AssemblePrinted(c, ValuesOf(hs, BAGGAGE_HEADER));
    PrintedValues(c, hs, keys);
    ScanByName(hs);
  }

  // A printed context parses back, with the current service reset to the origin, exactly when
  // its identifier is valid and its baggage is safe.
  lemma RoundTripIff(c: Context, hs: seq<Header>)
    requires Prints(c, hs)
    ensures FromHeaders(hs) == Ok(Received(c)) <==> ValidId(c.id) && SafeBaggage(c.baggage)
  {
    ParsedIsWellFormed(hs);
    if SafeBaggage(c.baggage) {
      var keys :| Listing(keys, c.baggage) && PrintedAs(c, hs, keys);
      PrintedScan(c, hs, keys);
    }
  }

  // Adding a baggage entry to a context that survives keeps it so exactly when the entry is safe.
  lemma AddedBaggageSurvivesIff(c: Context, key: string, value: string, hs: seq<Header>)
    requires ValidId(c.id) && SafeBaggage(c.baggage) && Prints(SetBaggage(c, key, value), hs)
    ensures FromHeaders(hs) == Ok(Received(SetBaggage(c, key, value))) <==> SafeKey(key) && SafeValue(value)
  {
    RoundTripIff(SetBaggage(c, key, value), hs);
    var m := c.baggage[key := value];
    assert key in m && m[key] == value;
    assert forall k <- m.Keys :: k == key || (k in c.baggage && m[k] == c.baggage[k]);
  }

  // ----- order and case -----

  // How many headers carry this value under this name in any ASCII case.
  function Carried(hs: seq<Header>, name: string, v: string): nat {
    if hs == [] then 0 else
      var h := hs[|hs| - 1];
      Carried(hs[..|hs| - 1], name, v) + if SameText(h.0, name) && h.1 == v then 1 else 0
  }

  // `other` carries the same headers as hs under the four names: in any order, with the names
  // in any case, and possibly among headers with other names.
  ghost predicate SameRelevantHeaders(hs: seq<Header>, other: seq<Header>) {
    forall name, v | name in {ID_HEADER, ORIGIN_HEADER, HOP_HEADER, BAGGAGE_HEADER} ::
      Carried(hs, name, v) == Carried(other, name, v)
  }

  lemma {:induction false} ValuesCount(hs: seq<Header>, name: string, v: string)
    ensures multiset(ValuesOf(hs, name))[v] == Carried(hs, name, v)
  {
    if hs != [] {
      ValuesCount(hs[..|hs| - 1], name, v);
    }
  }

  lemma SingletonByCount(a: seq<string>, b: seq<string>)
    requires |a| <= 1 && multiset(a) == multiset(b)
    ensures a == b
  {
    assert |b| == |multiset(b)| == |multiset(a)| == |a|;
    if |a| == 1 {
      assert a[0] in multiset(b);
    }
  }

  lemma ReorderedParsesAlike(hs: seq<Header>, other: seq<Header>)
    requires SameRelevantHeaders(hs, other)
    requires forall name | name in {ID_HEADER, ORIGIN_HEADER, HOP_HEADER, BAGGAGE_HEADER} :: |ValuesOf(hs, name)| <= 1
    ensures FromHeaders(hs) == FromHeaders(other)
  {
    forall name | name in {ID_HEADER, ORIGIN_HEADER, HOP_HEADER, BAGGAGE_HEADER}
      ensures ValuesOf(hs, name) == ValuesOf(other, name)
    {
      forall v ensures multiset(ValuesOf(hs, name))[v] == multiset(ValuesOf(other, name))[v] {
        ValuesCount(hs, name, v);
        ValuesCount(other, name, v);
      }
      SingletonByCount(ValuesOf(hs, name), ValuesOf(other, name));
    }
    SameValuesParseAlike(hs, other);
  }

  lemma RoundTripAnyOrder(c: Context, hs: seq<Header>, other: seq<Header>)
    requires Prints(c, hs) && SameRelevantHeaders(hs, other)
    ensures FromHeaders(other) == FromHeaders(hs)
    ensures FromHeaders(other) == Ok(Received(c)) <==> ValidId(c.id) && SafeBaggage(c.baggage)
  {
    var keys :| Listing(keys, c.baggage) && PrintedAs(c, hs, keys);
    PrintedValues(c, hs, keys);
    ReorderedParsesAlike(hs, other);
    RoundTripIff(c, hs);
  }

  // ----- a chain of services -----

  // One service prints its context, the next parses it and stamps its own name.
  ghost predicate Handover(a: Context, b: Context, service: string) {
    exists hs :: Prints(a, hs) && FromHeaders(hs).Ok? && b == NextHop(FromHeaders(hs).value, service)
  }

  // What the last of a chain of services holds, when the first holds a.
  ghost predicate Delivers(a: Context, services: seq<string>, b: Context)
    decreases |services|
  {
    if services == [] then a == b
    else exists mid :: Handover(a, mid, services[0]) && Delivers(mid, services[1..], b)
  }

  ghost predicate Sound(c: Context) {
    ValidId(c.id) && SafeBaggage(c.baggage)
  }

  lemma HandoverIs(a: Context, b: Context, service: string)
    requires Sound(a) && Handover(a, b, service)
    ensures Sound(b) && b == a.(current := service, hops := SatAdd32(a.hops, 1))
  {
    var hs :| Prints(a, hs) && FromHeaders(hs).Ok? && b == NextHop(FromHeaders(hs).value, service);
    RoundTripIff(a, hs);
  }

  // The context after a number of handovers, the last of them to the last service.
  function Relayed(a: Context, services: seq<string>): Context {
    if services == [] then a
    else a.(hops := Min(a.hops + |services|, U32_MAX), current := services[|services| - 1])
  }

  lemma RelayedStep(a: Context, services: seq<string>)
    requires services != []
    ensures Relayed(a.(current := services[0], hops := SatAdd32(a.hops, 1)), services[1..]) == Relayed(a, services)
  {
  }

  lemma {:induction false} LeastExists(s: set<string>) returns (least: string)
    requires s != {}
    ensures least in s && forall k <- s - {least} :: StrLess(least, k)
    decreases |s|
  {
    var some :| some in s;
    least := some;
    if s != {some} {
      var rest := s - {some};
      assert rest != {};
      var k := LeastExists(rest);
      StrOrder(some, k);
      if StrLess(k, some) {
        least := k;
      } else {
        forall o | o in rest && o != k ensures StrLess(some, o) {
          StrTransitive(some, k, o);
        }
      }
    }
  }

  lemma {:induction false} ListingExists(m: map<string, string>) returns (keys: seq<string>)
    ensures Listing(keys, m)
    decreases |m|
  {
    keys := [];
    if m.Keys != {} {
      var least := LeastExists(m.Keys);
      var rest := m - {least};
      assert rest.Keys == m.Keys - {least};
      var more := ListingExists(rest);
      keys := [least] + more;
      LeastFirst(least, more, m);
    }
  }

  lemma LeastFirst(least: string, more: seq<string>, m: map<string, string>)
    requires least in m && Listing(more, m - {least})
    requires forall k <- m.Keys - {least} :: StrLess(least, k)
    ensures Listing([least] + more, m)
  {
    var keys := [least] + more;
    forall i, j | 0 <= i < j < |keys| ensures StrLess(keys[i], keys[j]) {
      assert more[j - 1] in more;
    }
    forall k | k in m ensures k in keys {
      if k != least {
        assert k in (m - {least}).Keys;
      }
    }
  }

  // Every context prints.
  lemma Printable(c: Context) returns (hs: seq<Header>)
    ensures Prints(c, hs)
  {
    var keys := ListingExists(c.baggage);
    hs := [(ID_HEADER, c.id), (ORIGIN_HEADER, c.origin), (HOP_HEADER, Decimal.Print(c.hops))];
    if c.baggage != map[] {
      assert c.baggage.Keys != {};
      hs := hs + [(BAGGAGE_HEADER, Join(Pairs(c.baggage, keys), ','))];
    }
    assert PrintedAs(c, hs, keys);
  }

  // So every sound context is handed over.
  lemma HandoverHappens(a: Context, service: string)
    requires Sound(a)
    ensures Handover(a, a.(current := service, hops := SatAdd32(a.hops, 1)), service)
  {
    var hs := Printable(a);
    RoundTripIff(a, hs);
    assert FromHeaders(hs) == Ok(Received(a));
  }

  // Along any chain exactly one context is delivered: identifier, origin and baggage stay, the
  // last service is current, and the hop count is the saturated number of handovers.
  lemma {:induction false} ChainPreserves(a: Context, services: seq<string>, b: Context)
    requires Sound(a)
    ensures Delivers(a, services, b) <==> b == Relayed(a, services)
    decreases |services|
  {
    if services != [] {
      var next := a.(current := services[0], hops := SatAdd32(a.hops, 1));
      HandoverHappens(a, services[0]);
      HandoverIs(a, next, services[0]);
      ChainPreserves(next, services[1..], b);
      RelayedStep(a, services);
      if Delivers(a, services, b) {
        var mid :| Handover(a, mid, services[0]) && Delivers(mid, services[1..], b);
        HandoverIs(a, mid, services[0]);
      }
    }
  }
}
