// Multi-asset routing: validation, the per-corridor filter, and strategy selection.

module Routing {
  import opened Words
  import opened Text
  import opened Scoring

  datatype Request = Request(base: string, quote: string, amount: u64, strategy: string, minReputation: u32)

  datatype Candidate = Candidate(
    quoteId: u64, anchor: string, base: string, quote: string, rate: u64, fee: u32,
    minimum: u64, maximum: u64, validUntil: u64, reputation: u32, settlement: u64, reason: Option<string>)

  datatype PairQuote = PairQuote(
    pairKey: string, anchor: string, fee: u32, rate: u64, quoteId: u64, strategy: string, reason: Option<string>)

  datatype Routed = Routed(filled: seq<PairQuote>, unfilled: seq<string>)

  datatype Error = InvalidAssetCode | InvalidAssetPair | InvalidAmount | ValidationError

  // What a score ranks candidates by.
  type Score = Candidate -> real

  // The weighted score of the program, under a rounding.
  function Weighted(round: Rounding): Score {
    (c: Candidate) => ScoreOf(round, c.fee, c.settlement, c.reputation)
  }

  datatype Strategy = LowestFee | FastestSettlement | HighestReputation | WeightedScore

  // The strategy a label names, if any.
  function StrategyOf(name: string): Option<Strategy> {
    if name == "LowestFee" then Some(LowestFee)
    else if name == "FastestSettlement" then Some(FastestSettlement)
    else if name == "HighestReputation" then Some(HighestReputation)
    else if name == "WeightedScore" then Some(WeightedScore)
    else None
  }

  // ----- codes -----

  function Normalize(code: string): string {
    Upper(Trim(code))
  }

  predicate CodeCharset(code: string) {
    forall c <- code :: IsAlphanumeric(c)
  }

  predicate BadCode(code: string) {
    code == "" || Utf8Len(code) > 12 || !CodeCharset(code)
  }

  function PairKey(base: string, quote: string): string {
    Normalize(base) + "/" + Normalize(quote)
  }

  // The request with both codes normalized, which is all the router looks at.
  function Normalized(r: Request): Request {
    r.(base := Normalize(r.base), quote := Normalize(r.quote))
  }

  function CheckRequest(n: Request): Result<(), Error> {
    if BadCode(n.base) then Err(InvalidAssetCode)
    else if BadCode(n.quote) then Err(InvalidAssetCode)
    else if n.base == n.quote then Err(InvalidAssetPair)
    else if n.amount == 0 then Err(InvalidAmount)
    else if StrategyOf(n.strategy).None? then Err(ValidationError)
    else Ok(())
  }

  function Validate(r: Request): Result<(), Error> {
    CheckRequest(Normalized(r))
  }

  // ----- the filter -----

  predicate Eligible(q: Candidate, n: Request, now: u64) {
    var qBase, qQuote := Normalize(q.base), Normalize(q.quote);
    && qBase != qQuote
    && qBase == n.base
    && qQuote == n.quote
    && q.rate > 0
    && q.validUntil > now
    && n.amount >= q.minimum
    && (q.maximum == 0 || n.amount <= q.maximum)
    && q.reputation >= n.minReputation
  }

  function Candidates(quotes: seq<Candidate>, n: Request, now: u64): seq<Candidate> {
    if quotes == [] then [] else
      var last := quotes[|quotes| - 1];
      Candidates(quotes[..|quotes| - 1], n, now) + if Eligible(last, n, now) then [last] else []
  }

  // ----- selection -----

  // `min_by`: scanning left to right, a later element replaces the best only when smaller.
  function FirstMin(cs: seq<Candidate>, key: Candidate -> real): (i: nat)
    requires cs != []
    ensures i < |cs|
  {
    if |cs| == 1 then 0 else
      var i := FirstMin(cs[..|cs| - 1], key);
      if key(cs[|cs| - 1]) < key(cs[i]) then |cs| - 1 else i
  }

  // `max_by`: a later element replaces the best unless it is smaller.
  function LastMax(cs: seq<Candidate>, key: Candidate -> real): (i: nat)
    requires cs != []
    ensures i < |cs|
  {
    if |cs| == 1 then 0 else
      var i := LastMax(cs[..|cs| - 1], key);
      if key(cs[|cs| - 1]) >= key(cs[i]) then |cs| - 1 else i
  }

  function Fee(c: Candidate): real { c.fee as real }

  function Settlement(c: Candidate): real { c.settlement as real }

  function Reputation(c: Candidate): real { c.reputation as real }

  // The position of the winner under a strategy.
  function Winner(cs: seq<Candidate>, strategy: Strategy, score: Score): (i: nat)
    requires cs != []
    ensures i < |cs|
  {
    match strategy
    case LowestFee => FirstMin(cs, Fee)
    case FastestSettlement => FirstMin(cs, Settlement)
    case HighestReputation => LastMax(cs, Reputation)
    case WeightedScore => LastMax(cs, score)
  }

  function SelectBest(cs: seq<Candidate>, name: string, score: Score): (r: Result<Option<nat>, Error>)
    ensures r.Ok? && r.value.Some? ==> r.value.value < |cs|
  {
    match StrategyOf(name)
    case None => Err(ValidationError)
    case Some(strategy) => Ok(if cs == [] then None else Some(Winner(cs, strategy, score)))
  }

  // ----- one request -----

  datatype Outcome = Filled(quote: PairQuote) | Unfilled(pairKey: string)

  function Award(strategy: string, key: string, c: Candidate): PairQuote {
    PairQuote(key, c.anchor, c.fee, c.rate, c.quoteId, strategy, c.reason)
  }

  // The outcome for a corridor, given its eligible candidates.
  function Settle(strategy: string, key: string, cs: seq<Candidate>, score: Score): Result<Outcome, Error> {
    if cs == [] then Ok(Unfilled(key))
    else match SelectBest(cs, strategy, score)
      case Err(e) => Err(e)
      case Ok(Some(i)) => Ok(Filled(Award(strategy, key, cs[i])))
      case Ok(None) => Ok(Unfilled(key))
  }

  function RouteNormalized(n: Request, quotes: seq<Candidate>, now: u64, score: Score): Result<Outcome, Error> {
    match CheckRequest(n)
    case Err(e) => Err(e)
    case Ok(_) => Settle(n.strategy, PairKey(n.base, n.quote), Candidates(quotes, n, now), score)
  }

  function RouteOne(r: Request, quotes: seq<Candidate>, now: u64, score: Score): Result<Outcome, Error> {
    RouteNormalized(Normalized(r), quotes, now, score)
  }

  // ----- a batch -----

  predicate Blank(q: Candidate) {
    Normalize(q.base) == "" || Normalize(q.quote) == ""
  }

  function AddOutcome(so: Routed, o: Outcome): Routed {
    match o
    case Filled(q) => so.(filled := so.filled + [q])
    case Unfilled(k) => so.(unfilled := so.unfilled + [k])
  }

  function Each(f: Request -> Result<Outcome, Error>, rs: seq<Request>): (vs: seq<Result<Outcome, Error>>)
    ensures |vs| == |rs| && forall i :: 0 <= i < |rs| ==> vs[i] == f(rs[i])
  {
    seq(|rs|, i requires 0 <= i < |rs| => f(rs[i]))
  }

  function Judge(quotes: seq<Candidate>, now: u64, score: Score): Request -> Result<Outcome, Error> {
    r => RouteOne(r, quotes, now, score)
  }

  // The verdict on each request of a batch.
  function Verdicts(rs: seq<Request>, quotes: seq<Candidate>, now: u64, score: Score): seq<Result<Outcome, Error>> {
    Each(Judge(quotes, now, score), rs)
  }

  // Outcomes are collected in order until the first error, which is returned.
  function Collect(vs: seq<Result<Outcome, Error>>): Result<Routed, Error> {
    if vs == [] then Ok(Routed([], [])) else
      match Collect(vs[..|vs| - 1])
      case Err(e) => Err(e)
      case Ok(so) =>
        match vs[|vs| - 1]
        case Err(e) => Err(e)
        case Ok(o) => Ok(AddOutcome(so, o))
  }

  function Route(rs: seq<Request>, quotes: seq<Candidate>, now: u64, score: Score): Result<Routed, Error> {
    if exists q <- quotes :: Blank(q) then Err(InvalidAssetCode)
    else Collect(Verdicts(rs, quotes, now, score))
  }

  lemma {:induction false} ErrorSticks(vs: seq<Result<Outcome, Error>>, n: nat)
    requires n <= |vs| && Collect(vs[..n]).Err?
    ensures Collect(vs) == Collect(vs[..n])
  {
    if n < |vs| {
      assert vs[..|vs| - 1][..n] == vs[..n];
      ErrorSticks(vs[..|vs| - 1], n);
    } else {
      assert vs[..n] == vs;
    }
  }

  method RouteMultiAsset(rs: seq<Request>, quotes: seq<Candidate>, now: u64, round: Rounding)
    returns (r: Result<Routed, Error>)
    ensures r == Route(rs, quotes, now, Weighted(round))
  {
    var blank := FindBlank(quotes);
    if blank {
      return Err(InvalidAssetCode);
    }
    r := RouteRequests(rs, quotes, now, round);
  }

  method FindBlank(quotes: seq<Candidate>) returns (blank: bool)
    ensures blank <==> exists q <- quotes :: Blank(q)
  {
    for i := 0 to |quotes|
      invariant forall j :: 0 <= j < i ==> !Blank(quotes[j])
    {
      if Normalize(quotes[i].base) == "" || Normalize(quotes[i].quote) == "" {
        assert Blank(quotes[i]);
        return true;
      }
    }
    return false;
  }

  lemma CollectStep(vs: seq<Result<Outcome, Error>>, i: nat)
    requires i < |vs| && Collect(vs[..i]).Ok?
    ensures vs[i].Err? ==> Collect(vs) == Err(vs[i].error)
    ensures vs[i].Ok? ==> Collect(vs[..i + 1]) == Ok(AddOutcome(Collect(vs[..i]).value, vs[i].value))
  {
    assert vs[..i + 1][..i] == vs[..i];
    if vs[i].Err? {
      ErrorSticks(vs, i + 1);
    }
  }

  method RouteRequests(rs: seq<Request>, quotes: seq<Candidate>, now: u64, round: Rounding)
    returns (r: Result<Routed, Error>)
    ensures r == Collect(Verdicts(rs, quotes, now, Weighted(round)))
  {
    ghost var vs := Verdicts(rs, quotes, now, Weighted(round));
    var filled: seq<PairQuote>, unfilled: seq<string> := [], [];
    for i := 0 to |rs|
      invariant Collect(vs[..i]) == Ok(Routed(filled, unfilled))
    {
      var outcome := RouteRequest(rs[i], quotes, now, round);
      assert vs[i] == outcome;
      CollectStep(vs, i);
      if outcome.Err? {
        return Err(outcome.error);
      }
      if outcome.value.Filled? {
        filled := filled + [outcome.value.quote];
      } else {
        unfilled := unfilled + [outcome.value.pairKey];
      }
    }
    assert vs[..|rs|] == vs;
    return Ok(Routed(filled, unfilled));
  }

  method RouteRequest(r: Request, quotes: seq<Candidate>, now: u64, round: Rounding)
    returns (outcome: Result<Outcome, Error>)
    ensures outcome == RouteOne(r, quotes, now, Weighted(round))
  {
    var valid := Validate(r);
    if valid.Err? {
      return Err(valid.error);
    }
    var n := Normalized(r);
    var key := PairKey(n.base, n.quote);
    var candidates := FilterCandidates(quotes, n, now);
    if candidates == [] {
      return Ok(Unfilled(key));
    }
    var best := SelectBest(candidates, n.strategy, Weighted(round));
    if best.Err? {
      return Err(best.error);
    }
    if best.value.Some? {
      return Ok(Filled(Award(n.strategy, key, candidates[best.value.value])));
    }
    return Ok(Unfilled(PairKey(n.base, n.quote)));
  }

  method FilterCandidates(quotes: seq<Candidate>, n: Request, now: u64) returns (cs: seq<Candidate>)
    ensures cs == Candidates(quotes, n, now)
  {
    cs := [];
    for i := 0 to |quotes|
      invariant cs == Candidates(quotes[..i], n, now)
    {
      assert quotes[..i + 1][..i] == quotes[..i];
      if Eligible(quotes[i], n, now) {
        cs := cs + [quotes[i]];
      }
    }
    assert quotes[..|quotes|] == quotes;
  }
}
