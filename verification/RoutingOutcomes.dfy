// What a request is answered, stated on the fields of the request and the quotes: which error,
// and, for each strategy label, which quote.

module RoutingOutcomes {
  import opened Words
  import opened Text
  import opened Routing
  import opened RoutingLaws

  // ----- valid requests -----

  // One to twelve ASCII letters or digits, once trimmed.
  predicate GoodCode(code: string) {
    var t := Trim(code);
    1 <= |t| <= 12 && forall c <- t :: '0' <= c <= '9' || 'A' <= c <= 'Z' || 'a' <= c <= 'z'
  }

  lemma GoodCodeIff(code: string)
    ensures BadCode(Normalize(code)) <==> !GoodCode(code)
  {
    var t, n := Trim(code), Normalize(code);
    UpperIs(t, n);
    if !BadCode(n) {
      forall i | 0 <= i < |t| ensures IsAlphanumeric(t[i]) {
        assert n[i] in n && SameLetter(n[i], t[i]);
      }
      assert AllAscii(n);
    }
    if GoodCode(code) {
      forall i | 0 <= i < |t| ensures IsAlphanumeric(n[i]) {
        assert t[i] in t && SameLetter(n[i], t[i]);
      }
      assert AllAscii(n);
    }
  }

  lemma SameCodeIff(a: string, b: string)
    ensures Normalize(a) == Normalize(b) <==> SameText(Trim(a), Trim(b))
  {
    SameUpperIff(Trim(a), Trim(b));
  }

  // The first condition that a request fails gives its error.
  lemma RequestVerdict(r: Request)
    ensures Validate(r) ==
            if !GoodCode(r.base) || !GoodCode(r.quote) then Err(InvalidAssetCode)
            else if SameText(Trim(r.base), Trim(r.quote)) then Err(InvalidAssetPair)
            else if r.amount == 0 then Err(InvalidAmount)
            else if r.strategy !in {"LowestFee", "FastestSettlement", "HighestReputation", "WeightedScore"}
            then Err(ValidationError)
            else Ok(())
  {
    GoodCodeIff(r.base);
    GoodCodeIff(r.quote);
    SameCodeIff(r.base, r.quote);
  }

  // ----- quotes that qualify -----

  predicate Qualifies(q: Candidate, r: Request, now: u64) {
    && SameText(Trim(q.base), Trim(r.base)) && SameText(Trim(q.quote), Trim(r.quote))
    && q.rate > 0 && now < q.validUntil
    && q.minimum <= r.amount && (q.maximum == 0 || r.amount <= q.maximum)
    && r.minReputation <= q.reputation
  }

  lemma QualifiesIff(q: Candidate, r: Request, now: u64)
    requires Validate(r).Ok?
    ensures Eligible(q, Normalized(r), now) <==> Qualifies(q, r, now)
  {
    SameCodeIff(q.base, r.base);
    SameCodeIff(q.quote, r.quote);
    SelfRouteTestRedundant(q, r, now);
  }

  // ----- the pool, by position in the list of quotes -----

  // Positions in the list of quotes, ascending, of the given candidates.
  ghost predicate Placed(ps: seq<nat>, quotes: seq<Candidate>, cs: seq<Candidate>) {
    && |ps| == |cs|
    && (forall k :: 0 <= k < |ps| ==> ps[k] < |quotes| && quotes[ps[k]] == cs[k])
    && (forall k, l :: 0 <= k < l < |ps| ==> ps[k] < ps[l])
  }

  ghost predicate PoolAt(ps: seq<nat>, quotes: seq<Candidate>, n: Request, now: u64) {
    && Placed(ps, quotes, Candidates(quotes, n, now))
    && (forall i :: 0 <= i < |quotes| ==> (Eligible(quotes[i], n, now) <==> i in ps))
  }

  lemma PlacedStep(before: seq<nat>, front: seq<Candidate>, cs: seq<Candidate>, last: Candidate)
    requires Placed(before, front, cs)
    ensures Placed(before, front + [last], cs)
    ensures Placed(before + [|front|], front + [last], cs + [last])
  {
    var quotes := front + [last];
    assert forall i :: 0 <= i < |front| ==> quotes[i] == front[i];
  }

  lemma CandidatesStep(front: seq<Candidate>, last: Candidate, n: Request, now: u64)
    ensures Candidates(front + [last], n, now)
         == Candidates(front, n, now) + if Eligible(last, n, now) then [last] else []
  {
    assert (front + [last])[..|front|] == front;
  }

  lemma PoolStep(before: seq<nat>, front: seq<Candidate>, last: Candidate, n: Request, now: u64)
    requires PoolAt(before, front, n, now)
    ensures PoolAt(before + if Eligible(last, n, now) then [|front|] else [], front + [last], n, now)
  {
    var cs, ps := Candidates(front, n, now), before + if Eligible(last, n, now) then [|front|] else [];
    CandidatesStep(front, last, n, now);
    PlacedStep(before, front, cs, last);
    if Eligible(last, n, now) {
      assert ps == before + [|front|] && Candidates(front + [last], n, now) == cs + [last];
    } else {
      assert ps == before && Candidates(front + [last], n, now) == cs;
    }
    MembersStep(before, front, last, n, now);
  }

  lemma MembersStep(before: seq<nat>, front: seq<Candidate>, last: Candidate, n: Request, now: u64)
    requires forall k <- before :: k < |front|
    requires forall i :: 0 <= i < |front| ==> (Eligible(front[i], n, now) <==> i in before)
    ensures var quotes, ps := front + [last], before + if Eligible(last, n, now) then [|front|] else [];
            forall i :: 0 <= i < |quotes| ==> (Eligible(quotes[i], n, now) <==> i in ps)
  {
    var quotes, ps := front + [last], before + if Eligible(last, n, now) then [|front|] else [];
    forall i | 0 <= i < |quotes| ensures Eligible(quotes[i], n, now) <==> i in ps {
      if i < |front| {
        assert quotes[i] == front[i];
      } else {
        assert i !in before;
      }
    }
  }

  lemma {:induction false} PoolPositions(quotes: seq<Candidate>, n: Request, now: u64) returns (ps: seq<nat>)
    ensures PoolAt(ps, quotes, n, now)
  {
    ps := [];
    if quotes != [] {
      var front, last := quotes[..|quotes| - 1], quotes[|quotes| - 1];
      var before := PoolPositions(front, n, now);
      PoolStep(before, front, last, n, now);
      ps := before + if Eligible(last, n, now) then [|front|] else [];
      assert quotes == front + [last];
    }
  }

  // ----- the best quote for a label -----

  // Quote i is no worse than quote j, and better where their order would decide otherwise.
  ghost predicate NoWorse(name: string, score: Score, quotes: seq<Candidate>, i: nat, j: nat)
    requires i < |quotes| && j < |quotes|
  {
    var a, b := quotes[i], quotes[j];
    && (name == "LowestFee" ==> a.fee <= b.fee && (j < i ==> a.fee < b.fee))
    && (name == "FastestSettlement" ==> a.settlement <= b.settlement && (j < i ==> a.settlement < b.settlement))
    && (name == "HighestReputation" ==> b.reputation <= a.reputation && (i < j ==> b.reputation < a.reputation))
    && (name == "WeightedScore" ==> score(b) <= score(a) && (i < j ==> score(b) < score(a)))
  }

  ghost predicate IsBest(r: Request, quotes: seq<Candidate>, now: u64, score: Score, i: nat) {
    && i < |quotes| && Qualifies(quotes[i], r, now)
    && forall j :: 0 <= j < |quotes| && Qualifies(quotes[j], r, now) ==> NoWorse(r.strategy, score, quotes, i, j)
  }

  // The best of the pool, by position in the list of quotes.
  ghost predicate BestInPool(name: string, score: Score, quotes: seq<Candidate>, ps: seq<nat>, k: nat)
    requires forall l :: 0 <= l < |ps| ==> ps[l] < |quotes|
  {
    k < |ps| && forall l :: 0 <= l < |ps| ==> NoWorse(name, score, quotes, ps[k], ps[l])
  }

  lemma FirstMinPlaced(
      ps: seq<nat>, quotes: seq<Candidate>, cs: seq<Candidate>, key: Candidate -> real, k: nat)
    requires Placed(ps, quotes, cs) && k < |ps|
    ensures IsFirstMin(cs, key, k) <==>
            forall l :: 0 <= l < |ps| ==>
              key(quotes[ps[k]]) <= key(quotes[ps[l]]) && (ps[l] < ps[k] ==> key(quotes[ps[k]]) < key(quotes[ps[l]]))
  {
    forall l | 0 <= l < |ps| ensures quotes[ps[l]] == cs[l] && (ps[l] < ps[k] <==> l < k) {
      assert l > k ==> ps[k] < ps[l];
    }
  }

  lemma LastMaxPlaced(
      ps: seq<nat>, quotes: seq<Candidate>, cs: seq<Candidate>, key: Candidate -> real, k: nat)
    requires Placed(ps, quotes, cs) && k < |ps|
    ensures IsLastMax(cs, key, k) <==>
            forall l :: 0 <= l < |ps| ==>
              key(quotes[ps[l]]) <= key(quotes[ps[k]]) && (ps[k] < ps[l] ==> key(quotes[ps[l]]) < key(quotes[ps[k]]))
  {
    forall l | 0 <= l < |ps| ensures quotes[ps[l]] == cs[l] && (ps[k] < ps[l] <==> k < l) {
      assert l < k ==> ps[l] < ps[k];
    }
  }

  lemma BestPlaced(
      name: string, score: Score, ps: seq<nat>, quotes: seq<Candidate>, cs: seq<Candidate>, k: nat)
    requires StrategyOf(name).Some? && Placed(ps, quotes, cs) && k < |ps|
    ensures BestInPool(name, score, quotes, ps, k) <==> Wins(cs, StrategyOf(name).value, score, k)
  {
    match StrategyOf(name).value
    case LowestFee => FirstMinPlaced(ps, quotes, cs, Fee, k);
    case FastestSettlement => FirstMinPlaced(ps, quotes, cs, Settlement, k);
    case HighestReputation => LastMaxPlaced(ps, quotes, cs, Reputation, k);
    case WeightedScore => LastMaxPlaced(ps, quotes, cs, score, k);
  }

  lemma BestInPoolWins(
      name: string, score: Score, quotes: seq<Candidate>, ps: seq<nat>, n: Request, now: u64, k: nat)
    requires StrategyOf(name).Some? && PoolAt(ps, quotes, n, now) && k < |ps|
    ensures BestInPool(name, score, quotes, ps, k) <==>
            Wins(Candidates(quotes, n, now), StrategyOf(name).value, score, k)
  {
    BestPlaced(name, score, ps, quotes, Candidates(quotes, n, now), k);
  }

  lemma BestIff(r: Request, quotes: seq<Candidate>, ps: seq<nat>, now: u64, score: Score, k: nat)
    requires Validate(r).Ok? && PoolAt(ps, quotes, Normalized(r), now) && k < |ps|
    ensures IsBest(r, quotes, now, score, ps[k]) <==> BestInPool(r.strategy, score, quotes, ps, k)
  {
    forall j | 0 <= j < |quotes| ensures Qualifies(quotes[j], r, now) <==> j in ps {
      QualifiesIff(quotes[j], r, now);
    }
    assert ps[k] in ps;
  }

  lemma IsBestInPool(r: Request, quotes: seq<Candidate>, ps: seq<nat>, now: u64, score: Score, i: nat)
    returns (k: nat)
    requires Validate(r).Ok? && PoolAt(ps, quotes, Normalized(r), now) && IsBest(r, quotes, now, score, i)
    ensures k < |ps| && ps[k] == i
  {
    QualifiesIff(quotes[i], r, now);
    k :| 0 <= k < |ps| && ps[k] == i;
  }

  function Key(r: Request): string {
    Upper(Trim(r.base)) + "/" + Upper(Trim(r.quote))
  }

  function Offer(r: Request, q: Candidate): Outcome {
    Filled(PairQuote(
      pairKey := Key(r), anchor := q.anchor, fee := q.fee, rate := q.rate, quoteId := q.quoteId,
      strategy := r.strategy, reason := q.reason))
  }

  lemma KeyIs(r: Request)
    ensures Corridor(r) == Key(r)
  {
    NormalizeIdempotent(r.base);
    NormalizeIdempotent(r.quote);
  }

  lemma SettlesOnBest(r: Request, quotes: seq<Candidate>, now: u64, score: Score, i: nat)
    requires Validate(r).Ok? && IsBest(r, quotes, now, score, i)
    ensures RouteOne(r, quotes, now, score) == Ok(Offer(r, quotes[i]))
  {
    RouteOneSettles(r, quotes, now, score);
    var n := Normalized(r);
    var ps := PoolPositions(quotes, n, now);
    var k := IsBestInPool(r, quotes, ps, now, score, i);
    BestIff(r, quotes, ps, now, score, k);
    BestInPoolWins(r.strategy, score, quotes, ps, n, now, k);
    SettlesOptimally(r.strategy, Corridor(r), Candidates(quotes, n, now), score);
    KeyIs(r);
  }

  lemma SomeBest(r: Request, quotes: seq<Candidate>, now: u64, score: Score, q: Candidate) returns (i: nat)
    requires Validate(r).Ok? && q in quotes && Qualifies(q, r, now)
    ensures IsBest(r, quotes, now, score, i)
  {
    RouteOneSettles(r, quotes, now, score);
    var n := Normalized(r);
    var ps := PoolPositions(quotes, n, now);
    QualifiesIff(q, r, now);
    var j :| 0 <= j < |quotes| && quotes[j] == q;
    assert j in ps;
    SettlesOptimally(r.strategy, Corridor(r), Candidates(quotes, n, now), score);
    var k: nat :| Wins(Candidates(quotes, n, now), StrategyOf(r.strategy).value, score, k);
    WinsInRange(Candidates(quotes, n, now), StrategyOf(r.strategy).value, score, k);
    BestInPoolWins(r.strategy, score, quotes, ps, n, now, k);
    BestIff(r, quotes, ps, now, score, k);
    i := ps[k];
  }

  lemma WinsInRange(cs: seq<Candidate>, strategy: Strategy, score: Score, k: nat)
    requires Wins(cs, strategy, score, k)
    ensures k < |cs|
  {
  }

  lemma HasMember(cs: seq<Candidate>)
    ensures cs != [] ==> exists c :: c in cs
  {
    if cs != [] {
      assert cs[0] in cs;
    }
  }

  lemma NoneQualifies(r: Request, quotes: seq<Candidate>, now: u64, score: Score)
    requires Validate(r).Ok? && forall q <- quotes :: !Qualifies(q, r, now)
    ensures RouteOne(r, quotes, now, score) == Ok(Unfilled(Key(r)))
  {
    RouteOneSettles(r, quotes, now, score);
    forall q | q in quotes ensures !Eligible(q, Normalized(r), now) {
      QualifiesIff(q, r, now);
    }
    CandidatesAreTheEligible(quotes, Normalized(r), now);
    HasMember(Candidates(quotes, Normalized(r), now));
    KeyIs(r);
  }

  // A valid request is left unfilled when no quote qualifies, and is otherwise filled by the one
  // quote that is best for its label: lowest fee or settlement time, the earliest such quote, or
  // highest reputation or score, the latest such quote.
  lemma OutcomeByLabel(r: Request, quotes: seq<Candidate>, now: u64, score: Score)
    requires Validate(r).Ok?
    ensures (forall q <- quotes :: !Qualifies(q, r, now)) ==> RouteOne(r, quotes, now, score) == Ok(Unfilled(Key(r)))
    ensures forall i: nat :: IsBest(r, quotes, now, score, i) ==>
              RouteOne(r, quotes, now, score) == Ok(Offer(r, quotes[i]))
    ensures (exists q <- quotes :: Qualifies(q, r, now)) ==> exists i: nat :: IsBest(r, quotes, now, score, i)
  {
    if forall q <- quotes :: !Qualifies(q, r, now) {
      NoneQualifies(r, quotes, now, score);
    } else {
      var q :| q in quotes && Qualifies(q, r, now);
      var i := SomeBest(r, quotes, now, score, q);
    }
    forall i: nat | IsBest(r, quotes, now, score, i)
      ensures RouteOne(r, quotes, now, score) == Ok(Offer(r, quotes[i]))
    {
      SettlesOnBest(r, quotes, now, score, i);
    }
  }
}
