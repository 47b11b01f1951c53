// What a routing pass does not depend on: how codes are spelled, and, under three of the four
// strategies, settlement times.

module RoutingInvariance {
  import opened Words
  import opened Text
  import opened Scoring
  import opened Routing
  import opened RoutingLaws

  // ----- quotes that are alike -----

  // Equal but for the spelling of codes and, when `timed` is false, the settlement time.
  predicate SameTerms(p: Candidate, q: Candidate, timed: bool) {
    && p == q.(base := p.base, quote := p.quote, settlement := p.settlement)
    && Normalize(p.base) == Normalize(q.base)
    && Normalize(p.quote) == Normalize(q.quote)
    && (timed ==> p.settlement == q.settlement)
  }

  ghost predicate Alike(ps: seq<Candidate>, qs: seq<Candidate>, timed: bool) {
    |ps| == |qs| && forall i :: 0 <= i < |qs| ==> SameTerms(ps[i], qs[i], timed)
  }

  lemma {:induction false} CandidatesAlike(
      ps: seq<Candidate>, qs: seq<Candidate>, timed: bool, n: Request, now: u64)
    requires Alike(ps, qs, timed)
    ensures Alike(Candidates(ps, n, now), Candidates(qs, n, now), timed)
  {
    if qs != [] {
      var last := |qs| - 1;
      CandidatesAlike(ps[..last], qs[..last], timed, n, now);
      assert SameTerms(ps[last], qs[last], timed);
    }
  }

  // The strategy's key of a candidate does not look at what may differ.
  predicate Ignores(strategy: Strategy, timed: bool) {
    timed || strategy != FastestSettlement
  }

  lemma {:induction false} FirstMinAlike(ps: seq<Candidate>, qs: seq<Candidate>, key: Candidate -> real)
    requires |ps| == |qs| > 0 && forall i :: 0 <= i < |qs| ==> key(ps[i]) == key(qs[i])
    ensures FirstMin(ps, key) == FirstMin(qs, key)
  {
    if |qs| > 1 {
      FirstMinAlike(ps[..|qs| - 1], qs[..|qs| - 1], key);
    }
  }

  lemma {:induction false} LastMaxAlike(ps: seq<Candidate>, qs: seq<Candidate>, key: Candidate -> real)
    requires |ps| == |qs| > 0 && forall i :: 0 <= i < |qs| ==> key(ps[i]) == key(qs[i])
    ensures LastMax(ps, key) == LastMax(qs, key)
  {
    if |qs| > 1 {
      LastMaxAlike(ps[..|qs| - 1], qs[..|qs| - 1], key);
    }
  }

  // A score that ranks candidates on the same terms alike.
  ghost predicate Respects(score: Score, timed: bool) {
    forall p, q :: SameTerms(p, q, timed) ==> score(p) == score(q)
  }

  lemma WeightedRespects(round: Rounding, timed: bool)
    requires timed || NearestFloat(round)
    ensures Respects(Weighted(round), timed)
  {
    forall p, q | SameTerms(p, q, timed) ensures Weighted(round)(p) == Weighted(round)(q) {
      if !timed {
        SettlementNeverCounts(round, p.fee, p.settlement, q.settlement, p.reputation);
      }
    }
  }

  lemma WinnerAlike(ps: seq<Candidate>, qs: seq<Candidate>, timed: bool, strategy: Strategy, score: Score)
    requires Alike(ps, qs, timed) && qs != [] && Ignores(strategy, timed) && Respects(score, timed)
    ensures Winner(ps, strategy, score) == Winner(qs, strategy, score)
  {
    assert forall i :: 0 <= i < |qs| ==> SameTerms(ps[i], qs[i], timed);
    match strategy
    case LowestFee => FirstMinAlike(ps, qs, Fee);
    case FastestSettlement => FirstMinAlike(ps, qs, Settlement);
    case HighestReputation => LastMaxAlike(ps, qs, Reputation);
    case WeightedScore => LastMaxAlike(ps, qs, score);
  }

  lemma SettleAlike(ps: seq<Candidate>, qs: seq<Candidate>, timed: bool, name: string, key: string, score: Score)
    requires Alike(ps, qs, timed) && Respects(score, timed)
    requires StrategyOf(name).Some? ==> Ignores(StrategyOf(name).value, timed)
    ensures Settle(name, key, ps, score) == Settle(name, key, qs, score)
  {
    if qs != [] && StrategyOf(name).Some? {
      var strategy := StrategyOf(name).value;
      WinnerAlike(ps, qs, timed, strategy, score);
      assert SameTerms(ps[Winner(qs, strategy, score)], qs[Winner(qs, strategy, score)], timed);
    }
  }

  lemma RouteOneAlike(
      s: Request, r: Request, ps: seq<Candidate>, qs: seq<Candidate>, timed: bool, now: u64, score: Score)
    requires Normalized(s) == Normalized(r) && Alike(ps, qs, timed) && Respects(score, timed)
    requires StrategyOf(r.strategy).Some? ==> Ignores(StrategyOf(r.strategy).value, timed)
    ensures RouteOne(s, ps, now, score) == RouteOne(r, qs, now, score)
  {
    var n := Normalized(r);
    CandidatesAlike(ps, qs, timed, n, now);
    SettleAlike(Candidates(ps, n, now), Candidates(qs, n, now), timed, n.strategy, PairKey(n.base, n.quote), score);
  }

  lemma RouteAlike(
      ss: seq<Request>, rs: seq<Request>, ps: seq<Candidate>, qs: seq<Candidate>, timed: bool, now: u64, score: Score)
    requires |ss| == |rs| && forall i :: 0 <= i < |rs| ==> Normalized(ss[i]) == Normalized(rs[i])
    requires Alike(ps, qs, timed) && Respects(score, timed)
    requires forall r <- rs :: StrategyOf(r.strategy).Some? ==> Ignores(StrategyOf(r.strategy).value, timed)
    ensures Route(ss, ps, now, score) == Route(rs, qs, now, score)
  {
    BlankAlike(ps, qs, timed);
    var a, b := Verdicts(ss, ps, now, score), Verdicts(rs, qs, now, score);
    forall i | 0 <= i < |rs| ensures a[i] == b[i] {
      RouteOneAlike(ss[i], rs[i], ps, qs, timed, now, score);
    }
    assert a == b;
  }

  lemma BlankAlike(ps: seq<Candidate>, qs: seq<Candidate>, timed: bool)
    requires Alike(ps, qs, timed)
    ensures (exists p <- ps :: Blank(p)) <==> (exists q <- qs :: Blank(q))
  {
    forall i | 0 <= i < |qs| ensures Blank(ps[i]) == Blank(qs[i]) {
      assert SameTerms(ps[i], qs[i], timed);
    }
    if p :| p in ps && Blank(p) {
      var i :| 0 <= i < |ps| && ps[i] == p;
      assert Blank(qs[i]);
    }
    if q :| q in qs && Blank(q) {
      var i :| 0 <= i < |qs| && qs[i] == q;
      assert Blank(ps[i]);
    }
  }

  // ----- spelling -----

  ghost predicate Spelled(spelling: string, before: string, core: string, after: string, code: string) {
    && spelling == before + core + after
    && (forall c <- before + after :: IsWhitespace(c))
    && Upper(core) == Upper(code)
  }

  // The same code in any ASCII case and with any padding.
  ghost predicate Respells(spelling: string, code: string) {
    exists before: string, core: string, after: string :: Spelled(spelling, before, core, after, code)
  }

  lemma SpellingNormalizesAway(spelling: string, code: string)
    requires Respells(spelling, code)
    ensures Normalize(spelling) == Normalize(code)
  {
    var before, core, after :| Spelled(spelling, before, core, after, code);
    TrimPadding(before, core, after);
    TrimUpper(core);
    TrimUpper(code);
  }

  ghost predicate RespelledRequest(s: Request, r: Request) {
    s == r.(base := s.base, quote := s.quote) && Respells(s.base, r.base) && Respells(s.quote, r.quote)
  }

  ghost predicate RespelledQuote(p: Candidate, q: Candidate) {
    p == q.(base := p.base, quote := p.quote) && Respells(p.base, q.base) && Respells(p.quote, q.quote)
  }

  // Respelling both codes of every request and of every quote changes nothing in the result of a
  // batch.
  lemma SpellingIrrelevant(
      ss: seq<Request>, rs: seq<Request>, ps: seq<Candidate>, qs: seq<Candidate>, now: u64, round: Rounding)
    requires |ss| == |rs| && forall i :: 0 <= i < |rs| ==> RespelledRequest(ss[i], rs[i])
    requires |ps| == |qs| && forall i :: 0 <= i < |qs| ==> RespelledQuote(ps[i], qs[i])
    ensures Route(ss, ps, now, Weighted(round)) == Route(rs, qs, now, Weighted(round))
  {
    forall i | 0 <= i < |rs| ensures Normalized(ss[i]) == Normalized(rs[i]) {
      assert RespelledRequest(ss[i], rs[i]);
      SpellingNormalizesAway(ss[i].base, rs[i].base);
      SpellingNormalizesAway(ss[i].quote, rs[i].quote);
    }
    forall i | 0 <= i < |qs| ensures SameTerms(ps[i], qs[i], true) {
      assert RespelledQuote(ps[i], qs[i]);
      SpellingNormalizesAway(ps[i].base, qs[i].base);
      SpellingNormalizesAway(ps[i].quote, qs[i].quote);
    }
    WeightedRespects(round, true);
    RouteAlike(ss, rs, ps, qs, true, now, Weighted(round));
  }

  // ----- settlement times -----

  // Unless some request asks for the fastest settlement, changing settlement times at will
  // changes nothing in the result, although the weighted score gives speed a third.
  lemma SettlementTimesIrrelevant(
      rs: seq<Request>, ps: seq<Candidate>, qs: seq<Candidate>, now: u64, round: Rounding)
    requires NearestFloat(round)
    requires forall r <- rs :: r.strategy != "FastestSettlement"
    requires |ps| == |qs| && forall i :: 0 <= i < |qs| ==> ps[i] == qs[i].(settlement := ps[i].settlement)
    ensures Route(rs, ps, now, Weighted(round)) == Route(rs, qs, now, Weighted(round))
  {
    WeightedRespects(round, false);
    RouteAlike(rs, rs, ps, qs, false, now, Weighted(round));
  }

  // A candidate no dearer and no less reputed than the weighted winner ties with it and stands
  // before it.
  lemma WeightedWinnerUndominated(cs: seq<Candidate>, round: Rounding, w: nat, i: nat)
    requires NearestFloat(round) && Wins(cs, WeightedScore, Weighted(round), w)
    requires i < |cs| && i != w && cs[i].fee <= cs[w].fee && cs[i].reputation >= cs[w].reputation
    ensures i < w && Weighted(round)(cs[i]) == Weighted(round)(cs[w])
  {
    WinnerScoresMost(cs, Weighted(round), w, i);
    WeightedMonotone(cs[i], cs[w], round);
  }

  lemma WinnerScoresMost(cs: seq<Candidate>, score: Score, w: nat, i: nat)
    requires IsLastMax(cs, score, w) && i < |cs| && i != w
    ensures score(cs[i]) <= score(cs[w]) && (score(cs[i]) == score(cs[w]) ==> i < w)
  {
  }

  lemma WeightedMonotone(c: Candidate, d: Candidate, round: Rounding)
    requires NearestFloat(round) && c.fee <= d.fee && c.reputation >= d.reputation
    ensures Weighted(round)(d) <= Weighted(round)(c)
  {
    ScoreMonotone(round, c.fee, d.fee, c.settlement, d.settlement, c.reputation, d.reputation);
  }
}
