// What a routing pass guarantees: optimal and uniquely determined winners, an account of every
// request, compositionality, and keys that name their corridor.

module RoutingLaws {
  import opened Words
  import opened Text
  import opened Routing

  // ----- winners -----

  // First minimum: nobody is smaller, and everybody earlier is larger.
  ghost predicate IsFirstMin(cs: seq<Candidate>, key: Candidate -> real, i: nat) {
    && i < |cs|
    && (forall j :: 0 <= j < |cs| ==> key(cs[i]) <= key(cs[j]))
    && (forall j :: 0 <= j < i ==> key(cs[i]) < key(cs[j]))
  }

  // Last maximum: nobody is larger, and everybody later is smaller.
  ghost predicate IsLastMax(cs: seq<Candidate>, key: Candidate -> real, i: nat) {
    && i < |cs|
    && (forall j :: 0 <= j < |cs| ==> key(cs[j]) <= key(cs[i]))
    && (forall j :: i < j < |cs| ==> key(cs[j]) < key(cs[i]))
  }

  ghost predicate Wins(cs: seq<Candidate>, strategy: Strategy, score: Score, i: nat) {
    match strategy
    case LowestFee => IsFirstMin(cs, Fee, i)
    case FastestSettlement => IsFirstMin(cs, Settlement, i)
    case HighestReputation => IsLastMax(cs, Reputation, i)
    case WeightedScore => IsLastMax(cs, score, i)
  }

  lemma {:induction false} FirstMinIs(cs: seq<Candidate>, key: Candidate -> real)
    requires cs != []
    ensures IsFirstMin(cs, key, FirstMin(cs, key))
  {
    if |cs| > 1 {
      var front := cs[..|cs| - 1];
      FirstMinIs(front, key);
      assert forall j :: 0 <= j < |front| ==> cs[j] == front[j];
    }
  }

  lemma {:induction false} LastMaxIs(cs: seq<Candidate>, key: Candidate -> real)
    requires cs != []
    ensures IsLastMax(cs, key, LastMax(cs, key))
  {
    if |cs| > 1 {
      var front := cs[..|cs| - 1];
      LastMaxIs(front, key);
      assert forall j :: 0 <= j < |front| ==> cs[j] == front[j];
    }
  }

  // The selected position is a winner, and there is no other.
  lemma SelectionIsTheWinner(cs: seq<Candidate>, strategy: Strategy, score: Score, i: nat)
    requires cs != []
    ensures Winner(cs, strategy, score) == i <==> Wins(cs, strategy, score, i)
  {
    FirstMinIs(cs, Fee);
    FirstMinIs(cs, Settlement);
    LastMaxIs(cs, Reputation);
    LastMaxIs(cs, score);
  }

  // ----- the filter -----

  lemma {:induction false} CandidatesConcat(a: seq<Candidate>, b: seq<Candidate>, n: Request, now: u64)
    ensures Candidates(a + b, n, now) == Candidates(a, n, now) + Candidates(b, n, now)
  {
    if b == [] {
      assert a + b == a;
    } else {
      assert (a + b)[..|a + b| - 1] == a + b[..|b| - 1];
      CandidatesConcat(a, b[..|b| - 1], n, now);
    }
  }

  lemma {:induction false} CandidatesAreTheEligible(quotes: seq<Candidate>, n: Request, now: u64)
    ensures forall q :: q in Candidates(quotes, n, now) <==> q in quotes && Eligible(q, n, now)
  {
    if quotes != [] {
      var front := quotes[..|quotes| - 1];
      CandidatesAreTheEligible(front, n, now);
      assert quotes == front + [quotes[|quotes| - 1]];
    }
  }

  // The filter's conditions other than the explicit self-route test.
  predicate EligibleUpToSelfRoute(q: Candidate, n: Request, now: u64) {
    && Normalize(q.base) == n.base
    && Normalize(q.quote) == n.quote
    && q.rate > 0
    && q.validUntil > now
    && n.amount >= q.minimum
    && (q.maximum == 0 || n.amount <= q.maximum)
    && q.reputation >= n.minReputation
  }

  // For a valid request the self-route test never decides.
  lemma SelfRouteTestRedundant(q: Candidate, r: Request, now: u64)
    requires Validate(r).Ok?
    ensures Eligible(q, Normalized(r), now) <==> EligibleUpToSelfRoute(q, Normalized(r), now)
  {
  }

  // ----- one request -----

  function Corridor(r: Request): string {
    PairKey(Normalized(r).base, Normalized(r).quote)
  }

  lemma RouteOneSettles(r: Request, quotes: seq<Candidate>, now: u64, score: Score)
    requires Validate(r).Ok?
    ensures StrategyOf(r.strategy).Some?
    ensures RouteOne(r, quotes, now, score) ==
            Settle(r.strategy, Corridor(r), Candidates(quotes, Normalized(r), now), score)
  {
  }

  lemma SettlesOptimally(name: string, key: string, cs: seq<Candidate>, score: Score)
    requires StrategyOf(name).Some?
    ensures Settle(name, key, cs, score).Ok?
    ensures Settle(name, key, cs, score) == Ok(Unfilled(key)) <==> cs == []
    ensures forall i: nat :: cs != [] && Wins(cs, StrategyOf(name).value, score, i) ==>
              Settle(name, key, cs, score) == Ok(Filled(Award(name, key, cs[i])))
    ensures cs != [] ==> exists i: nat :: Wins(cs, StrategyOf(name).value, score, i)
  {
    if cs != [] {
      var strategy := StrategyOf(name).value;
      var w := Winner(cs, strategy, score);
      SelectionIsTheWinner(cs, strategy, score, w);
      assert Wins(cs, strategy, score, w);
      forall i: nat | Wins(cs, strategy, score, i) ensures i == w {
        SelectionIsTheWinner(cs, strategy, score, i);
      }
    }
  }

  // A valid request never fails; it is left unfilled exactly when no quote is eligible, and
  // otherwise filled by the one winner among the eligible quotes.
  lemma OutcomeIsOptimal(r: Request, quotes: seq<Candidate>, now: u64, score: Score)
    requires Validate(r).Ok?
    ensures var cs := Candidates(quotes, Normalized(r), now);
            && StrategyOf(r.strategy).Some?
            && (RouteOne(r, quotes, now, score) == Ok(Unfilled(Corridor(r))) <==> cs == [])
            && (forall i: nat :: cs != [] && Wins(cs, StrategyOf(r.strategy).value, score, i) ==>
                RouteOne(r, quotes, now, score) == Ok(Filled(PairQuote(
                  pairKey := Corridor(r), strategy := r.strategy, anchor := cs[i].anchor, fee := cs[i].fee,
                  rate := cs[i].rate, quoteId := cs[i].quoteId, reason := cs[i].reason))))
            && (cs != [] ==> exists i: nat :: Wins(cs, StrategyOf(r.strategy).value, score, i))
  {
    RouteOneSettles(r, quotes, now, score);
    SettlesOptimally(r.strategy, Corridor(r), Candidates(quotes, Normalized(r), now), score);
  }

  // ----- accounting -----

  function FilledOf(outcomes: seq<Outcome>): seq<PairQuote> {
    if outcomes == [] then [] else
      var last := outcomes[|outcomes| - 1];
      FilledOf(outcomes[..|outcomes| - 1]) + if last.Filled? then [last.quote] else []
  }

  function UnfilledOf(outcomes: seq<Outcome>): seq<string> {
    if outcomes == [] then [] else
      var last := outcomes[|outcomes| - 1];
      UnfilledOf(outcomes[..|outcomes| - 1]) + if last.Unfilled? then [last.pairKey] else []
  }

  function Sorted(outcomes: seq<Outcome>): Routed {
    Routed(FilledOf(outcomes), UnfilledOf(outcomes))
  }

  lemma SortedOneMore(outcomes: seq<Outcome>, o: Outcome)
    ensures Sorted(outcomes + [o]) == AddOutcome(Sorted(outcomes), o)
  {
    assert (outcomes + [o])[..|outcomes|] == outcomes;
  }

  lemma {:induction false} SortedSize(outcomes: seq<Outcome>)
    ensures |FilledOf(outcomes)| + |UnfilledOf(outcomes)| == |outcomes|
  {
    if outcomes != [] {
      SortedSize(outcomes[..|outcomes| - 1]);
    }
  }

  // A successful pass is one outcome per request, in order, sorted into filled and unfilled.
  lemma {:induction false} EveryRequestAccounted(vs: seq<Result<Outcome, Error>>) returns (outcomes: seq<Outcome>)
    requires Collect(vs).Ok?
    ensures |outcomes| == |vs| && forall i :: 0 <= i < |vs| ==> vs[i] == Ok(outcomes[i])
    ensures Collect(vs).value == Sorted(outcomes)
  {
    outcomes := [];
    if vs != [] {
      var front, last := vs[..|vs| - 1], vs[|vs| - 1].value;
      var before := EveryRequestAccounted(front);
      assert forall i :: 0 <= i < |front| ==> vs[i] == front[i];
      SortedOneMore(before, last);
      outcomes := before + [last];
    }
  }

  lemma PassAccountsForEveryRequest(rs: seq<Request>, quotes: seq<Candidate>, now: u64, score: Score)
    returns (outcomes: seq<Outcome>)
    requires Route(rs, quotes, now, score).Ok?
    ensures |outcomes| == |rs| && forall i :: 0 <= i < |rs| ==> RouteOne(rs[i], quotes, now, score) == Ok(outcomes[i])
    ensures Route(rs, quotes, now, score).value == Sorted(outcomes)
    ensures |FilledOf(outcomes)| + |UnfilledOf(outcomes)| == |rs|
  {
    var vs := Verdicts(rs, quotes, now, score);
    outcomes := EveryRequestAccounted(vs);
    SortedSize(outcomes);
    assert forall i :: 0 <= i < |rs| ==> RouteOne(rs[i], quotes, now, score) == vs[i];
  }

  // ----- composition -----

  function Append(a: Routed, b: Routed): Routed {
    Routed(a.filled + b.filled, a.unfilled + b.unfilled)
  }

  function InSequence(a: Result<Routed, Error>, b: Result<Routed, Error>): Result<Routed, Error> {
    if a.Err? then a else if b.Err? then b else Ok(Append(a.value, b.value))
  }

  lemma {:induction false} CollectConcat(a: seq<Result<Outcome, Error>>, b: seq<Result<Outcome, Error>>)
    ensures Collect(a + b) == InSequence(Collect(a), Collect(b))
  {
    if b == [] {
      assert a + b == a;
      assert Collect(a).Ok? ==> Append(Collect(a).value, Routed([], [])) == Collect(a).value;
    } else {
      assert (a + b)[..|a + b| - 1] == a + b[..|b| - 1];
      CollectConcat(a, b[..|b| - 1]);
      var x, y := Collect(a), Collect(b[..|b| - 1]);
      if x.Ok? && y.Ok? && b[|b| - 1].Ok? {
        AddAfterAppend(x.value, y.value, b[|b| - 1].value);
      }
    }
  }

  lemma AddAfterAppend(x: Routed, y: Routed, o: Outcome)
    ensures AddOutcome(Append(x, y), o) == Append(x, AddOutcome(y, o))
  {
  }

  lemma VerdictsConcat(a: seq<Request>, b: seq<Request>, quotes: seq<Candidate>, now: u64, score: Score)
    ensures Verdicts(a + b, quotes, now, score) == Verdicts(a, quotes, now, score) + Verdicts(b, quotes, now, score)
  {
    EachConcat(Judge(quotes, now, score), a, b);
  }

  lemma EachConcat(f: Request -> Result<Outcome, Error>, a: seq<Request>, b: seq<Request>)
    ensures Each(f, a + b) == Each(f, a) + Each(f, b)
  {
  }

  // Routing two batches together is routing them one after the other; the earlier error wins.
  lemma RouteConcat(a: seq<Request>, b: seq<Request>, quotes: seq<Candidate>, now: u64, score: Score)
    ensures Route(a + b, quotes, now, score) == InSequence(Route(a, quotes, now, score), Route(b, quotes, now, score))
  {
    if !exists q <- quotes :: Blank(q) {
      VerdictsConcat(a, b, quotes, now, score);
      CollectConcat(Verdicts(a, quotes, now, score), Verdicts(b, quotes, now, score));
    }
  }

  ghost predicate FirstError(vs: seq<Result<Outcome, Error>>, i: nat) {
    i < |vs| && vs[i].Err? && forall j :: 0 <= j < i ==> vs[j].Ok?
  }

  lemma {:induction false} FirstErrorWins(vs: seq<Result<Outcome, Error>>)
    ensures Collect(vs).Ok? <==> forall v <- vs :: v.Ok?
    ensures forall i: nat :: FirstError(vs, i) ==> Collect(vs) == Err(vs[i].error)
  {
    if vs != [] {
      var front := vs[..|vs| - 1];
      FirstErrorWins(front);
      assert vs == front + [vs[|vs| - 1]];
      assert forall j :: 0 <= j < |front| ==> front[j] == vs[j];
      forall i: nat | FirstError(vs, i) ensures Collect(vs) == Err(vs[i].error) {
        if i < |front| {
          assert FirstError(front, i) by {
            forall j | 0 <= j < i ensures front[j].Ok? {
              assert vs[j].Ok?;
            }
          }
        }
      }
    }
  }

  lemma BlankIff(q: Candidate)
    ensures Blank(q) <==> Trim(q.base) == "" || Trim(q.quote) == ""
  {
  }

  // A batch over quotes without blank codes fails exactly with the error of its earliest invalid
  // request, and a blank quote fails it before any request is looked at.
  lemma EarliestErrorWins(rs: seq<Request>, quotes: seq<Candidate>, now: u64, score: Score)
    ensures if exists q <- quotes :: Trim(q.base) == "" || Trim(q.quote) == ""
            then Route(rs, quotes, now, score) == Err(InvalidAssetCode)
            else
              && (Route(rs, quotes, now, score).Ok? <==> forall r <- rs :: Validate(r).Ok?)
              && (forall i: nat :: EarliestBad(rs, i) ==> Route(rs, quotes, now, score) == Err(Validate(rs[i]).error))
  {
    forall q: Candidate ensures Blank(q) <==> Trim(q.base) == "" || Trim(q.quote) == "" {
      BlankIff(q);
    }
    if !exists q <- quotes :: Blank(q) {
      EarliestBadWins(rs, quotes, now, score);
    }
  }

  ghost predicate EarliestBad(rs: seq<Request>, i: nat) {
    i < |rs| && Validate(rs[i]).Err? && forall j :: 0 <= j < i ==> Validate(rs[j]).Ok?
  }

  lemma RouteOneErrs(r: Request, quotes: seq<Candidate>, now: u64, score: Score)
    ensures RouteOne(r, quotes, now, score).Err? == Validate(r).Err?
    ensures Validate(r).Err? ==> RouteOne(r, quotes, now, score).error == Validate(r).error
  {
    if Validate(r).Ok? {
      RouteOneSettles(r, quotes, now, score);
      SettlesOptimally(r.strategy, Corridor(r), Candidates(quotes, Normalized(r), now), score);
    }
  }

  lemma EarliestBadWins(rs: seq<Request>, quotes: seq<Candidate>, now: u64, score: Score)
    ensures Collect(Verdicts(rs, quotes, now, score)).Ok? <==> forall r <- rs :: Validate(r).Ok?
    ensures forall i: nat :: EarliestBad(rs, i) ==>
              Collect(Verdicts(rs, quotes, now, score)) == Err(Validate(rs[i]).error)
  {
    var vs := Verdicts(rs, quotes, now, score);
    FirstErrorWins(vs);
    forall j | 0 <= j < |rs|
      ensures vs[j].Err? == Validate(rs[j]).Err?
      ensures vs[j].Err? ==> vs[j].error == Validate(rs[j]).error
    {
      RouteOneErrs(rs[j], quotes, now, score);
    }
    forall i: nat | EarliestBad(rs, i) ensures Collect(vs) == Err(Validate(rs[i]).error) {
      assert FirstError(vs, i);
    }
  }

  // ----- inserting a candidate -----

  lemma MinAfterInsertion(xs: seq<Candidate>, c: Candidate, ys: seq<Candidate>, key: Candidate -> real, w: nat)
    requires IsFirstMin(xs + [c] + ys, key, w) && w != |xs|
    ensures IsFirstMin(xs + ys, key, if w < |xs| then w else w - 1)
  {
    var all, prior := xs + [c] + ys, xs + ys;
    assert forall j :: 0 <= j < |xs| ==> prior[j] == all[j];
    assert forall j :: |xs| <= j < |prior| ==> prior[j] == all[j + 1];
  }

  lemma MaxAfterInsertion(xs: seq<Candidate>, c: Candidate, ys: seq<Candidate>, key: Candidate -> real, w: nat)
    requires IsLastMax(xs + [c] + ys, key, w) && w != |xs|
    ensures IsLastMax(xs + ys, key, if w < |xs| then w else w - 1)
  {
    var all, prior := xs + [c] + ys, xs + ys;
    assert forall j :: 0 <= j < |xs| ==> prior[j] == all[j];
    assert forall j :: |xs| <= j < |prior| ==> prior[j] == all[j + 1];
  }

  lemma WinnerAfterInsertion(
      xs: seq<Candidate>, c: Candidate, ys: seq<Candidate>, strategy: Strategy, score: Score, w: nat)
    requires Wins(xs + [c] + ys, strategy, score, w) && w != |xs|
    ensures Wins(xs + ys, strategy, score, if w < |xs| then w else w - 1)
  {
    match strategy
    case LowestFee => MinAfterInsertion(xs, c, ys, Fee, w);
    case FastestSettlement => MinAfterInsertion(xs, c, ys, Settlement, w);
    case HighestReputation => MaxAfterInsertion(xs, c, ys, Reputation, w);
    case WeightedScore => MaxAfterInsertion(xs, c, ys, score, w);
  }

  ghost predicate SameOrNewcomer(
      name: string, key: string, before: seq<Candidate>, after: seq<Candidate>, c: Candidate, score: Score)
  {
    || Settle(name, key, after, score) == Settle(name, key, before, score)
    || Settle(name, key, after, score) == Ok(Filled(Award(name, key, c)))
  }

  lemma InsertedAmongCandidates(
      name: string, key: string, ex: seq<Candidate>, c: Candidate, ey: seq<Candidate>, score: Score)
    requires StrategyOf(name).Some?
    ensures SameOrNewcomer(name, key, ex + ey, ex + [c] + ey, c, score)
  {
    var all, strategy := ex + [c] + ey, StrategyOf(name).value;
    var w := Winner(all, strategy, score);
    SelectionIsTheWinner(all, strategy, score, w);
    if w != |ex| {
      var v := if w < |ex| then w else w - 1;
      WinnerAfterInsertion(ex, c, ey, strategy, score, w);
      SelectionIsTheWinner(ex + ey, strategy, score, v);
      assert all[w] == (ex + ey)[v];
    }
  }

  lemma CandidatesAfterInsertion(xs: seq<Candidate>, c: Candidate, ys: seq<Candidate>, n: Request, now: u64)
    returns (added: seq<Candidate>)
    ensures added == [] || added == [c]
    ensures Candidates(xs + [c] + ys, n, now) == Candidates(xs, n, now) + added + Candidates(ys, n, now)
    ensures Candidates(xs + ys, n, now) == Candidates(xs, n, now) + Candidates(ys, n, now)
  {
    added := if Eligible(c, n, now) then [c] else [];
    CandidatesConcat(xs, ys, n, now);
    CandidatesConcat(xs + [c], ys, n, now);
    assert (xs + [c])[..|xs|] == xs;
  }

  lemma AddedOrNot(
      name: string, key: string, cx: seq<Candidate>, added: seq<Candidate>, c: Candidate, cy: seq<Candidate>,
      score: Score)
    requires StrategyOf(name).Some?
    requires added == [] || added == [c]
    ensures SameOrNewcomer(name, key, cx + cy, cx + added + cy, c, score)
  {
    if added == [] {
      assert cx + added + cy == cx + cy;
    } else {
      InsertedAmongCandidates(name, key, cx, c, cy, score);
    }
  }

  lemma InsertedAmongQuotes(
      name: string, key: string, n: Request, xs: seq<Candidate>, c: Candidate, ys: seq<Candidate>, now: u64,
      score: Score)
    requires StrategyOf(name).Some?
    ensures SameOrNewcomer(name, key, Candidates(xs + ys, n, now), Candidates(xs + [c] + ys, n, now), c, score)
  {
    var added := CandidatesAfterInsertion(xs, c, ys, n, now);
    AddedOrNot(name, key, Candidates(xs, n, now), added, c, Candidates(ys, n, now), score);
  }

  // A new quote anywhere in the list either wins or changes nothing.
  lemma NewcomerWinsOrNothingChanges(
      r: Request, xs: seq<Candidate>, c: Candidate, ys: seq<Candidate>, now: u64, score: Score)
    requires Validate(r).Ok?
    ensures RouteOne(r, xs + [c] + ys, now, score) == RouteOne(r, xs + ys, now, score)
         || RouteOne(r, xs + [c] + ys, now, score) == Ok(Filled(Award(r.strategy, Corridor(r), c)))
  {
    RouteOneSettles(r, xs + [c] + ys, now, score);
    RouteOneSettles(r, xs + ys, now, score);
    InsertedAmongQuotes(r.strategy, Corridor(r), Normalized(r), xs, c, ys, now, score);
  }

  // ----- codes and keys -----

  lemma UpperIdempotent(s: string)
    ensures Upper(Upper(s)) == Upper(s)
  {
  }

  // A code already in canonical form is left alone.
  lemma CanonicalCodeUnchanged(code: string)
    requires Trimmed(code) && forall c <- code :: !('a' <= c <= 'z')
    ensures Normalize(code) == code
  {
    TrimOfTrimmed(code);
    assert forall i :: 0 <= i < |code| ==> code[i] in code;
  }

  lemma NormalizeIdempotent(code: string)
    ensures Normalize(Normalize(code)) == Normalize(code)
  {
    TrimIsTrimmed(code);
    TrimOfTrimmed(Trim(code));
    TrimUpper(Trim(code));
    UpperIdempotent(Trim(code));
  }

  // The reported key names the corridor: two valid requests share it only when they share both
  // normalized codes.
  lemma KeyIdentifiesCorridor(r: Request, other: Request)
    requires Validate(r).Ok? && Validate(other).Ok? && Corridor(r) == Corridor(other)
    ensures Normalize(r.base) == Normalize(other.base) && Normalize(r.quote) == Normalize(other.quote)
  {
    KeyParts(r);
    KeyParts(other);
  }

  lemma KeyParts(r: Request)
    requires Validate(r).Ok?
    ensures Before(Corridor(r), {'/'}) == Normalize(r.base)
    ensures |Corridor(r)| == |Normalize(r.base)| + 1 + |Normalize(r.quote)|
    ensures Corridor(r)[|Normalize(r.base)| + 1..] == Normalize(r.quote)
  {
    NormalizeIdempotent(r.base);
    NormalizeIdempotent(r.quote);
    assert !BadCode(Normalized(r).base);
    JoinedBySlash(Normalize(r.base), Normalize(r.quote));
  }

  lemma JoinedBySlash(base: string, quote: string)
    requires CodeCharset(base)
    ensures Before(base + "/" + quote, {'/'}) == base
    ensures (base + "/" + quote)[|base| + 1..] == quote
  {
    BeforeIs(base, "/" + quote, {'/'});
    assert base + "/" + quote == base + ("/" + quote);
  }
}
