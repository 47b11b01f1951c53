// TTL policy arithmetic with saturating 64-bit operations.

module CachePolicy {
  import opened Words

  datatype Policy = Policy(minTtl: u64, maxTtl: u64, refreshPct: u32, allowForced: bool)

  datatype Error = ValidationError

  function Validate(p: Policy): Result<(), Error> {
    if p.minTtl == 0 then Err(ValidationError)
    else if p.minTtl >= p.maxTtl then Err(ValidationError)
    else if p.refreshPct == 0 || p.refreshPct >= 100 then Err(ValidationError)
    else Ok(())
  }

  function ClampTtl(p: Policy, requested: u64): u64 {
    if requested == 0 then SatAdd64(p.minTtl, SatSub(p.maxTtl, p.minTtl) / 2)
    else Min(Max(requested, p.minTtl), p.maxTtl)
  }

  function RefreshThreshold(p: Policy, ttl: u64): u64 {
    SatMul64(ttl, p.refreshPct) / 100
  }

  predicate NeedsRefresh(p: Policy, age: u64, ttl: u64) {
    age >= RefreshThreshold(p, ttl)
  }

  predicate IsExpired(age: u64, ttl: u64) {
    age >= ttl
  }

  // (needs refresh, expired)
  function EnforceRead(p: Policy, age: u64, ttl: u64): Result<(bool, bool), Error> {
    if ttl == 0 then Err(ValidationError) else Ok((NeedsRefresh(p, age, ttl), IsExpired(age, ttl)))
  }

  // (effective TTL, needs refresh)
  function EnforceWrite(p: Policy, requested: u64, age: u64): (u64, bool) {
    var ttl := ClampTtl(p, requested);
    (ttl, NeedsRefresh(p, age, ttl))
  }

  // ----- clamping -----

  // The clamped TTL is in the band, in-band requests are kept, clamping twice is clamping once,
  // and the midpoint default is exact: nothing saturates.
  lemma ClampLandsInBand(p: Policy, requested: u64)
    requires Validate(p).Ok?
    ensures p.minTtl <= ClampTtl(p, requested) <= p.maxTtl
    ensures p.minTtl <= requested <= p.maxTtl ==> ClampTtl(p, requested) == requested
    ensures ClampTtl(p, ClampTtl(p, requested)) == ClampTtl(p, requested)
    ensures 2 * ClampTtl(p, 0) == p.minTtl + p.maxTtl - (p.maxTtl - p.minTtl) % 2
  {
  }

  lemma ClampMonotone(p: Policy, a: u64, b: u64)
    requires Validate(p).Ok? && 0 < a <= b
    ensures ClampTtl(p, a) <= ClampTtl(p, b)
  {
  }

  // ----- classification -----

  // The threshold never passes the TTL, not even when the multiplication saturates.
  lemma ThresholdWithinTtl(p: Policy, ttl: u64)
    requires Validate(p).Ok?
    ensures RefreshThreshold(p, ttl) <= ttl
  {
    var pct: int := p.refreshPct;
    assert ttl * pct <= ttl * 99 by {
      MulMonotone(ttl, pct, 99);
    }
    assert RefreshThreshold(p, ttl) <= ttl * 99 / 100;
  }

  lemma MulMonotone(a: nat, b: nat, c: nat)
    requires b <= c
    ensures a * b <= a * c
  {
  }

  // The threshold is the rounded-down percentage, with the product capped at 64 bits.
  lemma RefreshPoint(p: Policy, age: u64, ttl: u64)
    ensures NeedsRefresh(p, age, ttl) <==> 100 * (age + 1) > Min(ttl * p.refreshPct, U64_MAX)
  {
    Product(ttl, p.refreshPct);
  }

  // A policy is valid when its band is not empty and its percentage is one of 1 to 99.
  lemma ValidIff(p: Policy)
    ensures Validate(p).Ok? <==> 0 < p.minTtl < p.maxTtl && 0 < p.refreshPct < 100
  {
  }

  // A write reports the clamped TTL and whether its age has reached the refresh point; a read of
  // an entry without a TTL is refused.
  lemma Reports(p: Policy, requested: u64, age: u64)
    ensures EnforceWrite(p, requested, age).0 == ClampTtl(p, requested)
    ensures EnforceWrite(p, requested, age).1 <==>
            100 * (age + 1) > Min(ClampTtl(p, requested) * p.refreshPct, U64_MAX)
    ensures EnforceRead(p, age, 0) == Err(ValidationError)
  {
    RefreshPoint(p, age, ClampTtl(p, requested));
  }

  datatype Freshness = Fresh | Refresh | Expired

  function Classify(p: Policy, age: u64, ttl: u64): Freshness {
    if IsExpired(age, ttl) then Expired else if NeedsRefresh(p, age, ttl) then Refresh else Fresh
  }

  function Rank(f: Freshness): nat {
    match f case Fresh => 0 case Refresh => 1 case Expired => 2
  }

  // An ageing entry only moves from fresh to refresh to expired, each read reports exactly that
  // class, and "expired without refresh" is never reported.
  lemma AgeingOnlyAdvances(p: Policy, ttl: u64, age: u64, later: u64)
    requires Validate(p).Ok? && ttl > 0 && age <= later
    ensures Rank(Classify(p, age, ttl)) <= Rank(Classify(p, later, ttl))
    ensures EnforceRead(p, age, ttl) == Ok(match Classify(p, age, ttl)
                                           case Fresh => (false, false)
                                           case Refresh => (true, false)
                                           case Expired => (true, true))
  {
    ThresholdWithinTtl(p, ttl);
  }

  // Every class is reached exactly on its interval of ages.
  lemma ClassIntervals(p: Policy, ttl: u64, age: u64)
    requires Validate(p).Ok? && ttl > 0
    ensures Classify(p, age, ttl) == Fresh <==> age < RefreshThreshold(p, ttl)
    ensures Classify(p, age, ttl) == Refresh <==> RefreshThreshold(p, ttl) <= age < ttl
    ensures Classify(p, age, ttl) == Expired <==> ttl <= age
  {
    ThresholdWithinTtl(p, ttl);
  }

  // The documentation promises that a brand-new write is never flagged for refresh.  It is
  // flagged exactly when the threshold rounds down to zero.
  lemma BrandNewWriteFlaggedIff(p: Policy, requested: u64)
    requires Validate(p).Ok?
    ensures EnforceWrite(p, requested, 0).1 <==> ClampTtl(p, requested) * p.refreshPct < 100
  {
    var ttl := ClampTtl(p, requested);
    Product(ttl, p.refreshPct);
    assert SatMul64(ttl, p.refreshPct) < 100 <==> ttl * p.refreshPct < 100;
  }

  lemma BrandNewWriteCanBeFlagged()
    ensures exists p: Policy :: Validate(p).Ok? && EnforceWrite(p, 1, 0).1
  {
    var p := Policy(1, 2, 1, false);
    assert Validate(p).Ok? && EnforceWrite(p, 1, 0).1;
  }

  // ----- the shipped defaults -----

  const DEFAULT_METADATA := Policy(60, 86_400, 80, true)
  const DEFAULT_CAPABILITIES := Policy(300, 604_800, 75, true)
  const DEFAULT_OTHER := Policy(30, 43_200, 70, false)

  // Under the defaults the promise does hold: no brand-new write is flagged.
  lemma DefaultsNeverFlagNewWrites(p: Policy, requested: u64)
    requires p == DEFAULT_METADATA || p == DEFAULT_CAPABILITIES || p == DEFAULT_OTHER
    ensures Validate(p).Ok? && !EnforceWrite(p, requested, 0).1
  {
    ClampLandsInBand(p, requested);
    BrandNewWriteFlaggedIff(p, requested);
    MulMonotone(p.refreshPct, 30, ClampTtl(p, requested));
  }
}
