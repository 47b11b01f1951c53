// The manual suppression list with lazy purging, and the filter that consults it before the
// deduplicator.

module AlertSuppression {
  import opened Words
  import opened AlertDedup
  import AlertRuns

  datatype SuppressedEntry = SuppressedEntry(fingerprint: string, expiresAt: u64, reason: string)

  type List = map<string, SuppressedEntry>

  // ----- steps on the list -----

  function Suppress(l: List, fp: string, now: u64, expiresAt: u64, reason: string): List {
    if expiresAt <= now then l else l[fp := SuppressedEntry(fp, expiresAt, reason)]
  }

  predicate Active(l: List, fp: string, now: u64) {
    fp in l && l[fp].expiresAt > now
  }

  // A lookup drops the entry it finds expired.
  function Touch(l: List, fp: string, now: u64): List {
    if fp in l && l[fp].expiresAt <= now then l - {fp} else l
  }

  function Purge(l: List, now: u64): List {
    map fp | fp in l && l[fp].expiresAt > now :: l[fp]
  }

  function ActiveKeys(l: List, now: u64): set<string> {
    set fp | fp in l && l[fp].expiresAt > now
  }

  class AlertSuppressor {
    var entries: List

    constructor ()
      ensures entries == map[]
    {
      entries := map[];
    }

    method Suppress(fp: string, now: u64, expiresAt: u64, reason: string)
      modifies this
      ensures entries == if expiresAt <= now then old(entries)
                         else old(entries)[fp := SuppressedEntry(fp, expiresAt, reason)]
    {
      if expiresAt <= now {
        return;
      }
      entries := entries[fp := SuppressedEntry(fp, expiresAt, reason)];
    }

    method IsSuppressed(fp: string, now: u64) returns (suppressed: bool)
      modifies this
      ensures suppressed == Active(old(entries), fp, now)
      ensures entries == Touch(old(entries), fp, now)
      ensures fp in old(entries) && !suppressed ==> entries == old(entries) - {fp}
      ensures fp !in old(entries) || suppressed ==> entries == old(entries)
    {
      if fp !in entries {
        return false;
      }
      if entries[fp].expiresAt <= now {
        entries := entries - {fp};
        return false;
      }
      return true;
    }

    method Unsuppress(fp: string)
      modifies this
      ensures entries == old(entries) - {fp}
    {
      entries := entries - {fp};
    }

    // Keeps exactly the unexpired entries.
    method PurgeExpired(now: u64)
      modifies this
      ensures entries == Purge(old(entries), now)
      ensures forall fp :: fp in entries <==> fp in old(entries) && old(entries)[fp].expiresAt > now
      ensures forall fp <- entries.Keys :: entries[fp] == old(entries)[fp]
    {
      entries := map fp | fp in entries && entries[fp].expiresAt > now :: entries[fp];
    }

    method ActiveCount(now: u64) returns (n: nat)
      ensures n == |ActiveKeys(entries, now)|
    {
      n := 0;
      var rest := entries.Keys;
      ghost var counted: set<string> := {};
      while rest != {}
        invariant rest <= entries.Keys
        invariant counted == ActiveKeys(entries, now) - rest && n == |counted|
        decreases |rest|
      {
        var fp :| fp in rest;
        if entries[fp].expiresAt > now {
          counted := counted + {fp};
          n := n + 1;
        }
        rest := rest - {fp};
      }
      assert counted == ActiveKeys(entries, now);
    }
  }

  // ----- purging is unobservable -----

  datatype Op =
    | Add(fp: string, now: u64, expiresAt: u64, reason: string)
    | Query(fp: string, now: u64)
    | Lift(fp: string)
    | Sweep(now: u64)
    | CountActive(now: u64)

  function Apply(l: List, op: Op): List {
    match op
    case Add(fp, now, expiresAt, reason) => Suppress(l, fp, now, expiresAt, reason)
    case Query(fp, now) => Touch(l, fp, now)
    case Lift(fp) => l - {fp}
    case Sweep(now) => Purge(l, now)
    case CountActive(_) => l
  }

  // The list as it would be if nothing were ever purged.
  function ApplyKeeping(l: List, op: Op): List {
    match op
    case Add(_, _, _, _) => Apply(l, op)
    case Lift(_) => Apply(l, op)
    case _ => l
  }

  function After(ops: seq<Op>, n: nat): List
    requires n <= |ops|
  {
    if n == 0 then map[] else Apply(After(ops, n - 1), ops[n - 1])
  }

  function AfterKeeping(ops: seq<Op>, n: nat): List
    requires n <= |ops|
  {
    if n == 0 then map[] else ApplyKeeping(AfterKeeping(ops, n - 1), ops[n - 1])
  }

  // The time of the last operation that carries one.
  function Clock(ops: seq<Op>, n: nat): u64
    requires n <= |ops|
  {
    if n == 0 then 0
    else if ops[n - 1].Lift? then Clock(ops, n - 1)
    else ops[n - 1].now
  }

  ghost predicate ClockNondecreasing(ops: seq<Op>) {
    forall i :: 0 <= i < |ops| ==> Clock(ops, i) <= Clock(ops, i + 1)
  }

  // The purged list is the kept one without some entries that had expired by `clock`.
  ghost predicate PurgedOf(purged: List, kept: List, clock: u64) {
    && (forall fp <- purged.Keys :: fp in kept && kept[fp] == purged[fp])
    && (forall fp <- kept.Keys :: fp in purged || kept[fp].expiresAt <= clock)
  }

  lemma {:induction false} PurgingOnlyDropsExpired(ops: seq<Op>, n: nat)
    requires n <= |ops| && ClockNondecreasing(ops)
    ensures PurgedOf(After(ops, n), AfterKeeping(ops, n), Clock(ops, n))
  {
    if n > 0 {
      PurgingOnlyDropsExpired(ops, n - 1);
      assert Clock(ops, n - 1) <= Clock(ops, n);
    }
  }

  // No later answer can tell whether expired entries were purged: both lists name the same
  // active fingerprints at every time from the clock on.
  lemma PurgingUnobservable(ops: seq<Op>, n: nat, now: u64, fp: string)
    requires n <= |ops| && ClockNondecreasing(ops) && Clock(ops, n) <= now
    ensures Active(After(ops, n), fp, now) == Active(AfterKeeping(ops, n), fp, now)
    ensures |ActiveKeys(After(ops, n), now)| == |ActiveKeys(AfterKeeping(ops, n), now)|
  {
    PurgingOnlyDropsExpired(ops, n);
    assert ActiveKeys(After(ops, n), now) == ActiveKeys(AfterKeeping(ops, n), now);
  }

  // In the never-purged list, a fingerprint is active exactly when its latest accepted
  // suppression, not lifted since, runs past `now`.
  function LatestExpiry(ops: seq<Op>, n: nat, fp: string): u64
    requires n <= |ops|
  {
    if n == 0 then 0
    else match ops[n - 1]
      case Add(k, at, expiresAt, _) => if k == fp && expiresAt > at then expiresAt else LatestExpiry(ops, n - 1, fp)
      case Lift(k) => if k == fp then 0 else LatestExpiry(ops, n - 1, fp)
      case _ => LatestExpiry(ops, n - 1, fp)
  }

  lemma {:induction false} KeptListIsLatestExpiry(ops: seq<Op>, n: nat, now: u64, fp: string)
    requires n <= |ops|
    ensures Active(AfterKeeping(ops, n), fp, now) <==> LatestExpiry(ops, n, fp) > now
  {
    if n > 0 {
      KeptListIsLatestExpiry(ops, n - 1, now, fp);
    }
  }

  // A lookup in the purging list answers from the suppression history alone.
  lemma SuppressedIffLatestExpiryAhead(ops: seq<Op>, n: nat)
    requires n < |ops| && ops[n].Query? && ClockNondecreasing(ops)
    ensures Active(After(ops, n), ops[n].fp, ops[n].now) <==> LatestExpiry(ops, n, ops[n].fp) > ops[n].now
  {
    assert Clock(ops, n) <= Clock(ops, n + 1);
    PurgingUnobservable(ops, n, ops[n].now, ops[n].fp);
    KeptListIsLatestExpiry(ops, n, ops[n].now, ops[n].fp);
  }

  // So does a count: what it counts are the fingerprints whose latest expiry lies ahead.
  lemma {:induction false} ActiveKeysAreHistory(ops: seq<Op>, n: nat, now: u64)
    requires n <= |ops| && ClockNondecreasing(ops) && Clock(ops, n) <= now
    ensures forall fp: string :: fp in ActiveKeys(After(ops, n), now) <==> LatestExpiry(ops, n, fp) > now
  {
    forall fp: string ensures fp in ActiveKeys(After(ops, n), now) <==> LatestExpiry(ops, n, fp) > now {
      PurgingUnobservable(ops, n, now, fp);
      KeptListIsLatestExpiry(ops, n, now, fp);
    }
  }

  // ----- the filter -----

  datatype FilterState = FilterState(dedup: State, list: List)

  ghost function Deliver(cfg: DedupConfig, s: FilterState, fp: string, now: u64): (FilterState, bool) {
    var list := Touch(s.list, fp, now);
    if Active(s.list, fp, now) then (s.(list := list), false)
    else
      var (d, fires) := Decide(cfg, s.dedup, fp, now);
      (FilterState(d, list), fires)
  }

  class AlertFilter {
    const dedup: AlertDeduplicator
    const suppressor: AlertSuppressor

    ghost function View(): FilterState
      reads dedup, suppressor
    {
      FilterState(dedup.View(), suppressor.entries)
    }

    constructor (config: DedupConfig)
      ensures fresh(dedup) && fresh(suppressor) && dedup.config == config
      ensures View() == FilterState(State(map[], []), map[])
    {
      dedup := new AlertDeduplicator(config);
      suppressor := new AlertSuppressor();
    }

    method ShouldDeliver(fp: string, now: u64) returns (deliver: bool)
      modifies dedup, suppressor
      ensures (View(), deliver) == Deliver(dedup.config, old(View()), fp, now)
    {
      var suppressed := suppressor.IsSuppressed(fp, now);
      if suppressed {
        return false;
      }
      deliver := dedup.ShouldFire(fp, now);
    }
  }

  // ----- manual suppression leaves no trace in the deduplicator -----

  datatype FilterOp =
    | Event(fp: string, now: u64)
    | OnSuppressor(sop: Op)
    | OnDedup(dop: AlertRuns.Op)

  ghost function ApplyFilter(cfg: DedupConfig, s: FilterState, op: FilterOp): FilterState {
    match op
    case Event(fp, now) => Deliver(cfg, s, fp, now).0
    case OnSuppressor(sop) => s.(list := Apply(s.list, sop))
    case OnDedup(dop) => s.(dedup := AlertRuns.Apply(cfg, s.dedup, dop))
  }

  ghost function RunFilter(cfg: DedupConfig, ops: seq<FilterOp>): FilterState {
    if ops == [] then FilterState(State(map[], []), map[])
    else ApplyFilter(cfg, RunFilter(cfg, ops[..|ops| - 1]), ops[|ops| - 1])
  }

  ghost predicate ManuallySuppressed(s: FilterState, op: FilterOp) {
    op.Event? && Active(s.list, op.fp, op.now)
  }

  // The events that reach the deduplicator, each with its decision.
  ghost function Decisions(cfg: DedupConfig, ops: seq<FilterOp>): seq<(string, u64, bool)> {
    if ops == [] then [] else
      var before, op := ops[..|ops| - 1], ops[|ops| - 1];
      var s := RunFilter(cfg, before);
      Decisions(cfg, before)
      + if op.Event? && !ManuallySuppressed(s, op)
        then [(op.fp, op.now, Deliver(cfg, s, op.fp, op.now).1)] else []
  }

  ghost function EraseSuppressed(cfg: DedupConfig, ops: seq<FilterOp>): seq<FilterOp> {
    if ops == [] then [] else
      var before, op := ops[..|ops| - 1], ops[|ops| - 1];
      EraseSuppressed(cfg, before)
      + if ManuallySuppressed(RunFilter(cfg, before), op) then [] else [op]
  }

  // Erasing every manually suppressed event leaves all other decisions and the final state as
  // they were.
  lemma {:induction false} SuppressedEventsAreInvisible(cfg: DedupConfig, ops: seq<FilterOp>)
    ensures RunFilter(cfg, EraseSuppressed(cfg, ops)) == RunFilter(cfg, ops)
    ensures Decisions(cfg, EraseSuppressed(cfg, ops)) == Decisions(cfg, ops)
  {
    if ops != [] {
      var before, op := ops[..|ops| - 1], ops[|ops| - 1];
      SuppressedEventsAreInvisible(cfg, before);
      var kept := EraseSuppressed(cfg, before);
      if ManuallySuppressed(RunFilter(cfg, before), op) {
        assert EraseSuppressed(cfg, ops) == kept;
      } else {
        assert EraseSuppressed(cfg, ops) == kept + [op];
        assert (kept + [op])[..|kept + [op]| - 1] == kept;
      }
    }
  }
}
