// What a run of the filter delivers, from the operations alone: the manual suppressions decide
// which events reach the deduplicator, and those that do decide the rest.

module AlertDelivery {
  import opened Words
  import opened AlertDedup
  import Runs = AlertRuns
  import Capacity = AlertCapacity
  import opened AlertSuppression

  // ----- the two histories of a run -----

  // What the suppressor is asked and told.  Every event is a lookup.
  function ListOps(ops: seq<FilterOp>): seq<Op> {
    if ops == [] then [] else
      ListOps(ops[..|ops| - 1]) +
      match ops[|ops| - 1]
      case Event(fp, now) => [Query(fp, now)]
      case OnSuppressor(sop) => [sop]
      case OnDedup(_) => []
  }

  // The latest accepted suppression of fp, not lifted since, runs past now.
  predicate Muted(ops: seq<FilterOp>, fp: string, now: u64) {
    LatestExpiry(ListOps(ops), |ListOps(ops)|, fp) > now
  }

  // What reaches the deduplicator.
  function Reaching(ops: seq<FilterOp>): seq<Runs.Op> {
    if ops == [] then [] else
      var before := ops[..|ops| - 1];
      Reaching(before) +
      match ops[|ops| - 1]
      case Event(fp, now) => if Muted(before, fp, now) then [] else [Runs.Alert(fp, now)]
      case OnSuppressor(_) => []
      case OnDedup(dop) => [dop]
  }

  // ----- one more operation -----

  lemma {:induction false} ListPrefix(ops: seq<Op>, op: Op, n: nat)
    requires n <= |ops|
    ensures After(ops + [op], n) == After(ops, n) && Clock(ops + [op], n) == Clock(ops, n)
  {
    if n > 0 {
      ListPrefix(ops, op, n - 1);
    }
  }

  lemma ListAfter(ops: seq<Op>, op: Op)
    ensures After(ops + [op], |ops + [op]|) == Apply(After(ops, |ops|), op)
  {
    ListPrefix(ops, op, |ops|);
  }

  lemma ClockPrefix(ops: seq<Op>, op: Op)
    requires ClockNondecreasing(ops + [op])
    ensures ClockNondecreasing(ops) && Clock(ops, |ops|) <= Clock(ops + [op], |ops| + 1)
  {
    forall i | 0 <= i < |ops| ensures Clock(ops, i) <= Clock(ops, i + 1) {
      ListPrefix(ops, op, i);
      ListPrefix(ops, op, i + 1);
      assert Clock(ops + [op], i) <= Clock(ops + [op], i + 1);
    }
    ListPrefix(ops, op, |ops|);
    assert Clock(ops + [op], |ops|) <= Clock(ops + [op], |ops| + 1);
  }

  lemma DedupAfter(cfg: DedupConfig, ops: seq<Runs.Op>, op: Runs.Op)
    ensures Runs.After(cfg, ops + [op], |ops|) == Runs.After(cfg, ops, |ops|)
    ensures Runs.After(cfg, ops + [op], |ops + [op]|) == Runs.Apply(cfg, Runs.After(cfg, ops, |ops|), op)
  {
    var all := ops + [op];
    assert all[..|all| - 1] == ops;
    assert Runs.Trace(cfg, all)
        == Runs.Trace(cfg, ops) + [Runs.Apply(cfg, Runs.Trace(cfg, ops)[|ops|], op)];
  }

  // ----- the filter's state is that of the two histories -----

  ghost function ListState(ops: seq<FilterOp>): List {
    After(ListOps(ops), |ListOps(ops)|)
  }

  ghost function DedupState(cfg: DedupConfig, ops: seq<FilterOp>): State {
    Runs.After(cfg, Reaching(ops), |Reaching(ops)|)
  }

  lemma ActiveIffMuted(ops: seq<FilterOp>, fp: string, now: u64)
    requires ClockNondecreasing(ListOps(ops)) && Clock(ListOps(ops), |ListOps(ops)|) <= now
    ensures Active(ListState(ops), fp, now) <==> Muted(ops, fp, now)
  {
    var list := ListOps(ops);
    PurgingUnobservable(list, |list|, now, fp);
    KeptListIsLatestExpiry(list, |list|, now, fp);
  }

  lemma EventClock(ops: seq<FilterOp>, fp: string, now: u64)
    requires ClockNondecreasing(ListOps(ops + [Event(fp, now)]))
    ensures ClockNondecreasing(ListOps(ops)) && Clock(ListOps(ops), |ListOps(ops)|) <= now
  {
    var all := ops + [Event(fp, now)];
    assert all[..|all| - 1] == ops;
    assert ListOps(all) == ListOps(ops) + [Query(fp, now)];
    ClockPrefix(ListOps(ops), Query(fp, now));
  }

  lemma {:induction false} FilterIsBoth(cfg: DedupConfig, ops: seq<FilterOp>)
    requires ClockNondecreasing(ListOps(ops))
    ensures RunFilter(cfg, ops) == FilterState(DedupState(cfg, ops), ListState(ops))
  {
    if ops == [] {
      Runs.Start(cfg, []);
    } else {
      var before, op := ops[..|ops| - 1], ops[|ops| - 1];
      assert ops == before + [op];
      match op
      case Event(fp, now) =>
        EventClock(before, fp, now);
        FilterIsBoth(cfg, before);
        ActiveIffMuted(before, fp, now);
        ListAfter(ListOps(before), Query(fp, now));
        if Muted(before, fp, now) {
          assert Reaching(ops) == Reaching(before);
        } else {
          DedupAfter(cfg, Reaching(before), Runs.Alert(fp, now));
        }
      case OnSuppressor(sop) =>
        assert Reaching(ops) == Reaching(before);
        ClockPrefix(ListOps(before), sop);
        FilterIsBoth(cfg, before);
        ListAfter(ListOps(before), sop);
      case OnDedup(dop) =>
        assert ListOps(ops) == ListOps(before);
        FilterIsBoth(cfg, before);
        DedupAfter(cfg, Reaching(before), dop);
    }
  }

  // ----- what is delivered -----

  // In any run under a nondecreasing clock, an event is delivered exactly when its latest
  // accepted suppression, not lifted since, does not run past it, and, among the events that
  // reached the deduplicator, it has no window, has not fired since it was last reset, is a
  // window or more after it last fired, or was crowded out.
  lemma DeliveredIff(cfg: DedupConfig, ops: seq<FilterOp>, fp: string, now: u64)
    requires ClockNondecreasing(ListOps(ops + [Event(fp, now)]))
    ensures var list, events := ListOps(ops), Reaching(ops) + [Runs.Alert(fp, now)];
            var j := |events| - 1;
            var last := Runs.LastFire(cfg, events, j, fp);
            Deliver(cfg, RunFilter(cfg, ops), fp, now).1 <==>
            && LatestExpiry(list, |list|, fp) <= now
            && (|| cfg.windowSeconds == 0
                || last.None?
                || now >= events[last.value].now + cfg.windowSeconds
                || (cfg.maxKeys > 0 && Capacity.CrowdedOut(cfg, events, last.value, j)))
  {
    EventClock(ops, fp, now);
    FilterIsBoth(cfg, ops);
    ActiveIffMuted(ops, fp, now);
    var events := Reaching(ops) + [Runs.Alert(fp, now)];
    DedupAfter(cfg, Reaching(ops), Runs.Alert(fp, now));
    Capacity.DeliveredIff(cfg, events, |events| - 1);
  }
}
