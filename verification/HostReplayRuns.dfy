// The pruning guard answers like a guard that never forgets anything.

module HostReplayRuns {
  import opened Words
  import opened HostReplay

  datatype Op =
    | Check(id: string, actor: string, now: u64)
    | Prune(now: u64)
    | Forget(id: string)
    | Reset

  function Apply(window: u64, s: State, op: Op): State {
    match op
    case Check(id, actor, now) => Decide(window, s, id, actor, now).0
    case Prune(now) => s.(entries := Retain(window, s.entries, now))
    case Forget(id) => s.(entries := Without(s.entries, id))
    case Reset => State([], 0, 0)
  }

  function After(window: u64, ops: seq<Op>): State {
    if ops == [] then State([], 0, 0)
    else Apply(window, After(window, ops[..|ops| - 1]), ops[|ops| - 1])
  }

  function Answer(window: u64, ops: seq<Op>, id: string, now: u64): CheckResult {
    Decide(window, After(window, ops), id, "", now).1
  }

  // ----- the reference: history alone -----

  // Zero means that nothing ever leaves the window.
  predicate WithinWindow(window: u64, seen: u64, now: u64) {
    window == 0 || now <= seen + window
  }

  // When id was last accepted and not forgotten since.
  function LastAccepted(window: u64, ops: seq<Op>, id: string): Option<u64> {
    if ops == [] then None else
      var before, op := ops[..|ops| - 1], ops[|ops| - 1];
      match op
      case Check(other, _, now) =>
        var last := LastAccepted(window, before, id);
        if other == id && (last.None? || (window > 0 && now > last.value + window)) then Some(now) else last
      case Prune(_) => LastAccepted(window, before, id)
      case Forget(other) => if other == id then None else LastAccepted(window, before, id)
      case Reset => None
  }

  function Judge(window: u64, last: Option<u64>, now: u64): CheckResult {
    if last.Some? && WithinWindow(window, last.value, now) then Replay(last.value) else Accepted
  }

  // ----- clocks -----

  function Clock(ops: seq<Op>): u64 {
    if ops == [] then 0 else
      match ops[|ops| - 1]
      case Check(_, _, now) => now
      case Prune(now) => now
      case _ => Clock(ops[..|ops| - 1])
  }

  predicate Ticks(ops: seq<Op>) {
    ops == [] || (Ticks(ops[..|ops| - 1]) && Clock(ops[..|ops| - 1]) <= Clock(ops))
  }

  // ----- lists -----

  predicate Distinct(entries: seq<SeenEntry>) {
    forall i, j :: 0 <= i < j < |entries| ==> entries[i].id != entries[j].id
  }

  predicate Ascending(entries: seq<SeenEntry>, clock: u64) {
    && (forall i, j :: 0 <= i < j < |entries| ==> entries[i].firstSeenAt <= entries[j].firstSeenAt)
    && (forall e <- entries :: e.firstSeenAt <= clock)
  }

  lemma FindDistinct(entries: seq<SeenEntry>, e: SeenEntry)
    requires Distinct(entries) && e in entries
    ensures Find(entries, e.id) == Some(e)
  {
  }

  lemma {:induction false} RetainMembers(window: u64, entries: seq<SeenEntry>, now: u64)
    ensures forall e :: e in Retain(window, entries, now) <==> e in entries && Keeps(window, e, now)
  {
    if entries != [] {
      RetainMembers(window, entries[..|entries| - 1], now);
      assert entries == entries[..|entries| - 1] + [entries[|entries| - 1]];
    }
  }

  lemma {:induction false} RetainOrdered(window: u64, entries: seq<SeenEntry>, now: u64, clock: u64)
    requires Distinct(entries) && Ascending(entries, clock)
    ensures Distinct(Retain(window, entries, now)) && Ascending(Retain(window, entries, now), clock)
  {
    if entries != [] {
      var front, last := entries[..|entries| - 1], entries[|entries| - 1];
      assert entries == front + [last];
      FrontOrdered(front, last, clock);
      RetainOrdered(window, front, now, clock);
      RetainMembers(window, front, now);
      AppendOrdered(front, Retain(window, front, now), last, clock);
    }
  }

  lemma FrontOrdered(front: seq<SeenEntry>, last: SeenEntry, clock: u64)
    requires Distinct(front + [last]) && Ascending(front + [last], clock)
    ensures Distinct(front) && Ascending(front, clock)
  {
    var all := front + [last];
    assert forall i :: 0 <= i < |front| ==> front[i] == all[i] && all[i] in all;
  }

  lemma AppendOrdered(front: seq<SeenEntry>, kept: seq<SeenEntry>, last: SeenEntry, clock: u64)
    requires Distinct(front + [last]) && Ascending(front + [last], clock)
    requires Distinct(kept) && Ascending(kept, clock)
    requires forall e <- kept :: e in front
    ensures Distinct(kept + [last]) && Ascending(kept + [last], clock)
  {
    var all := front + [last];
    assert all[|front|] == last;
    forall e | e in kept ensures e.id != last.id && e.firstSeenAt <= last.firstSeenAt {
      var i :| 0 <= i < |front| && front[i] == e;
      assert all[i] == e;
    }
    assert last in all;
  }

  lemma {:induction false} WithoutMembers(entries: seq<SeenEntry>, id: string)
    ensures forall e :: e in Without(entries, id) <==> e in entries && e.id != id
  {
    if entries != [] {
      WithoutMembers(entries[..|entries| - 1], id);
      assert entries == entries[..|entries| - 1] + [entries[|entries| - 1]];
    }
  }

  lemma {:induction false} WithoutOrdered(entries: seq<SeenEntry>, id: string, clock: u64)
    requires Distinct(entries) && Ascending(entries, clock)
    ensures Distinct(Without(entries, id)) && Ascending(Without(entries, id), clock)
  {
    if entries != [] {
      var front, last := entries[..|entries| - 1], entries[|entries| - 1];
      assert entries == front + [last];
      FrontOrdered(front, last, clock);
      WithoutOrdered(front, id, clock);
      WithoutMembers(front, id);
      AppendOrdered(front, Without(front, id), last, clock);
    }
  }

  // ----- the simulation -----

  // The guard's list against the full history: what it holds is the last acceptance, and what
  // it lacks has expired.
  ghost predicate Remembers(window: u64, entries: seq<SeenEntry>, ops: seq<Op>, id: string) {
    match LastAccepted(window, ops, id)
    case None => forall e <- entries :: e.id != id
    case Some(t) =>
      || (exists e <- entries :: e.id == id && e.firstSeenAt == t)
      || ((forall e <- entries :: e.id != id) && !WithinWindow(window, t, Clock(ops)))
  }

  // The list keeps at most one entry per id, oldest first.
  lemma {:induction false} ListInvariant(window: u64, ops: seq<Op>)
    requires Ticks(ops)
    ensures Distinct(After(window, ops).entries)
    ensures Ascending(After(window, ops).entries, Clock(ops))
  {
    if ops != [] {
      var before, op := ops[..|ops| - 1], ops[|ops| - 1];
      ListInvariant(window, before);
      var entries, clock := After(window, before).entries, Clock(before);
      match op
      case Check(id, actor, now) => CheckOrdered(window, After(window, before), id, actor, now, clock);
      case Prune(now) => RetainOrdered(window, entries, now, clock);
      case Forget(id) => WithoutOrdered(entries, id, clock);
      case Reset =>
    }
  }

  lemma CheckOrdered(window: u64, s: State, id: string, actor: string, now: u64, clock: u64)
    requires Distinct(s.entries) && Ascending(s.entries, clock) && clock <= now
    ensures var entries := Decide(window, s, id, actor, now).0.entries;
            Distinct(entries) && Ascending(entries, now)
  {
    RetainOrdered(window, s.entries, now, clock);
    var kept := Retain(window, s.entries, now);
    assert Ascending(kept, now);
    if Find(kept, id).None? {
      NewcomerOrdered(kept, SeenEntry(id, actor, now));
    }
  }

  lemma NewcomerOrdered(kept: seq<SeenEntry>, e: SeenEntry)
    requires Distinct(kept) && Ascending(kept, e.firstSeenAt) && forall o <- kept :: o.id != e.id
    ensures Distinct(kept + [e]) && Ascending(kept + [e], e.firstSeenAt)
  {
    var all := kept + [e];
    assert forall i :: 0 <= i < |kept| ==> all[i] == kept[i] && kept[i] in kept;
  }

  // Pruning at a current time leaves exactly what the history says is still in the window.
  lemma RetainedIsJudged(window: u64, entries: seq<SeenEntry>, ops: seq<Op>, id: string, now: u64)
    requires Distinct(entries) && Distinct(Retain(window, entries, now))
    requires Remembers(window, entries, ops, id) && Clock(ops) <= now
    ensures var last, f := LastAccepted(window, ops, id), Find(Retain(window, entries, now), id);
            if Judge(window, last, now).Replay? then f.Some? && f.value.firstSeenAt == last.value else f.None?
  {
    RetainMembers(window, entries, now);
    var last, kept := LastAccepted(window, ops, id), Retain(window, entries, now);
    if last.Some? && exists e <- entries :: e.id == id && e.firstSeenAt == last.value {
      var e :| e in entries && e.id == id && e.firstSeenAt == last.value;
      FindDistinct(entries, e);
      if e in kept {
        FindDistinct(kept, e);
      } else {
        var f := Find(kept, id);
        if f.Some? {
          FindDistinct(entries, f.value);
        }
      }
    }
  }

  lemma {:induction false} GuardRemembers(window: u64, ops: seq<Op>, id: string)
    requires Ticks(ops)
    ensures Remembers(window, After(window, ops).entries, ops, id)
  {
    if ops != [] {
      var before, op := ops[..|ops| - 1], ops[|ops| - 1];
      GuardRemembers(window, before, id);
      var entries := After(window, before).entries;
      assert ops == before + [op];
      ListInvariant(window, before);
      match op
      case Check(other, actor, now) =>
        GuardRemembers(window, before, other);
        RetainOrdered(window, entries, now, Clock(before));
        CheckRemembers(window, entries, before, op, id);
      case Prune(now) =>
        RetainOrdered(window, entries, now, Clock(before));
        PruneRemembers(window, entries, before, now, id);
      case Forget(other) => ForgetRemembers(window, entries, before, other, id);
      case Reset =>
    }
  }

  lemma PruneRemembers(window: u64, entries: seq<SeenEntry>, ops: seq<Op>, now: u64, id: string)
    requires Distinct(entries) && Distinct(Retain(window, entries, now))
    requires Remembers(window, entries, ops, id) && Clock(ops) <= now
    ensures Remembers(window, Retain(window, entries, now), ops + [Prune(now)], id)
  {
    assert (ops + [Prune(now)])[..|ops|] == ops;
    RetainedIsJudged(window, entries, ops, id, now);
  }

  lemma ForgetRemembers(window: u64, entries: seq<SeenEntry>, ops: seq<Op>, other: string, id: string)
    requires Remembers(window, entries, ops, id)
    ensures Remembers(window, Without(entries, other), ops + [Forget(other)], id)
  {
    assert (ops + [Forget(other)])[..|ops|] == ops;
    WithoutMembers(entries, other);
  }

  lemma CheckRemembers(window: u64, entries: seq<SeenEntry>, ops: seq<Op>, op: Op, id: string)
    requires Distinct(entries) && Remembers(window, entries, ops, id)
    requires op.Check? && Remembers(window, entries, ops, op.id) && Clock(ops) <= op.now
    requires Distinct(Retain(window, entries, op.now))
    ensures Remembers(window, Apply(window, State(entries, 0, 0), op).entries, ops + [op], id)
  {
    assert (ops + [op])[..|ops|] == ops;
    RetainedIsJudged(window, entries, ops, op.id, op.now);
    RetainedIsJudged(window, entries, ops, id, op.now);
  }

  // Under a clock that never runs back, every answer is the one the full history gives, however
  // often the list was pruned.
  lemma PruningUnobservable(window: u64, ops: seq<Op>, id: string, now: u64)
    requires Ticks(ops) && Clock(ops) <= now
    ensures var last := LastAccepted(window, ops, id);
            Answer(window, ops, id, now) ==
            if last.Some? && (window == 0 || now <= last.value + window) then Replay(last.value) else Accepted
  {
    ListInvariant(window, ops);
    GuardRemembers(window, ops, id);
    RetainOrdered(window, After(window, ops).entries, now, Clock(ops));
    RetainedIsJudged(window, After(window, ops).entries, ops, id, now);
  }

  predicate Known(entries: seq<SeenEntry>, id: string) {
    exists e <- entries :: e.id == id
  }

  // Every operation that carries a time prunes to it, so what is held is within the window.
  lemma {:induction false} HeldIsWithinWindow(window: u64, ops: seq<Op>)
    requires Ticks(ops)
    ensures forall e <- After(window, ops).entries :: Keeps(window, e, Clock(ops))
  {
    if ops != [] {
      var before, op := ops[..|ops| - 1], ops[|ops| - 1];
      var entries := After(window, before).entries;
      HeldIsWithinWindow(window, before);
      match op
      case Check(_, _, now) => RetainMembers(window, entries, now);
      case Prune(now) => RetainMembers(window, entries, now);
      case Forget(id) => WithoutMembers(entries, id);
      case Reset =>
    }
  }

  // An id is known exactly when its last acceptance, not forgotten since, is inside the window,
  // and so exactly when a check at this moment would answer with a replay.
  lemma KnownIffReplay(window: u64, ops: seq<Op>, id: string)
    requires Ticks(ops)
    ensures var last := LastAccepted(window, ops, id);
            Known(After(window, ops).entries, id) <==>
            last.Some? && (window == 0 || Clock(ops) <= last.value + window)
    ensures Known(After(window, ops).entries, id) <==> Answer(window, ops, id, Clock(ops)).Replay?
  {
    GuardRemembers(window, ops, id);
    HeldIsWithinWindow(window, ops);
    PruningUnobservable(window, ops, id, Clock(ops));
  }

  ghost predicate RecordedBy(ops: seq<Op>, k: nat, e: SeenEntry) {
    k < |ops| && ops[k] == Check(e.id, e.actor, e.firstSeenAt)
  }

  // Every held entry is what one check asked for, with its identifier, actor and time.
  lemma {:induction false} HeldWasChecked(window: u64, ops: seq<Op>, e: SeenEntry) returns (k: nat)
    requires e in After(window, ops).entries
    ensures RecordedBy(ops, k, e)
  {
    var before, op := ops[..|ops| - 1], ops[|ops| - 1];
    var entries := After(window, before).entries;
    match op {
      case Check(id, actor, now) => RetainMembers(window, entries, now);
      case Prune(now) => RetainMembers(window, entries, now);
      case Forget(id) => WithoutMembers(entries, id);
      case Reset =>
    }
    if e in entries {
      k := HeldWasChecked(window, before, e);
    } else {
      k := |ops| - 1;
    }
  }

  // ----- consequences -----

  function ErasePrunes(ops: seq<Op>): seq<Op> {
    if ops == [] then [] else
      var op := ops[|ops| - 1];
      ErasePrunes(ops[..|ops| - 1]) + if op.Prune? then [] else [op]
  }

  lemma {:induction false} ErasingPrunes(window: u64, ops: seq<Op>, id: string)
    requires Ticks(ops)
    ensures Ticks(ErasePrunes(ops)) && Clock(ErasePrunes(ops)) <= Clock(ops)
    ensures LastAccepted(window, ErasePrunes(ops), id) == LastAccepted(window, ops, id)
  {
    if ops != [] {
      var before, op := ops[..|ops| - 1], ops[|ops| - 1];
      ErasingPrunes(window, before, id);
      var kept := ErasePrunes(before);
      assert (kept + [op])[..|kept|] == kept;
      if op.Prune? {
        assert ErasePrunes(ops) == kept;
      }
    }
  }

  // Explicit prunes at current times change no answer.
  lemma ExtraPrunesChangeNothing(window: u64, ops: seq<Op>, id: string, now: u64)
    requires Ticks(ops) && Clock(ops) <= now
    ensures Answer(window, ops, id, now) == Answer(window, ErasePrunes(ops), id, now)
  {
    ErasingPrunes(window, ops, id);
    PruningUnobservable(window, ops, id, now);
    PruningUnobservable(window, ErasePrunes(ops), id, now);
  }

  predicate Forgets(op: Op, id: string) {
    op.Reset? || (op.Forget? && op.id == id)
  }

  // Without forgetting, two acceptances of one id are more than a window apart, and under the
  // unlimited window there is never a second one.
  lemma AcceptancesSpacedOut(window: u64, ops: seq<Op>, i: nat, id: string, now: u64)
    requires Ticks(ops) && Clock(ops) <= now
    requires i < |ops| && ops[i].Check? && ops[i].id == id
    requires Answer(window, ops[..i], id, ops[i].now) == Accepted
    requires forall k :: i < k < |ops| ==> !Forgets(ops[k], id)
    requires Answer(window, ops, id, now) == Accepted
    ensures window > 0 && now - ops[i].now > window
  {
    PruningUnobservable(window, ops, id, now);
    AcceptedStays(window, ops, i);
  }

  lemma {:induction false} AcceptedStays(window: u64, ops: seq<Op>, i: nat)
    requires Ticks(ops)
    requires i < |ops| && ops[i].Check?
    requires Answer(window, ops[..i], ops[i].id, ops[i].now) == Accepted
    requires forall k :: i < k < |ops| ==> !Forgets(ops[k], ops[i].id)
    ensures var last := LastAccepted(window, ops, ops[i].id);
            last.Some? && ops[i].now <= last.value <= Clock(ops)
  {
    var before := ops[..|ops| - 1];
    if i == |ops| - 1 {
      PruningUnobservable(window, before, ops[i].id, ops[i].now);
    } else {
      assert before[..i] == ops[..i] && before[i] == ops[i];
      AcceptedStays(window, before, i);
    }
  }

  // The counters tell how many checks were answered each way since the last reset.
  function Tally(window: u64, ops: seq<Op>, accepted: bool): nat {
    if ops == [] || ops[|ops| - 1].Reset? then 0 else
      var before, op := ops[..|ops| - 1], ops[|ops| - 1];
      Tally(window, before, accepted)
      + if op.Check? && (Answer(window, before, op.id, op.now) == Accepted) == accepted then 1 else 0
  }

  // No counter exceeds the number of operations, so a run of fewer than 2^64 never overflows.
  lemma {:induction false} CountersWithinRun(window: u64, ops: seq<Op>)
    ensures After(window, ops).accepted + After(window, ops).replays <= |ops|
  {
    if ops != [] {
      CountersWithinRun(window, ops[..|ops| - 1]);
    }
  }

  lemma {:induction false} CountersTally(window: u64, ops: seq<Op>)
    ensures After(window, ops).accepted == Tally(window, ops, true)
    ensures After(window, ops).replays == Tally(window, ops, false)
  {
    if ops != [] {
      CountersTally(window, ops[..|ops| - 1]);
    }
  }
}
