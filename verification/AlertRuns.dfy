// What whole runs of the deduplicator guarantee.

module AlertRuns {
  import opened Words
  import opened AlertDedup

  datatype Op = Alert(fingerprint: string, now: u64) | Drain | Reset(key: string) | ResetAll

  ghost function Apply(cfg: DedupConfig, s: State, op: Op): State {
    match op
    case Alert(fp, now) => Decide(cfg, s, fp, now).0
    case Drain => s.(log := [])
    case Reset(fp) => s.(lastFired := s.lastFired - {fp})
    case ResetAll => s.(lastFired := map[])
  }

  // The states a new deduplicator goes through.
  ghost function Trace(cfg: DedupConfig, ops: seq<Op>): (states: seq<State>)
    ensures |states| == |ops| + 1
  {
    if ops == [] then [State(map[], [])] else
      var before := Trace(cfg, ops[..|ops| - 1]);
      before + [Apply(cfg, before[|ops| - 1], ops[|ops| - 1])]
  }

  // The state after the first n operations.
  ghost function After(cfg: DedupConfig, ops: seq<Op>, n: nat): State
    requires n <= |ops|
  {
    Trace(cfg, ops)[n]
  }

  lemma {:induction false} Start(cfg: DedupConfig, ops: seq<Op>)
    ensures After(cfg, ops, 0) == State(map[], [])
  {
    if ops != [] {
      Start(cfg, ops[..|ops| - 1]);
    }
  }

  lemma {:induction false} Step(cfg: DedupConfig, ops: seq<Op>, n: nat)
    requires n < |ops|
    ensures After(cfg, ops, n + 1) == Apply(cfg, After(cfg, ops, n), ops[n])
  {
    if n < |ops| - 1 {
      Step(cfg, ops[..|ops| - 1], n);
    }
  }

  ghost predicate FiresAt(cfg: DedupConfig, ops: seq<Op>, i: nat)
    requires i < |ops|
  {
    ops[i].Alert? && Decide(cfg, After(cfg, ops, i), ops[i].fingerprint, ops[i].now).1
  }

  ghost predicate SuppressedAt(cfg: DedupConfig, ops: seq<Op>, i: nat)
    requires i < |ops|
  {
    ops[i].Alert? && !FiresAt(cfg, ops, i)
  }

  // ----- histories -----

  predicate Resets(op: Op, fp: string) {
    op.ResetAll? || (op.Reset? && op.key == fp)
  }

  // The key is not reset strictly between operations i and j.
  ghost predicate Unreset(ops: seq<Op>, key: string, i: nat, j: nat)
    requires j <= |ops|
  {
    forall k :: i < k < j ==> !Resets(ops[k], key)
  }

  // The last time fp fired among the first n operations, unless it was reset since.
  ghost function LastFire(cfg: DedupConfig, ops: seq<Op>, n: nat, fp: string): (r: Option<nat>)
    requires n <= |ops|
    ensures r.Some? ==> r.value < n && ops[r.value].Alert? && ops[r.value].fingerprint == fp
  {
    if n == 0 then None
    else if FiresAt(cfg, ops, n - 1) && ops[n - 1].fingerprint == fp then Some(n - 1)
    else if Resets(ops[n - 1], fp) then None
    else LastFire(cfg, ops, n - 1, fp)
  }

  lemma LastFireStep(cfg: DedupConfig, ops: seq<Op>, n: nat, o: string)
    requires 0 < n <= |ops| && LastFire(cfg, ops, n, o).Some?
    requires LastFire(cfg, ops, n, o).value < n - 1
    ensures !Resets(ops[n - 1], o) && LastFire(cfg, ops, n - 1, o) == LastFire(cfg, ops, n, o)
  {
  }

  lemma {:induction false} LastFireAt(cfg: DedupConfig, ops: seq<Op>, n: nat, fp: string, i: nat)
    requires n <= |ops| && LastFire(cfg, ops, n, fp) == Some(i)
    ensures FiresAt(cfg, ops, i)
  {
    if i < n - 1 {
      LastFireStep(cfg, ops, n, fp);
      LastFireAt(cfg, ops, n - 1, fp, i);
    }
  }

  lemma {:induction false} LastFireUnreset(cfg: DedupConfig, ops: seq<Op>, n: nat, fp: string, i: nat)
    requires n <= |ops| && LastFire(cfg, ops, n, fp) == Some(i)
    ensures Unreset(ops, fp, i, n)
  {
    if i < n - 1 {
      LastFireStep(cfg, ops, n, fp);
      LastFireUnreset(cfg, ops, n - 1, fp, i);
    }
  }

  lemma {:induction false} LastFireIsLatest(cfg: DedupConfig, ops: seq<Op>, n: nat, fp: string, i: nat)
    requires n <= |ops| && LastFire(cfg, ops, n, fp).Some?
    requires i < n && FiresAt(cfg, ops, i) && ops[i].fingerprint == fp
    ensures i <= LastFire(cfg, ops, n, fp).value
  {
    if i < n - 1 && LastFire(cfg, ops, n, fp).value < n - 1 {
      LastFireIsLatest(cfg, ops, n - 1, fp, i);
    }
  }

  // How often fp was suppressed since it last fired.
  ghost function SuppressedSince(cfg: DedupConfig, ops: seq<Op>, n: nat, fp: string): nat
    requires n <= |ops|
  {
    if n == 0 then 0
    else if FiresAt(cfg, ops, n - 1) && ops[n - 1].fingerprint == fp then 0
    else SuppressedSince(cfg, ops, n - 1, fp)
         + if SuppressedAt(cfg, ops, n - 1) && ops[n - 1].fingerprint == fp then 1 else 0
  }

  // Every suppression since the last drain, oldest first, with no bound.
  ghost function Suppressions(cfg: DedupConfig, ops: seq<Op>, n: nat): seq<string>
    requires n <= |ops|
  {
    if n == 0 || ops[n - 1].Drain? then []
    else Suppressions(cfg, ops, n - 1)
         + if SuppressedAt(cfg, ops, n - 1) then [Diagnostic(ops[n - 1].fingerprint)] else []
  }

  ghost function Newest<T>(bound: nat, s: seq<T>): seq<T> {
    if bound == 0 || |s| <= bound then s else s[|s| - bound..]
  }

  // ----- the table and the log mirror the history -----

  ghost predicate Mirrors(cfg: DedupConfig, ops: seq<Op>, n: nat, fp: string, e: Entry)
    requires n <= |ops|
  {
    var last := LastFire(cfg, ops, n, fp);
    && last.Some?
    && e.firedAt == ops[last.value].now
    && e.suppressed == Min(SuppressedSince(cfg, ops, n, fp), U64_MAX)
  }

  // One operation, seen from one key that is tracked afterwards.
  lemma StepOnKey(cfg: DedupConfig, s: State, op: Op, fp: string)
    requires fp in Apply(cfg, s, op).lastFired
    ensures var e := Apply(cfg, s, op).lastFired[fp];
            if op.Alert? && op.fingerprint == fp then
              if Decide(cfg, s, fp, op.now).1 then
                cfg.windowSeconds > 0 ==> e == Entry(op.now, 0)
              else
                fp in s.lastFired && e == Entry(s.lastFired[fp].firedAt, SatAdd64(s.lastFired[fp].suppressed, 1))
            else
              fp in s.lastFired && e == s.lastFired[fp] && !Resets(op, fp)
  {
  }

  lemma {:induction false} NothingTrackedWithoutWindow(cfg: DedupConfig, ops: seq<Op>, n: nat)
    requires n <= |ops| && cfg.windowSeconds == 0
    ensures After(cfg, ops, n).lastFired == map[]
  {
    if n == 0 {
      Start(cfg, ops);
    } else {
      NothingTrackedWithoutWindow(cfg, ops, n - 1);
      Step(cfg, ops, n - 1);
    }
  }

  lemma FiredEntryMirrors(cfg: DedupConfig, ops: seq<Op>, n: nat, fp: string)
    requires 0 < n <= |ops| && cfg.windowSeconds > 0
    requires FiresAt(cfg, ops, n - 1) && ops[n - 1].fingerprint == fp
    ensures fp in After(cfg, ops, n).lastFired
    ensures Mirrors(cfg, ops, n, fp, After(cfg, ops, n).lastFired[fp])
  {
    Step(cfg, ops, n - 1);
  }

  lemma SuppressionCounts(cfg: DedupConfig, ops: seq<Op>, k: nat)
    requires k < |ops| && SuppressedAt(cfg, ops, k) && ops[k].fingerprint in After(cfg, ops, k).lastFired
    ensures var fp, before := ops[k].fingerprint, After(cfg, ops, k).lastFired;
            && fp in After(cfg, ops, k + 1).lastFired
            && After(cfg, ops, k + 1).lastFired[fp] == Entry(before[fp].firedAt, SatAdd64(before[fp].suppressed, 1))
  {
    Step(cfg, ops, k);
  }

  lemma SuppressedEntryMirrors(cfg: DedupConfig, ops: seq<Op>, n: nat, fp: string)
    requires 0 < n <= |ops|
    requires SuppressedAt(cfg, ops, n - 1) && ops[n - 1].fingerprint == fp
    requires fp in After(cfg, ops, n - 1).lastFired
    requires Mirrors(cfg, ops, n - 1, fp, After(cfg, ops, n - 1).lastFired[fp])
    ensures fp in After(cfg, ops, n).lastFired
    ensures Mirrors(cfg, ops, n, fp, After(cfg, ops, n).lastFired[fp])
  {
    SuppressionCounts(cfg, ops, n - 1);
  }

  lemma UntouchedEntryMirrors(cfg: DedupConfig, ops: seq<Op>, n: nat, fp: string)
    requires 0 < n <= |ops|
    requires !(ops[n - 1].Alert? && ops[n - 1].fingerprint == fp) && !Resets(ops[n - 1], fp)
    requires fp in After(cfg, ops, n - 1).lastFired && fp in After(cfg, ops, n).lastFired
    requires After(cfg, ops, n).lastFired[fp] == After(cfg, ops, n - 1).lastFired[fp]
    requires Mirrors(cfg, ops, n - 1, fp, After(cfg, ops, n - 1).lastFired[fp])
    ensures Mirrors(cfg, ops, n, fp, After(cfg, ops, n).lastFired[fp])
  {
  }

  // Each tracked entry is the last fire of its key, with the saturated number of suppressions
  // since.
  lemma {:induction false} EntryMirrorsHistory(cfg: DedupConfig, ops: seq<Op>, n: nat, fp: string)
    requires n <= |ops| && fp in After(cfg, ops, n).lastFired
    ensures Mirrors(cfg, ops, n, fp, After(cfg, ops, n).lastFired[fp])
  {
    if cfg.windowSeconds == 0 {
      NothingTrackedWithoutWindow(cfg, ops, n);
    } else if n == 0 {
      Start(cfg, ops);
    } else if FiresAt(cfg, ops, n - 1) && ops[n - 1].fingerprint == fp {
      FiredEntryMirrors(cfg, ops, n, fp);
    } else {
      Step(cfg, ops, n - 1);
      StepOnKey(cfg, After(cfg, ops, n - 1), ops[n - 1], fp);
      EntryMirrorsHistory(cfg, ops, n - 1, fp);
      if ops[n - 1].Alert? && ops[n - 1].fingerprint == fp {
        SuppressedEntryMirrors(cfg, ops, n, fp);
      } else {
        UntouchedEntryMirrors(cfg, ops, n, fp);
      }
    }
  }

  // The table never outgrows its bound.
  lemma {:induction false} TableBounded(cfg: DedupConfig, ops: seq<Op>, n: nat)
    requires n <= |ops| && cfg.maxKeys > 0
    ensures |After(cfg, ops, n).lastFired| <= cfg.maxKeys
  {
    if n == 0 {
      Start(cfg, ops);
    } else {
      TableBounded(cfg, ops, n - 1);
      StepBounded(cfg, ops, n - 1);
    }
  }

  lemma StepBounded(cfg: DedupConfig, ops: seq<Op>, k: nat)
    requires k < |ops| && cfg.maxKeys > 0 && |After(cfg, ops, k).lastFired| <= cfg.maxKeys
    ensures |After(cfg, ops, k + 1).lastFired| <= cfg.maxKeys
  {
    Step(cfg, ops, k);
    ApplyBounded(cfg, After(cfg, ops, k), ops[k]);
  }

  lemma ApplyBounded(cfg: DedupConfig, s: State, op: Op)
    requires cfg.maxKeys > 0 && |s.lastFired| <= cfg.maxKeys
    ensures |Apply(cfg, s, op).lastFired| <= cfg.maxKeys
  {
    if op.Alert? && op.fingerprint !in s.lastFired {
      EvictMakesRoom(cfg, s.lastFired, op.fingerprint, Entry(op.now, 0));
    } else {
      SubsetSize(Apply(cfg, s, op).lastFired.Keys, s.lastFired.Keys);
    }
  }

  lemma EvictMakesRoom(cfg: DedupConfig, t: Table, fp: string, e: Entry)
    requires cfg.maxKeys > 0 && |t| <= cfg.maxKeys && fp !in t
    ensures |Evict(cfg, t)[fp := e]| <= cfg.maxKeys
  {
    EvictSize(cfg, t);
    InsertSize(Evict(cfg, t), fp, e);
  }

  lemma EvictSize(cfg: DedupConfig, t: Table)
    requires cfg.maxKeys > 0 && |t| <= cfg.maxKeys
    ensures |Evict(cfg, t)| < cfg.maxKeys
  {
    if |t| >= cfg.maxKeys {
      var k := Oldest(t);
      assert (t - {k}).Keys == t.Keys - {k};
      assert |(t - {k}).Keys| == |t.Keys| - 1;
    }
  }

  lemma InsertSize(t: Table, fp: string, e: Entry)
    ensures |t[fp := e]| <= |t| + 1
  {
    assert t[fp := e].Keys == t.Keys + {fp};
  }

  lemma {:induction false} SubsetSize<T>(a: set<T>, b: set<T>)
    requires a <= b
    ensures |a| <= |b|
  {
    assert b == a + (b - a);
  }

  // A suppressed alert always answers to an earlier fire of the same key, less than a window
  // before it.
  lemma SuppressionJustified(cfg: DedupConfig, ops: seq<Op>, n: nat)
    requires n < |ops| && SuppressedAt(cfg, ops, n)
    ensures var last := LastFire(cfg, ops, n, ops[n].fingerprint);
            last.Some? && ops[n].now < ops[last.value].now + cfg.windowSeconds
  {
    EntryMirrorsHistory(cfg, ops, n, ops[n].fingerprint);
  }

  // One operation, seen from the log.
  lemma StepOnLog(cfg: DedupConfig, ops: seq<Op>, k: nat)
    requires k < |ops|
    ensures After(cfg, ops, k + 1).log ==
            if ops[k].Drain? then []
            else if SuppressedAt(cfg, ops, k) then PushDiagnostic(cfg, After(cfg, ops, k).log, ops[k].fingerprint)
            else After(cfg, ops, k).log
  {
    Step(cfg, ops, k);
  }

  lemma PushKeepsNewest(cfg: DedupConfig, all: seq<string>, fp: string)
    ensures PushDiagnostic(cfg, Newest(cfg.maxKeys, all), fp) == Newest(cfg.maxKeys, all + [Diagnostic(fp)])
  {
  }

  lemma StepKeepsNewest(cfg: DedupConfig, ops: seq<Op>, k: nat)
    requires k < |ops| && After(cfg, ops, k).log == Newest(cfg.maxKeys, Suppressions(cfg, ops, k))
    ensures After(cfg, ops, k + 1).log == Newest(cfg.maxKeys, Suppressions(cfg, ops, k + 1))
  {
    StepOnLog(cfg, ops, k);
    if SuppressedAt(cfg, ops, k) {
      PushKeepsNewest(cfg, Suppressions(cfg, ops, k), ops[k].fingerprint);
    }
  }

  // The log holds exactly the newest `maxKeys` suppressions since the last drain, in order.
  lemma {:induction false} LogIsNewestSuppressions(cfg: DedupConfig, ops: seq<Op>, n: nat)
    requires n <= |ops|
    ensures After(cfg, ops, n).log == Newest(cfg.maxKeys, Suppressions(cfg, ops, n))
  {
    if n == 0 {
      Start(cfg, ops);
    } else {
      LogIsNewestSuppressions(cfg, ops, n - 1);
      StepKeepsNewest(cfg, ops, n - 1);
    }
  }

  // ----- capacity -----

  ghost predicate ClockNondecreasing(ops: seq<Op>) {
    forall i, j :: 0 <= i < j < |ops| && ops[i].Alert? && ops[j].Alert? ==> ops[i].now <= ops[j].now
  }

  // Consecutive fires of one fingerprint, at positions i and j.
  ghost predicate ConsecutiveFires(cfg: DedupConfig, ops: seq<Op>, i: nat, j: nat)
    requires i < j < |ops|
  {
    && FiresAt(cfg, ops, i) && FiresAt(cfg, ops, j)
    && ops[i].fingerprint == ops[j].fingerprint
    && forall k :: i < k < j ==> !(FiresAt(cfg, ops, k) && ops[k].fingerprint == ops[i].fingerprint)
  }

  ghost predicate OtherFire(cfg: DedupConfig, ops: seq<Op>, i: nat, j: nat, p: nat)
    requires i < j < |ops| && ops[i].Alert? && ops[j].Alert?
  {
    && p < j && FiresAt(cfg, ops, p)
    && ops[p].fingerprint != ops[i].fingerprint
    && ops[i].now <= ops[p].now <= ops[j].now
  }

  // The other fingerprints that fired before operation j, at a time from that of operation i on.
  ghost function OthersFired(cfg: DedupConfig, ops: seq<Op>, i: nat, j: nat): set<string>
    requires i < j < |ops| && ops[i].Alert? && ops[j].Alert?
  {
    set p: nat | p < j && OtherFire(cfg, ops, i, j, p) :: ops[p].fingerprint
  }

  // Operation k fires a new key and evicts this one from a full table.
  ghost predicate EvictedAt(cfg: DedupConfig, ops: seq<Op>, k: nat, fp: string)
    requires k < |ops|
  {
    && FiresAt(cfg, ops, k)
    && ops[k].fingerprint !in After(cfg, ops, k).lastFired
    && |After(cfg, ops, k).lastFired| >= cfg.maxKeys
    && IsOldest(After(cfg, ops, k).lastFired, fp)
  }

  // A fingerprint that fires again inside its window was evicted by at least `maxKeys` others.
  lemma EarlyRefireNeedsCapacity(cfg: DedupConfig, ops: seq<Op>, i: nat, j: nat)
    requires cfg.windowSeconds > 0 && cfg.maxKeys > 0
    requires ClockNondecreasing(ops)
    requires i < j < |ops| && ConsecutiveFires(cfg, ops, i, j) && Unreset(ops, ops[i].fingerprint, i, j)
    requires ops[j].now - ops[i].now < cfg.windowSeconds
    ensures |OthersFired(cfg, ops, i, j)| >= cfg.maxKeys
  {
    GoneBeforeRefire(cfg, ops, i, j);
    var k := TrackedOrEvicted(cfg, ops, i, j);
    EvictionNeedsOthers(cfg, ops, i, j, k);
  }

  // At the eviction of operation i's key, everything tracked besides it, and the new key, fired
  // since.
  lemma EvictionNeedsOthers(cfg: DedupConfig, ops: seq<Op>, i: nat, j: nat, k: nat)
    requires ClockNondecreasing(ops)
    requires i < k < j < |ops| && ConsecutiveFires(cfg, ops, i, j) && Unreset(ops, ops[i].fingerprint, i, j)
    requires EvictedAt(cfg, ops, k, ops[i].fingerprint)
    ensures |OthersFired(cfg, ops, i, j)| >= cfg.maxKeys
  {
    var tracked := After(cfg, ops, k).lastFired.Keys;
    var others := tracked - {ops[i].fingerprint} + {ops[k].fingerprint};
    assert OtherFire(cfg, ops, i, j, k);
    forall o | o in others ensures o in OthersFired(cfg, ops, i, j) {
      if o != ops[k].fingerprint {
        TrackedAtEvictionFiredSince(cfg, ops, i, j, k, o);
      }
    }
    assert |others| == |tracked|;
    SubsetSize(others, OthersFired(cfg, ops, i, j));
  }

  lemma GoneBeforeRefire(cfg: DedupConfig, ops: seq<Op>, i: nat, j: nat)
    requires cfg.windowSeconds > 0
    requires i < j < |ops| && ConsecutiveFires(cfg, ops, i, j) && Unreset(ops, ops[i].fingerprint, i, j)
    requires 0 <= ops[j].now - ops[i].now < cfg.windowSeconds
    ensures ops[i].fingerprint !in After(cfg, ops, j).lastFired
  {
    if ops[i].fingerprint in After(cfg, ops, j).lastFired {
      EntryMirrorsHistory(cfg, ops, j, ops[i].fingerprint);
      LastFireIs(cfg, ops, i, j);
    }
  }

  // Whatever else is tracked when the oldest key is the one of operation i fired since then.
  lemma TrackedAtEvictionFiredSince(cfg: DedupConfig, ops: seq<Op>, i: nat, j: nat, k: nat, o: string)
    requires ClockNondecreasing(ops)
    requires i < k < j < |ops| && ConsecutiveFires(cfg, ops, i, j) && Unreset(ops, ops[i].fingerprint, i, j)
    requires IsOldest(After(cfg, ops, k).lastFired, ops[i].fingerprint)
    requires o in After(cfg, ops, k).lastFired && o != ops[i].fingerprint
    ensures o in OthersFired(cfg, ops, i, j)
  {
    EntryMirrorsHistory(cfg, ops, k, o);
    LastFireAt(cfg, ops, k, o, LastFire(cfg, ops, k, o).value);
    EntryMirrorsHistory(cfg, ops, k, ops[i].fingerprint);
    LastFireIs(cfg, ops, i, k);
    assert OtherFire(cfg, ops, i, j, LastFire(cfg, ops, k, o).value);
  }

  lemma {:induction false} LastFireIs(cfg: DedupConfig, ops: seq<Op>, i: nat, n: nat)
    requires i < n <= |ops| && FiresAt(cfg, ops, i) && Unreset(ops, ops[i].fingerprint, i, n)
    requires forall k :: i < k < n ==> !(FiresAt(cfg, ops, k) && ops[k].fingerprint == ops[i].fingerprint)
    ensures LastFire(cfg, ops, n, ops[i].fingerprint) == Some(i)
  {
    if i < n - 1 {
      LastFireIs(cfg, ops, i, n - 1);
    }
  }

  lemma FireTracks(cfg: DedupConfig, ops: seq<Op>, i: nat)
    requires cfg.windowSeconds > 0 && i < |ops| && ops[i].Alert?
    ensures ops[i].fingerprint in After(cfg, ops, i + 1).lastFired
  {
    Step(cfg, ops, i);
  }

  lemma LostToEviction(cfg: DedupConfig, ops: seq<Op>, k: nat, fp: string)
    requires k < |ops| && !Resets(ops[k], fp)
    requires fp in After(cfg, ops, k).lastFired && fp !in After(cfg, ops, k + 1).lastFired
    ensures EvictedAt(cfg, ops, k, fp)
  {
    Step(cfg, ops, k);
  }

  // A key that fired and was not reset since is tracked, or was evicted at some step k before n.
  lemma {:induction false} TrackedOrEvicted(cfg: DedupConfig, ops: seq<Op>, i: nat, n: nat) returns (k: nat)
    requires cfg.windowSeconds > 0
    requires i < n <= |ops| && ops[i].Alert? && Unreset(ops, ops[i].fingerprint, i, n)
    ensures i < k <= n
    ensures k == n ==> ops[i].fingerprint in After(cfg, ops, n).lastFired
    ensures k < n ==> EvictedAt(cfg, ops, k, ops[i].fingerprint)
  {
    if n == i + 1 {
      FireTracks(cfg, ops, i);
      k := n;
    } else {
      k := TrackedOrEvicted(cfg, ops, i, n - 1);
      if k == n - 1 {
        if ops[i].fingerprint in After(cfg, ops, n).lastFired {
          k := n;
        } else {
          LostToEviction(cfg, ops, k, ops[i].fingerprint);
        }
      }
    }
  }

  // ----- a run that stays within capacity -----

  ghost function Fingerprints(ops: seq<Op>): set<string> {
    set i | 0 <= i < |ops| && ops[i].Alert? :: ops[i].fingerprint
  }

  function Unbounded(cfg: DedupConfig): DedupConfig {
    cfg.(maxKeys := 0)
  }

  // The run involves no more fingerprints than the table may hold; zero means unlimited.
  ghost predicate NeverFull(cfg: DedupConfig, ops: seq<Op>) {
    cfg.maxKeys == 0 || |Fingerprints(ops)| <= cfg.maxKeys
  }

  // Then the bounded table is the unbounded one, at every point and under any clock, so every
  // decision is the same.
  lemma {:induction false} WithinCapacityAgreesWithUnbounded(cfg: DedupConfig, ops: seq<Op>, n: nat)
    requires n <= |ops| && NeverFull(cfg, ops)
    ensures After(cfg, ops, n).lastFired == After(Unbounded(cfg), ops, n).lastFired
    ensures After(cfg, ops, n).lastFired.Keys <= Fingerprints(ops)
    ensures n < |ops| ==> FiresAt(cfg, ops, n) == FiresAt(Unbounded(cfg), ops, n)
  {
    if n == 0 {
      Start(cfg, ops);
      Start(Unbounded(cfg), ops);
    } else {
      WithinCapacityAgreesWithUnbounded(cfg, ops, n - 1);
      Step(cfg, ops, n - 1);
      Step(Unbounded(cfg), ops, n - 1);
      var op := ops[n - 1];
      assert op.Alert? ==> op.fingerprint in Fingerprints(ops);
      StepWithinCapacity(cfg, After(cfg, ops, n - 1), After(Unbounded(cfg), ops, n - 1), op, Fingerprints(ops));
    }
  }

  lemma StepWithinCapacity(cfg: DedupConfig, s: State, free: State, op: Op, keys: set<string>)
    requires s.lastFired == free.lastFired && s.lastFired.Keys <= keys
    requires cfg.maxKeys == 0 || |keys| <= cfg.maxKeys
    requires op.Alert? ==> op.fingerprint in keys
    ensures Apply(cfg, s, op).lastFired == Apply(Unbounded(cfg), free, op).lastFired
    ensures Apply(cfg, s, op).lastFired.Keys <= keys
    ensures forall fp <- s.lastFired.Keys :: fp in Apply(cfg, s, op).lastFired || Resets(op, fp)
  {
    if op.Alert? && op.fingerprint !in s.lastFired {
      SubsetSize(s.lastFired.Keys + {op.fingerprint}, keys);
      assert Evict(cfg, s.lastFired) == s.lastFired;
    }
  }

  lemma {:induction false} UntrackedNeverFired(cfg: DedupConfig, ops: seq<Op>, n: nat, fp: string)
    requires NeverFull(cfg, ops) && cfg.windowSeconds > 0 && n <= |ops|
    requires fp !in After(cfg, ops, n).lastFired
    ensures LastFire(cfg, ops, n, fp).None?
  {
    if n > 0 && !Resets(ops[n - 1], fp) {
      var s, op := After(cfg, ops, n - 1), ops[n - 1];
      WithinCapacityAgreesWithUnbounded(cfg, ops, n - 1);
      assert op.Alert? ==> op.fingerprint in Fingerprints(ops);
      StepWithinCapacity(cfg, s, After(Unbounded(cfg), ops, n - 1), op, Fingerprints(ops));
      Step(cfg, ops, n - 1);
      UntrackedNeverFired(cfg, ops, n - 1, fp);
      if op.Alert? {
        FireTracks(cfg, ops, n - 1);
      }
    }
  }

  // So an alert is suppressed exactly when its key fired less than a window ago and was not
  // reset since.
  lemma WithinCapacityDecision(cfg: DedupConfig, ops: seq<Op>, n: nat)
    requires n < |ops| && ops[n].Alert? && NeverFull(cfg, ops)
    ensures var last := LastFire(cfg, ops, n, ops[n].fingerprint);
            SuppressedAt(cfg, ops, n) <==>
            (cfg.windowSeconds > 0 && last.Some? && ops[n].now < ops[last.value].now + cfg.windowSeconds)
  {
    var fp := ops[n].fingerprint;
    if fp in After(cfg, ops, n).lastFired {
      EntryMirrorsHistory(cfg, ops, n, fp);
    } else if cfg.windowSeconds > 0 {
      UntrackedNeverFired(cfg, ops, n, fp);
    }
  }
}
