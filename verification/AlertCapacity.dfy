// Exactly when an alert is delivered although its fingerprint fired less than a window ago: how
// many other fingerprints must come in between for the bounded table to have forgotten it.

module AlertCapacity {
  import opened Words
  import opened Text
  import opened AlertDedup
  import opened AlertRuns

  // ----- rivals -----

  // Whether an entry with this time and key outlives operation i's: eviction takes the earlier
  // time and, at equal times, the smaller key.
  ghost predicate Outlives(ops: seq<Op>, i: nat, time: u64, key: string)
    requires i < |ops| && ops[i].Alert?
  {
    time > ops[i].now || (time == ops[i].now && StrLess(ops[i].fingerprint, key))
  }

  // Before operation n, key o last fired so that it outlives operation i's key, and it did so
  // after i or was among those tracked with it.
  ghost predicate IsRival(cfg: DedupConfig, ops: seq<Op>, i: nat, n: nat, o: string)
    requires i < n <= |ops| && ops[i].Alert?
  {
    var last := LastFire(cfg, ops, n, o);
    && o != ops[i].fingerprint && last.Some?
    && Outlives(ops, i, ops[last.value].now, o)
    && (last.value > i || o in After(cfg, ops, i + 1).lastFired)
  }

  // The rivals at operation k and the key it brings.
  ghost function Crowd(cfg: DedupConfig, ops: seq<Op>, i: nat, k: nat): set<string>
    requires i < k < |ops| && ops[i].Alert? && ops[k].Alert?
  {
    set o | o in Fingerprints(ops) && (o == ops[k].fingerprint || IsRival(cfg, ops, i, k, o))
  }

  // Operation k is an alert of another key, which with the rivals takes up all the room.
  ghost predicate Crowded(cfg: DedupConfig, ops: seq<Op>, i: nat, k: nat)
    requires i < k < |ops| && ops[i].Alert?
  {
    && ops[k].Alert? && ops[k].fingerprint != ops[i].fingerprint
    && |Crowd(cfg, ops, i, k)| >= cfg.maxKeys
  }

  // ----- rivals stay while the key stays -----

  // A tracked key is evicted only as the oldest, and otherwise lost only to a reset.
  lemma StaysTracked(cfg: DedupConfig, ops: seq<Op>, k: nat, o: string, elder: string)
    requires k < |ops| && o != elder && !Resets(ops[k], o)
    requires o in After(cfg, ops, k).lastFired && elder in After(cfg, ops, k).lastFired
    requires OlderThan(After(cfg, ops, k).lastFired, elder, o)
    ensures o in After(cfg, ops, k + 1).lastFired
  {
    if o !in After(cfg, ops, k + 1).lastFired {
      LostToEviction(cfg, ops, k, o);
      StrOrder(elder, o);
    }
  }

  lemma TrackedBefore(cfg: DedupConfig, ops: seq<Op>, n: nat, fp: string)
    requires 0 < n <= |ops| && fp in After(cfg, ops, n).lastFired
    requires !(FiresAt(cfg, ops, n - 1) && ops[n - 1].fingerprint == fp)
    ensures fp in After(cfg, ops, n - 1).lastFired
  {
    Step(cfg, ops, n - 1);
    StepOnKey(cfg, After(cfg, ops, n - 1), ops[n - 1], fp);
  }

  // A key last fired at p and tracked at n was tracked all along.
  lemma {:induction false} TrackedSinceFire(cfg: DedupConfig, ops: seq<Op>, p: nat, m: nat, n: nat, fp: string)
    requires p < m <= n <= |ops|
    requires LastFire(cfg, ops, n, fp) == Some(p) && fp in After(cfg, ops, n).lastFired
    ensures fp in After(cfg, ops, m).lastFired && LastFire(cfg, ops, m, fp) == Some(p)
  {
    if m < n {
      TrackedBefore(cfg, ops, n, fp);
      TrackedSinceFire(cfg, ops, p, m, n - 1, fp);
    }
  }

  lemma RivalOlder(cfg: DedupConfig, ops: seq<Op>, i: nat, n: nat, o: string)
    requires i < n <= |ops| && ops[i].Alert? && IsRival(cfg, ops, i, n, o)
    requires LastFire(cfg, ops, n, ops[i].fingerprint) == Some(i)
    requires ops[i].fingerprint in After(cfg, ops, n).lastFired && o in After(cfg, ops, n).lastFired
    ensures OlderThan(After(cfg, ops, n).lastFired, ops[i].fingerprint, o)
  {
    EntryMirrorsHistory(cfg, ops, n, ops[i].fingerprint);
    EntryMirrorsHistory(cfg, ops, n, o);
  }

  lemma {:induction false} LastFireEarlier(cfg: DedupConfig, ops: seq<Op>, i: nat, m: nat, n: nat, fp: string)
    requires i < m <= n <= |ops| && LastFire(cfg, ops, n, fp) == Some(i)
    ensures LastFire(cfg, ops, m, fp) == Some(i)
  {
    if m < n {
      LastFireEarlier(cfg, ops, i, m, n - 1, fp);
    }
  }

  // A rival that did not fire in the last operation was one before it.
  lemma RivalBefore(cfg: DedupConfig, ops: seq<Op>, i: nat, n: nat, o: string)
    requires i + 1 < n <= |ops| && ops[i].Alert? && IsRival(cfg, ops, i, n, o)
    requires LastFire(cfg, ops, n, o).value < n - 1
    ensures IsRival(cfg, ops, i, n - 1, o) && !Resets(ops[n - 1], o)
  {
    LastFireStep(cfg, ops, n, o);
  }

  lemma RivalStays(cfg: DedupConfig, ops: seq<Op>, i: nat, k: nat, o: string)
    requires i < k < |ops| && ops[i].Alert? && IsRival(cfg, ops, i, k, o) && !Resets(ops[k], o)
    requires LastFire(cfg, ops, k, ops[i].fingerprint) == Some(i)
    requires ops[i].fingerprint in After(cfg, ops, k).lastFired && o in After(cfg, ops, k).lastFired
    ensures o in After(cfg, ops, k + 1).lastFired
  {
    RivalOlder(cfg, ops, i, k, o);
    StaysTracked(cfg, ops, k, o, ops[i].fingerprint);
  }

  // While operation i's key is tracked, so is every rival.
  lemma {:induction false} RivalsTracked(cfg: DedupConfig, ops: seq<Op>, i: nat, n: nat, o: string)
    requires cfg.windowSeconds > 0
    requires i < n <= |ops| && ops[i].Alert? && IsRival(cfg, ops, i, n, o)
    requires LastFire(cfg, ops, n, ops[i].fingerprint) == Some(i)
    requires ops[i].fingerprint in After(cfg, ops, n).lastFired
    ensures o in After(cfg, ops, n).lastFired
  {
    var p := LastFire(cfg, ops, n, o).value;
    if p == n - 1 {
      FireTracks(cfg, ops, p);
    } else if n > i + 1 {
      TrackedSinceFire(cfg, ops, i, n - 1, n, ops[i].fingerprint);
      RivalBefore(cfg, ops, i, n, o);
      RivalsTracked(cfg, ops, i, n - 1, o);
      RivalStays(cfg, ops, i, n - 1, o);
    }
  }

  // ----- too many rivals push the key out -----

  lemma CrowdTracked(cfg: DedupConfig, ops: seq<Op>, i: nat, k: nat, o: string)
    requires cfg.windowSeconds > 0
    requires i < k < |ops| && ops[i].Alert? && ops[k].Alert?
    requires LastFire(cfg, ops, k, ops[i].fingerprint) == Some(i)
    requires ops[i].fingerprint in After(cfg, ops, k).lastFired
    requires o == ops[k].fingerprint || IsRival(cfg, ops, i, k, o)
    ensures o in After(cfg, ops, k + 1).lastFired
  {
    if o == ops[k].fingerprint {
      FireTracks(cfg, ops, k);
    } else {
      RivalsTracked(cfg, ops, i, k, o);
      RivalStays(cfg, ops, i, k, o);
    }
  }

  // If operation i's key is tracked before an alert, its crowd is tracked after it.
  lemma CrowdIsTracked(cfg: DedupConfig, ops: seq<Op>, i: nat, k: nat)
    requires cfg.windowSeconds > 0
    requires i < k < |ops| && ops[i].Alert? && ops[k].Alert? && ops[k].fingerprint != ops[i].fingerprint
    requires LastFire(cfg, ops, k, ops[i].fingerprint) == Some(i)
    requires ops[i].fingerprint in After(cfg, ops, k).lastFired
    ensures Crowd(cfg, ops, i, k) <= After(cfg, ops, k + 1).lastFired.Keys
  {
    forall o | o in Crowd(cfg, ops, i, k) ensures o in After(cfg, ops, k + 1).lastFired {
      CrowdTracked(cfg, ops, i, k, o);
    }
  }

  lemma NoRoomLeft(cfg: DedupConfig, ops: seq<Op>, n: nat, crowd: set<string>, fp: string)
    requires cfg.maxKeys > 0 && n <= |ops|
    requires crowd <= After(cfg, ops, n).lastFired.Keys && fp !in crowd && |crowd| >= cfg.maxKeys
    ensures fp !in After(cfg, ops, n).lastFired
  {
    var tracked := After(cfg, ops, n).lastFired.Keys;
    TableBounded(cfg, ops, n);
    if fp in tracked {
      SubsetSize(crowd + {fp}, tracked);
    }
  }

  lemma StaysUntracked(cfg: DedupConfig, ops: seq<Op>, k: nat, fp: string)
    requires k < |ops| && fp !in After(cfg, ops, k).lastFired
    requires !(ops[k].Alert? && ops[k].fingerprint == fp)
    ensures fp !in After(cfg, ops, k + 1).lastFired
  {
    Step(cfg, ops, k);
    if fp in After(cfg, ops, k + 1).lastFired {
      StepOnKey(cfg, After(cfg, ops, k), ops[k], fp);
    }
  }

  lemma CrowdingEvicts(cfg: DedupConfig, ops: seq<Op>, i: nat, k: nat)
    requires cfg.windowSeconds > 0 && cfg.maxKeys > 0
    requires i < k < |ops| && ops[i].Alert? && Crowded(cfg, ops, i, k)
    requires LastFire(cfg, ops, k, ops[i].fingerprint) == Some(i)
    ensures ops[i].fingerprint !in After(cfg, ops, k + 1).lastFired
  {
    var fp := ops[i].fingerprint;
    if fp in After(cfg, ops, k).lastFired {
      CrowdIsTracked(cfg, ops, i, k);
      NoRoomLeft(cfg, ops, k + 1, Crowd(cfg, ops, i, k), fp);
    } else {
      StaysUntracked(cfg, ops, k, fp);
    }
  }

  // ----- a key pushed out was crowded -----

  lemma OldestOutlived(cfg: DedupConfig, ops: seq<Op>, i: nat, k: nat, o: string)
    requires i < k < |ops| && ops[i].Alert? && LastFire(cfg, ops, k, ops[i].fingerprint) == Some(i)
    requires IsOldest(After(cfg, ops, k).lastFired, ops[i].fingerprint)
    requires o in After(cfg, ops, k).lastFired && o != ops[i].fingerprint
    ensures var last := LastFire(cfg, ops, k, o);
            last.Some? && last.value != i && Outlives(ops, i, ops[last.value].now, o)
  {
    EntryMirrorsHistory(cfg, ops, k, ops[i].fingerprint);
    EntryMirrorsHistory(cfg, ops, k, o);
  }

  lemma OldestsPeersAreRivals(cfg: DedupConfig, ops: seq<Op>, i: nat, k: nat, o: string)
    requires i < k < |ops| && ops[i].Alert? && LastFire(cfg, ops, k, ops[i].fingerprint) == Some(i)
    requires IsOldest(After(cfg, ops, k).lastFired, ops[i].fingerprint)
    requires o in After(cfg, ops, k).lastFired && o != ops[i].fingerprint
    ensures IsRival(cfg, ops, i, k, o)
  {
    OldestOutlived(cfg, ops, i, k, o);
    var p := LastFire(cfg, ops, k, o).value;
    if p < i {
      TrackedSinceFire(cfg, ops, p, i + 1, k, o);
    }
  }

  lemma FiredIsFingerprint(cfg: DedupConfig, ops: seq<Op>, n: nat, o: string)
    requires n <= |ops| && LastFire(cfg, ops, n, o).Some?
    ensures o in Fingerprints(ops)
  {
  }

  lemma EvictionCrowded(cfg: DedupConfig, ops: seq<Op>, i: nat, k: nat)
    requires i < k < |ops| && ops[i].Alert? && LastFire(cfg, ops, k, ops[i].fingerprint) == Some(i)
    requires EvictedAt(cfg, ops, k, ops[i].fingerprint)
    ensures Crowded(cfg, ops, i, k)
  {
    var tracked, newcomer := After(cfg, ops, k).lastFired.Keys, ops[k].fingerprint;
    var peers := tracked - {ops[i].fingerprint} + {newcomer};
    assert newcomer in Fingerprints(ops);
    forall o | o in peers ensures o in Crowd(cfg, ops, i, k) {
      if o != newcomer {
        OldestsPeersAreRivals(cfg, ops, i, k, o);
        FiredIsFingerprint(cfg, ops, k, o);
      }
    }
    assert |peers| == |tracked|;
    SubsetSize(peers, Crowd(cfg, ops, i, k));
  }

  // ----- the exact rule -----

  lemma NotAlerted(cfg: DedupConfig, ops: seq<Op>, n: nat, fp: string)
    requires cfg.windowSeconds > 0 && 0 < n <= |ops|
    requires LastFire(cfg, ops, n, fp).Some? && LastFire(cfg, ops, n, fp).value < n - 1
    requires fp !in After(cfg, ops, n - 1).lastFired
    ensures !(ops[n - 1].Alert? && ops[n - 1].fingerprint == fp)
  {
  }

  lemma {:induction false} StaysGone(cfg: DedupConfig, ops: seq<Op>, i: nat, a: nat, b: nat, fp: string)
    requires cfg.windowSeconds > 0 && i < a <= b <= |ops|
    requires LastFire(cfg, ops, b, fp) == Some(i) && fp !in After(cfg, ops, a).lastFired
    ensures fp !in After(cfg, ops, b).lastFired
  {
    if a < b {
      LastFireStep(cfg, ops, b, fp);
      StaysGone(cfg, ops, i, a, b - 1, fp);
      NotAlerted(cfg, ops, b, fp);
      StaysUntracked(cfg, ops, b - 1, fp);
    }
  }

  lemma GoneWasCrowded(cfg: DedupConfig, ops: seq<Op>, i: nat, j: nat) returns (k: nat)
    requires cfg.windowSeconds > 0
    requires i < j < |ops| && ops[i].Alert? && LastFire(cfg, ops, j, ops[i].fingerprint) == Some(i)
    requires ops[i].fingerprint !in After(cfg, ops, j).lastFired
    ensures i < k < j && FiresAt(cfg, ops, k) && Crowded(cfg, ops, i, k)
  {
    LastFireUnreset(cfg, ops, j, ops[i].fingerprint, i);
    k := TrackedOrEvicted(cfg, ops, i, j);
    LastFireEarlier(cfg, ops, i, k, j, ops[i].fingerprint);
    EvictionCrowded(cfg, ops, i, k);
  }

  lemma FiresIff(cfg: DedupConfig, ops: seq<Op>, j: nat)
    requires cfg.windowSeconds > 0 && j < |ops| && ops[j].Alert?
    ensures var last, fp := LastFire(cfg, ops, j, ops[j].fingerprint), ops[j].fingerprint;
            FiresAt(cfg, ops, j) <==>
            || fp !in After(cfg, ops, j).lastFired
            || last.None?
            || ops[j].now >= ops[last.value].now + cfg.windowSeconds
  {
    if ops[j].fingerprint in After(cfg, ops, j).lastFired {
      EntryMirrorsHistory(cfg, ops, j, ops[j].fingerprint);
    }
  }

  ghost predicate CrowdedOut(cfg: DedupConfig, ops: seq<Op>, i: nat, j: nat)
    requires i < j < |ops| && ops[i].Alert?
  {
    exists k: nat :: i < k < j && Crowded(cfg, ops, i, k)
  }

  lemma CrowdedIsGone(cfg: DedupConfig, ops: seq<Op>, i: nat, k: nat, j: nat)
    requires cfg.windowSeconds > 0 && cfg.maxKeys > 0
    requires i < k < j <= |ops| && ops[i].Alert? && Crowded(cfg, ops, i, k)
    requires LastFire(cfg, ops, j, ops[i].fingerprint) == Some(i)
    ensures ops[i].fingerprint !in After(cfg, ops, k + 1).lastFired
  {
    LastFireEarlier(cfg, ops, i, k, j, ops[i].fingerprint);
    CrowdingEvicts(cfg, ops, i, k);
  }

  lemma CrowdedOutIsGone(cfg: DedupConfig, ops: seq<Op>, i: nat, j: nat)
    requires cfg.windowSeconds > 0 && cfg.maxKeys > 0
    requires i < j < |ops| && ops[i].Alert? && LastFire(cfg, ops, j, ops[i].fingerprint) == Some(i)
    requires CrowdedOut(cfg, ops, i, j)
    ensures ops[i].fingerprint !in After(cfg, ops, j).lastFired
  {
    var k: nat :| i < k < j && Crowded(cfg, ops, i, k);
    CrowdedIsGone(cfg, ops, i, k, j);
    StaysGone(cfg, ops, i, k + 1, j, ops[i].fingerprint);
  }

  lemma GoneIffCrowdedOut(cfg: DedupConfig, ops: seq<Op>, i: nat, j: nat)
    requires cfg.windowSeconds > 0 && cfg.maxKeys > 0
    requires i < j < |ops| && ops[i].Alert? && LastFire(cfg, ops, j, ops[i].fingerprint) == Some(i)
    ensures ops[i].fingerprint !in After(cfg, ops, j).lastFired <==> CrowdedOut(cfg, ops, i, j)
  {
    if CrowdedOut(cfg, ops, i, j) {
      CrowdedOutIsGone(cfg, ops, i, j);
    }
    if ops[i].fingerprint !in After(cfg, ops, j).lastFired {
      var k := GoneWasCrowded(cfg, ops, i, j);
    }
  }

  // Whatever the clock does, an alert is delivered exactly when there is no window, its key has
  // not fired since it was last reset, the window has passed, or the key was crowded out.
  lemma DeliveredIff(cfg: DedupConfig, ops: seq<Op>, j: nat)
    requires j < |ops| && ops[j].Alert?
    ensures var last := LastFire(cfg, ops, j, ops[j].fingerprint);
            FiresAt(cfg, ops, j) <==>
            || cfg.windowSeconds == 0
            || last.None?
            || ops[j].now >= ops[last.value].now + cfg.windowSeconds
            || (cfg.maxKeys > 0 && CrowdedOut(cfg, ops, last.value, j))
  {
    var last := LastFire(cfg, ops, j, ops[j].fingerprint);
    if cfg.maxKeys == 0 {
      WithinCapacityDecision(cfg, ops, j);
    } else if cfg.windowSeconds > 0 && last.Some? {
      FiresIff(cfg, ops, j);
      GoneIffCrowdedOut(cfg, ops, last.value, j);
    } else if cfg.windowSeconds > 0 {
      FiresIff(cfg, ops, j);
    }
  }

  // ----- a clock that always moves on -----

  ghost predicate ClockIncreasing(ops: seq<Op>) {
    forall i, j :: 0 <= i < j < |ops| && ops[i].Alert? && ops[j].Alert? ==> ops[i].now < ops[j].now
  }

  predicate NoResetBetween(ops: seq<Op>, i: nat, j: nat)
    requires j <= |ops|
  {
    forall k :: i < k < j ==> !ops[k].Reset? && !ops[k].ResetAll?
  }

  ghost predicate OtherFiredAt(cfg: DedupConfig, ops: seq<Op>, i: nat, p: nat)
    requires i < |ops| && p < |ops| && ops[i].Alert?
  {
    i < p && FiresAt(cfg, ops, p) && ops[p].fingerprint != ops[i].fingerprint
  }

  // The other fingerprints that fired strictly between operations i and j.
  ghost function OthersBetween(cfg: DedupConfig, ops: seq<Op>, i: nat, j: nat): set<string>
    requires i < j <= |ops| && ops[i].Alert?
  {
    set o | o in Fingerprints(ops) && OtherBetween(cfg, ops, i, j, o)
  }

  ghost predicate OtherBetween(cfg: DedupConfig, ops: seq<Op>, i: nat, j: nat, o: string)
    requires i < j <= |ops| && ops[i].Alert?
  {
    exists p :: i < p < j && OtherFiredAt(cfg, ops, i, p) && ops[p].fingerprint == o
  }

  lemma RivalFiredBetween(cfg: DedupConfig, ops: seq<Op>, i: nat, k: nat, o: string)
    requires ClockIncreasing(ops)
    requires i < k < |ops| && ops[i].Alert? && IsRival(cfg, ops, i, k, o)
    ensures OtherBetween(cfg, ops, i, k, o)
  {
    var p := LastFire(cfg, ops, k, o).value;
    LastFireAt(cfg, ops, k, o, p);
    assert OtherFiredAt(cfg, ops, i, p);
  }

  lemma CrowdFiredBetween(cfg: DedupConfig, ops: seq<Op>, i: nat, k: nat, j: nat)
    requires ClockIncreasing(ops)
    requires i < k < j < |ops| && ops[i].Alert? && Crowded(cfg, ops, i, k) && FiresAt(cfg, ops, k)
    ensures |OthersBetween(cfg, ops, i, j)| >= cfg.maxKeys
  {
    forall o | o in Crowd(cfg, ops, i, k) ensures o in OthersBetween(cfg, ops, i, j) {
      if o == ops[k].fingerprint {
        assert OtherFiredAt(cfg, ops, i, k);
      } else {
        RivalFiredBetween(cfg, ops, i, k, o);
        var p :| i < p < k && OtherFiredAt(cfg, ops, i, p) && ops[p].fingerprint == o;
        assert i < p < j;
      }
    }
    SubsetSize(Crowd(cfg, ops, i, k), OthersBetween(cfg, ops, i, j));
  }

  // The last of the other fires.
  lemma {:induction false} LatestOther(cfg: DedupConfig, ops: seq<Op>, i: nat, j: nat) returns (k: nat)
    requires i < j <= |ops| && ops[i].Alert?
    requires exists p :: i < p < j && OtherFiredAt(cfg, ops, i, p)
    ensures i < k < j && OtherFiredAt(cfg, ops, i, k)
    ensures forall p :: k < p < j ==> !OtherFiredAt(cfg, ops, i, p)
  {
    k := j - 1;
    if !OtherFiredAt(cfg, ops, i, k) {
      k := LatestOther(cfg, ops, i, j - 1);
    }
  }

  lemma {:induction false} FiredSince(cfg: DedupConfig, ops: seq<Op>, i: nat, p: nat, n: nat)
    requires i < p < n <= |ops| && FiresAt(cfg, ops, p) && NoResetBetween(ops, i, n)
    ensures LastFire(cfg, ops, n, ops[p].fingerprint).Some?
  {
    if p < n - 1 {
      FiredSince(cfg, ops, i, p, n - 1);
    }
  }

  lemma FiredIsRival(cfg: DedupConfig, ops: seq<Op>, i: nat, p: nat, k: nat)
    requires ClockIncreasing(ops) && i < p < k < |ops| && ops[i].Alert? && NoResetBetween(ops, i, k)
    requires OtherFiredAt(cfg, ops, i, p)
    ensures IsRival(cfg, ops, i, k, ops[p].fingerprint)
  {
    FiredSince(cfg, ops, i, p, k);
    LastFireIsLatest(cfg, ops, k, ops[p].fingerprint, p);
  }

  lemma ManyOthersCrowd(cfg: DedupConfig, ops: seq<Op>, i: nat, j: nat) returns (k: nat)
    requires ClockIncreasing(ops) && i < j < |ops| && ops[i].Alert? && NoResetBetween(ops, i, j)
    requires |OthersBetween(cfg, ops, i, j)| >= cfg.maxKeys > 0
    ensures i < k < j && Crowded(cfg, ops, i, k)
  {
    var others := OthersBetween(cfg, ops, i, j);
    assert others != {};
    var some :| some in others;
    k := LatestOther(cfg, ops, i, j);
    forall o | o in others ensures o in Crowd(cfg, ops, i, k) {
      var p :| i < p < j && OtherFiredAt(cfg, ops, i, p) && ops[p].fingerprint == o;
      if p < k {
        FiredIsRival(cfg, ops, i, p, k);
      }
    }
    SubsetSize(others, Crowd(cfg, ops, i, k));
  }

  // When the clock moves on with every alert and nothing is reset in between, an alert inside its
  // window is delivered exactly when at least `maxKeys` other fingerprints fired since.
  lemma DeliveredIffOthersFired(cfg: DedupConfig, ops: seq<Op>, i: nat, j: nat)
    requires cfg.windowSeconds > 0 && cfg.maxKeys > 0 && ClockIncreasing(ops)
    requires i < j < |ops| && ops[j].Alert? && LastFire(cfg, ops, j, ops[j].fingerprint) == Some(i)
    requires NoResetBetween(ops, i, j) && ops[j].now - ops[i].now < cfg.windowSeconds
    ensures FiresAt(cfg, ops, j) <==> |OthersBetween(cfg, ops, i, j)| >= cfg.maxKeys
  {
    DeliveredIff(cfg, ops, j);
    if FiresAt(cfg, ops, j) {
      FiresIff(cfg, ops, j);
      var k := GoneWasCrowded(cfg, ops, i, j);
      CrowdFiredBetween(cfg, ops, i, k, j);
    }
    if |OthersBetween(cfg, ops, i, j)| >= cfg.maxKeys {
      var k := ManyOthersCrowd(cfg, ops, i, j);
    }
  }
}
