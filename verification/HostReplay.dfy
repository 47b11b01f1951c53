// The host replay guard: a list of seen requests, pruned before every check.

module HostReplay {
  import opened Words

  datatype CheckResult = Accepted | Replay(firstSeenAt: u64)

  datatype SeenEntry = SeenEntry(id: string, actor: string, firstSeenAt: u64)

  datatype CounterOverflow = CounterOverflow

  datatype State = State(entries: seq<SeenEntry>, replays: nat, accepted: nat)

  // ----- steps -----

  predicate Keeps(window: u64, e: SeenEntry, now: u64) {
    window == 0 || e.firstSeenAt >= SatSub(now, window)
  }

  function Retain(window: u64, entries: seq<SeenEntry>, now: u64): seq<SeenEntry> {
    if entries == [] then [] else
      var last := entries[|entries| - 1];
      Retain(window, entries[..|entries| - 1], now) + if Keeps(window, last, now) then [last] else []
  }

  function Without(entries: seq<SeenEntry>, id: string): seq<SeenEntry> {
    if entries == [] then [] else
      var last := entries[|entries| - 1];
      Without(entries[..|entries| - 1], id) + if last.id != id then [last] else []
  }

  // The first entry with the given id.
  function Find(entries: seq<SeenEntry>, id: string): (r: Option<SeenEntry>)
    ensures r.Some? ==> r.value in entries && r.value.id == id
    ensures r.None? ==> forall e <- entries :: e.id != id
  {
    if entries == [] then None
    else if entries[0].id == id then Some(entries[0])
    else Find(entries[1..], id)
  }

  lemma {:induction false} FindIs(entries: seq<SeenEntry>, id: string, i: nat)
    requires i <= |entries| && forall j :: 0 <= j < i ==> entries[j].id != id
    requires i < |entries| ==> entries[i].id == id
    ensures Find(entries, id) == if i < |entries| then Some(entries[i]) else None
  {
    if i > 0 {
      FindIs(entries[1..], id, i - 1);
    }
  }

  function Decide(window: u64, s: State, id: string, actor: string, now: u64): (State, CheckResult) {
    var kept := Retain(window, s.entries, now);
    match Find(kept, id)
    case Some(e) => (State(kept, s.replays + 1, s.accepted), Replay(e.firstSeenAt))
    case None => (State(kept + [SeenEntry(id, actor, now)], s.replays, s.accepted + 1), Accepted)
  }

  // ----- the guard -----

  class HostReplayGuard {
    const windowSecs: u64
    var entries: seq<SeenEntry>
    var replayCount: u64
    var acceptedCount: u64

    ghost function View(): State
      reads this
    {
      State(entries, replayCount, acceptedCount)
    }

    constructor (windowSecs: u64)
      ensures this.windowSecs == windowSecs && View() == State([], 0, 0)
    {
      this.windowSecs := windowSecs;
      entries, replayCount, acceptedCount := [], 0, 0;
    }

    // A counter that would pass 64 bits stops the call with an overflow panic; the list has been
    // updated by then.
    method Check(id: string, actor: string, now: u64) returns (r: Result<CheckResult, CounterOverflow>)
      modifies this
      ensures var (s, answer) := Decide(windowSecs, old(View()), id, actor, now);
              && entries == s.entries
              && (s.replays > U64_MAX || s.accepted > U64_MAX ==>
                    r == Err(CounterOverflow) && View() == State(s.entries, old(replayCount), old(acceptedCount)))
              && (s.replays <= U64_MAX && s.accepted <= U64_MAX ==> r == Ok(answer) && View() == s)
    {
      PruneExpired(now);
      var i := 0;
      while i < |entries| && entries[i].id != id
        invariant 0 <= i <= |entries|
        invariant forall j :: 0 <= j < i ==> entries[j].id != id
      {
        i := i + 1;
      }
      FindIs(entries, id, i);
      if i < |entries| {
        if replayCount == U64_MAX {
          return Err(CounterOverflow);
        }
        replayCount := replayCount + 1;
        return Ok(Replay(entries[i].firstSeenAt));
      }
      entries := entries + [SeenEntry(id, actor, now)];
      if acceptedCount == U64_MAX {
        return Err(CounterOverflow);
      }
      acceptedCount := acceptedCount + 1;
      return Ok(Accepted);
    }

    method PruneExpired(now: u64)
      modifies this`entries
      ensures entries == Retain(windowSecs, old(entries), now)
    {
      if windowSecs == 0 {
        RetainAll(entries, now);
        return;
      }
      var cutoff := SatSub(now, windowSecs);
      var kept: seq<SeenEntry> := [];
      for i := 0 to |entries|
        invariant kept == Retain(windowSecs, entries[..i], now)
      {
        assert entries[..i + 1][..i] == entries[..i];
        if entries[i].firstSeenAt >= cutoff {
          kept := kept + [entries[i]];
        }
      }
      assert entries[..|entries|] == entries;
      entries := kept;
    }

    method IsKnown(id: string) returns (known: bool)
      ensures known <==> exists e <- entries :: e.id == id
    {
      for i := 0 to |entries|
        invariant forall j :: 0 <= j < i ==> entries[j].id != id
      {
        if entries[i].id == id {
          return true;
        }
      }
      return false;
    }

    method Forget(id: string) returns (found: bool)
      modifies this`entries
      ensures entries == Without(old(entries), id)
      ensures found <==> exists e <- old(entries) :: e.id == id
    {
      var kept: seq<SeenEntry> := [];
      for i := 0 to |entries|
        invariant kept == Without(entries[..i], id) && |kept| <= i
        invariant |kept| < i <==> exists e <- entries[..i] :: e.id == id
      {
        assert entries[..i + 1][..i] == entries[..i];
        if entries[i].id != id {
          kept := kept + [entries[i]];
        } else {
          assert entries[i] in entries[..i + 1];
        }
      }
      assert entries[..|entries|] == entries;
      found := |kept| < |entries|;
      entries := kept;
    }

    method Reset()
      modifies this
      ensures View() == State([], 0, 0)
    {
      entries, replayCount, acceptedCount := [], 0, 0;
    }
  }

  lemma {:induction false} RetainAll(entries: seq<SeenEntry>, now: u64)
    ensures Retain(0, entries, now) == entries
  {
    if entries != [] {
      RetainAll(entries[..|entries| - 1], now);
    }
  }
}
