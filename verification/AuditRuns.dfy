// What the audit log holds after any run of writes, reconfigurations and clears.

module AuditRuns {
  import opened Words
  import opened AdminAudit

  datatype Op = Write(change: Change) | SetConfig(config: Config) | Clear(caller: Address)

  function Apply(s: State, op: Op): State {
    match op
    case Write(change) => WriteStep(s, change).0
    case SetConfig(c) => SetConfigStep(s, c).0
    case Clear(caller) => ClearStep(s, caller).0
  }

  function Initial(admin: Option<Address>): State {
    State(DEFAULT_CONFIG, 0, map[], admin)
  }

  function After(admin: Option<Address>, ops: seq<Op>): State {
    if ops == [] then Initial(admin)
    else Apply(After(admin, ops[..|ops| - 1]), ops[|ops| - 1])
  }

  // ----- the history, from the calls alone -----

  // The configuration of the latest call whose TTL fits 32 bits.
  function ConfigAt(ops: seq<Op>): Config {
    if ops == [] then Config(true, 10_000, 31_536_000)
    else match ops[|ops| - 1]
      case SetConfig(c) => if c.ttlSeconds <= U32_MAX then c else ConfigAt(ops[..|ops| - 1])
      case _ => ConfigAt(ops[..|ops| - 1])
  }

  // Every change recorded since the last clear by the admin, in order.
  function History(admin: Option<Address>, ops: seq<Op>): seq<Change> {
    if ops == [] then [] else
      var before, op := ops[..|ops| - 1], ops[|ops| - 1];
      var h := History(admin, before);
      match op
      case Write(change) => if ConfigAt(before).enabled && |h| < U64_MAX then h + [change] else h
      case SetConfig(_) => h
      case Clear(caller) => if admin == Some(caller) then [] else h
  }

  // The ids held: a recorded write adds the next one, and gives up the one that lies the capacity
  // behind it.
  function Held(admin: Option<Address>, ops: seq<Op>): set<int> {
    if ops == [] then {} else
      var before, op := ops[..|ops| - 1], ops[|ops| - 1];
      var held, id, c := Held(admin, before), |History(admin, before)|, ConfigAt(before);
      match op
      case Write(_) =>
        if c.enabled && id < U64_MAX
        then held - (if c.maxEntries > 0 then {id - c.maxEntries} else {}) + {id}
        else held
      case SetConfig(_) => held
      case Clear(caller) => if admin == Some(caller) then {} else held
  }

  // The counter counts the history, and each stored entry is the history's entry of that id.
  ghost predicate Faithful(s: State, history: seq<Change>) {
    && s.counter == |history|
    && (forall id <- s.entries.Keys :: id < |history| && s.entries[id] == Event(id, history[id]))
  }

  lemma {:induction false} InForce(admin: Option<Address>, ops: seq<Op>)
    ensures After(admin, ops).config == ConfigAt(ops)
    ensures After(admin, ops).config.ttlSeconds <= U32_MAX && After(admin, ops).admin == admin
  {
    if ops != [] {
      InForce(admin, ops[..|ops| - 1]);
    }
  }

  // Under any capacity changes, stored ids stay below the counter and carry what was written.
  lemma {:induction false} EntriesAreHistory(admin: Option<Address>, ops: seq<Op>)
    ensures Faithful(After(admin, ops), History(admin, ops))
  {
    if ops != [] {
      EntriesAreHistory(admin, ops[..|ops| - 1]);
      InForce(admin, ops[..|ops| - 1]);
    }
  }

  // The stored ids are exactly those held according to the calls.
  lemma {:induction false} StoredAreHeld(admin: Option<Address>, ops: seq<Op>, id: u64)
    ensures id in After(admin, ops).entries <==> id in Held(admin, ops)
  {
    if ops != [] {
      var before := ops[..|ops| - 1];
      StoredAreHeld(admin, before, id);
      EntriesAreHistory(admin, before);
      InForce(admin, before);
    }
  }

  // So a successful clear leaves nothing behind.
  lemma ClearEmpties(admin: Option<Address>, ops: seq<Op>, caller: Address)
    ensures var s := After(admin, ops);
            if admin == Some(caller) then ClearStep(s, caller) == (s.(entries := map[], counter := 0), Ok(()))
            else ClearStep(s, caller) == (s, Err(Unauthorized))
  {
    EntriesAreHistory(admin, ops);
    InForce(admin, ops);
  }

  // The TTL test in a write never fails, because configurations are tested when they are set.
  lemma WriteNeverRejectsTtl(admin: Option<Address>, ops: seq<Op>, change: Change)
    ensures After(admin, ops).config.ttlSeconds <= U32_MAX
    ensures WriteStep(After(admin, ops), change).1 != Err(ValidationError)
  {
    InForce(admin, ops);
  }

  // Which answer a write and a reconfiguration get.
  lemma CallAnswers(admin: Option<Address>, ops: seq<Op>, change: Change, c: Config)
    ensures WriteStep(After(admin, ops), change).1 ==
            if ConfigAt(ops).enabled && |History(admin, ops)| == U64_MAX then Err(CapacityExceeded) else Ok(())
    ensures SetConfigStep(After(admin, ops), c).1 == if c.ttlSeconds > U32_MAX then Err(ValidationError) else Ok(())
  {
    EntriesAreHistory(admin, ops);
    InForce(admin, ops);
  }

  // ----- capacity -----

  // The stored ids are exactly those from lo up to the counter.
  ghost predicate Window(s: State, lo: u64) {
    lo <= s.counter && forall id: u64 :: id in s.entries <==> lo <= id < s.counter
  }

  predicate Fits(c: Config, held: nat) {
    c.maxEntries == 0 || held <= c.maxEntries
  }

  // The first id an intact window of the current capacity would hold after the next write.
  function NextLow(s: State, lo: u64): u64 {
    if s.config.maxEntries > 0 && s.counter >= s.config.maxEntries && s.counter - s.config.maxEntries == lo
    then lo + 1 else lo
  }

  lemma WriteSlidesWindow(s: State, lo: u64, change: Change)
    requires Window(s, lo) && s.config.enabled && WriteStep(s, change).1.Ok?
    requires Fits(s.config, s.counter - lo)
    ensures NextLow(s, lo) <= s.counter + 1
    ensures Window(WriteStep(s, change).0, NextLow(s, lo))
    ensures Fits(s.config, s.counter + 1 - NextLow(s, lo))
  {
  }

  // A configuration whose TTL is too long is rejected and changes nothing.
  predicate Reconfigures(op: Op) {
    op.SetConfig? && op.config.ttlSeconds <= U32_MAX
  }

  // No reconfiguration asks for less room than the entries held at that moment need.
  ghost predicate NeverBelowHeld(admin: Option<Address>, ops: seq<Op>) {
    ops == [] ||
    var before, op := ops[..|ops| - 1], ops[|ops| - 1];
    && NeverBelowHeld(admin, before)
    && (Reconfigures(op) ==> Fits(op.config, |After(admin, before).entries|))
  }

  // Then the log is one contiguous run of ids ending at the newest, no longer than the capacity.
  lemma {:induction false} ContiguousWindow(admin: Option<Address>, ops: seq<Op>) returns (lo: u64)
    requires NeverBelowHeld(admin, ops)
    ensures Window(After(admin, ops), lo)
    ensures Fits(ConfigAt(ops), After(admin, ops).counter - lo)
  {
    InForce(admin, ops);
    lo := 0;
    if ops != [] {
      var before, op := ops[..|ops| - 1], ops[|ops| - 1];
      lo := ContiguousWindow(admin, before);
      InForce(admin, before);
      var s := After(admin, before);
      match op
      case Write(change) =>
        if s.config.enabled && WriteStep(s, change).1.Ok? {
          WriteSlidesWindow(s, lo, change);
          lo := NextLow(s, lo);
        }
      case SetConfig(c) => WindowSize(s, lo);
      case Clear(caller) =>
        if ClearStep(s, caller).1.Ok? {
          ClearEmpties(admin, before, caller);
          lo := 0;
        }
    }
  }

  // The log is one interval of ids ending at the newest, within capacity.
  ghost predicate Intact(s: State) {
    exists lo: u64 :: Window(s, lo) && Fits(s.config, s.counter - lo)
  }

  ghost predicate AlwaysIntact(admin: Option<Address>, ops: seq<Op>) {
    Intact(After(admin, ops)) && (ops == [] || AlwaysIntact(admin, ops[..|ops| - 1]))
  }

  // The log is intact all along a run if and only if no reconfiguration was below what was held.
  lemma {:induction false} AlwaysIntactIff(admin: Option<Address>, ops: seq<Op>)
    ensures AlwaysIntact(admin, ops) <==> NeverBelowHeld(admin, ops)
  {
    if NeverBelowHeld(admin, ops) {
      var lo := ContiguousWindow(admin, ops);
      InForce(admin, ops);
      assert Window(After(admin, ops), lo);
    }
    if ops != [] {
      var before, op := ops[..|ops| - 1], ops[|ops| - 1];
      AlwaysIntactIff(admin, before);
      if Reconfigures(op) && Intact(After(admin, ops)) {
        IntactFits(After(admin, ops));
      }
    }
  }

  lemma IntactFits(s: State)
    requires Intact(s)
    ensures Fits(s.config, |s.entries|)
  {
    var lo: u64 :| Window(s, lo) && Fits(s.config, s.counter - lo);
    WindowSize(s, lo);
  }

  // While the log is intact, reading an id gives what was recorded under it from the first held
  // id up to the newest, and nothing otherwise.
  lemma ReadBack(admin: Option<Address>, ops: seq<Op>, id: u64) returns (lo: u64)
    requires NeverBelowHeld(admin, ops)
    ensures lo <= |History(admin, ops)| && Fits(ConfigAt(ops), |History(admin, ops)| - lo)
    ensures Lookup(After(admin, ops).entries, id) ==
            if lo <= id < |History(admin, ops)| then Some(Event(id, History(admin, ops)[id])) else None
  {
    lo := ContiguousWindow(admin, ops);
    EntriesAreHistory(admin, ops);
  }

  // Zero means unlimited.
  predicate AtLeastAsLarge(a: u32, b: u32) {
    a == 0 || (b != 0 && b <= a)
  }

  predicate CapacityNeverLowered(ops: seq<Op>) {
    ops == [] ||
    var before, op := ops[..|ops| - 1], ops[|ops| - 1];
    && CapacityNeverLowered(before)
    && (Reconfigures(op) ==> AtLeastAsLarge(op.config.maxEntries, ConfigAt(before).maxEntries))
  }

  // In particular the log stays contiguous and within capacity while the capacity only grows.
  lemma {:induction false} GrowingCapacitySuffices(admin: Option<Address>, ops: seq<Op>)
    requires CapacityNeverLowered(ops)
    ensures NeverBelowHeld(admin, ops)
  {
    if ops != [] {
      var before := ops[..|ops| - 1];
      GrowingCapacitySuffices(admin, before);
      var lo := ContiguousWindow(admin, before);
      WindowSize(After(admin, before), lo);
    }
  }

  // How many entries a window holds.
  lemma {:induction false} WindowSize(s: State, lo: u64)
    requires Window(s, lo)
    ensures |s.entries| == s.counter - lo
    decreases s.counter - lo
  {
    if lo < s.counter {
      var rest := s.(entries := s.entries - {lo});
      WindowSize(rest, lo + 1);
      assert s.entries.Keys == rest.entries.Keys + {lo};
    } else {
      assert s.entries.Keys == {};
    }
  }

  // When the capacity was lowered below what is held, the next write evicts from the middle.  A
  // recorded write keeps the log contiguous and within capacity exactly when what it holds
  // fits the capacity beforehand.
  lemma WriteKeepsWindowIff(s: State, lo: u64, change: Change)
    requires Window(s, lo) && s.config.enabled && WriteStep(s, change).1.Ok?
    ensures var t := WriteStep(s, change).0;
            (exists low: u64 :: Window(t, low) && Fits(t.config, t.counter - low)) <==> Fits(s.config, |s.entries|)
  {
    var t := WriteStep(s, change).0;
    WindowSize(s, lo);
    if Fits(s.config, |s.entries|) {
      WriteSlidesWindow(s, lo, change);
      assert Window(t, NextLow(s, lo));
    } else {
      assert s.counter in t.entries && lo in t.entries;
      var gap := s.counter - s.config.maxEntries;
      assert gap !in t.entries && lo <= gap < s.counter;
    }
  }

  // Lowering the capacity really does break the window: after two writes under a larger
  // capacity, one more under capacity one leaves ids 0 and 2.
  lemma LoweredCapacityLeavesGap(admin: Option<Address>, a: Change, b: Change, c: Change)
    ensures var ops := [Write(a), Write(b), SetConfig(Config(true, 1, 0)), Write(c)];
            After(admin, ops).entries.Keys == {0, 2}
  {
    var ops := [Write(a), Write(b), SetConfig(Config(true, 1, 0)), Write(c)];
    assert ops[..3] == [Write(a), Write(b), SetConfig(Config(true, 1, 0))];
    assert ops[..3][..2] == [Write(a), Write(b)];
    assert ops[..3][..2][..1] == [Write(a)];
    assert ops[..3][..2][..1][..0] == [];
    assert After(admin, ops[..3][..2][..1]).entries.Keys == {0};
    assert After(admin, ops[..3][..2]).entries.Keys == {0, 1};
    assert After(admin, ops[..3]).counter == 2;
  }
}
