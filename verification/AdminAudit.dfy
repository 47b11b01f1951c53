// The admin audit log: entries under ever-growing ids, evicted by capacity on every write.
// A panicking call is rejected and leaves the stored state as it was.

module AdminAudit {
  import opened Words

  type Address = string

  // What the caller supplies, and the ledger time of the call.
  datatype Change = Change(
    admin: Address, changeType: string, target: string, oldValue: string, newValue: string,
    status: string, errorMessage: string, timestamp: u64)

  datatype Event = Event(id: u64, change: Change)

  datatype Config = Config(enabled: bool, maxEntries: u32, ttlSeconds: u64)

  const DEFAULT_CONFIG := Config(true, 10_000, 31_536_000)

  datatype Error = ValidationError | CapacityExceeded | Unauthorized

  datatype State = State(config: Config, counter: u64, entries: map<u64, Event>, admin: Option<Address>)

  // ----- steps -----

  // The id a full log gives up for the next entry.
  function Evicted(c: Config, counter: u64): set<u64> {
    if c.maxEntries > 0 && counter >= c.maxEntries then {counter - c.maxEntries} else {}
  }

  function WriteStep(s: State, change: Change): (State, Result<(), Error>) {
    if !s.config.enabled then (s, Ok(()))
    else if s.config.ttlSeconds > U32_MAX then (s, Err(ValidationError))
    else if s.counter == U64_MAX then (s, Err(CapacityExceeded))
    else
      var kept := s.entries - Evicted(s.config, s.counter);
      (s.(entries := kept[s.counter := Event(s.counter, change)], counter := s.counter + 1), Ok(()))
  }

  function SetConfigStep(s: State, c: Config): (State, Result<(), Error>) {
    if c.ttlSeconds > U32_MAX then (s, Err(ValidationError)) else (s.(config := c), Ok(()))
  }

  // The caller's own authorization is established by the host before this point.
  function ClearStep(s: State, caller: Address): (State, Result<(), Error>) {
    if s.admin != Some(caller) then (s, Err(Unauthorized))
    else (s.(entries := map id | id in s.entries && id >= s.counter :: s.entries[id], counter := 0), Ok(()))
  }

  // Reading an id.
  function Lookup(entries: map<u64, Event>, id: u64): Option<Event> {
    if id in entries then Some(entries[id]) else None
  }

  // ----- the stored records, updated in place -----

  class AuditStore {
    var config: Config
    var counter: u64
    var entries: map<u64, Event>
    var admin: Option<Address>

    ghost function View(): State
      reads this
    {
      State(config, counter, entries, admin)
    }

    constructor (admin: Option<Address>)
      ensures View() == State(DEFAULT_CONFIG, 0, map[], admin)
    {
      config, counter, entries, this.admin := DEFAULT_CONFIG, 0, map[], admin;
    }

    method WriteEvent(change: Change) returns (r: Result<(), Error>)
      modifies this`counter, this`entries
      ensures (View(), r) == WriteStep(old(View()), change)
    {
      if !config.enabled {
        return Ok(());
      }
      var id := counter;
      var before := entries;
      if config.maxEntries > 0 && id >= config.maxEntries {
        var oldest := id - config.maxEntries;
        entries := entries - {oldest};
      }
      if config.ttlSeconds > U32_MAX {
        entries := before;
        return Err(ValidationError);
      }
      entries := entries[id := Event(id, change)];
      if id == U64_MAX {
        entries := before;
        return Err(CapacityExceeded);
      }
      counter := id + 1;
      assert entries == (before - Evicted(config, id))[id := Event(id, change)];
      return Ok(());
    }

    method SetConfig(c: Config) returns (r: Result<(), Error>)
      modifies this`config
      ensures (View(), r) == SetConfigStep(old(View()), c)
    {
      var before := config;
      config := c;
      if c.ttlSeconds > U32_MAX {
        config := before;
        return Err(ValidationError);
      }
      return Ok(());
    }

    method GetEntry(id: u64) returns (e: Option<Event>)
      ensures e == Lookup(entries, id)
    {
      if id in entries {
        return Some(entries[id]);
      }
      return None;
    }

    // Removes every id below the counter, one at a time.
    method ClearEntries(caller: Address) returns (r: Result<(), Error>)
      modifies this`counter, this`entries
      ensures (View(), r) == ClearStep(old(View()), caller)
    {
      if admin.None? {
        return Err(Unauthorized);
      }
      if caller != admin.value {
        return Err(Unauthorized);
      }
      for id := 0 to counter
        invariant counter == old(counter)
        invariant entries == map k | k in old(entries) && k >= id :: old(entries)[k]
      {
        entries := entries - {id};
      }
      counter := 0;
      return Ok(());
    }
  }
}
