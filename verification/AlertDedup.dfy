// The alert deduplicator: a bounded table from fingerprint to the last time it fired, and a
// bounded log of suppressed alerts.  The class updates both in place; every method is tied to
// a step of the state machine that the run theorems (module AlertRuns) are about.

module AlertDedup {
  import opened Words
  import opened Text
  import Hex

  datatype DedupConfig = DedupConfig(windowSeconds: u64, maxKeys: nat)

  datatype Entry = Entry(firedAt: u64, suppressed: u64)

  type Table = map<string, Entry>

  datatype State = State(lastFired: Table, log: seq<string>)

  // ----- eviction -----

  // The victim: least timestamp, and among those the first key in the table's key order.
  ghost predicate IsOldest(t: Table, k: string) {
    k in t && forall other <- t.Keys :: other == k || OlderThan(t, k, other)
  }

  predicate OlderThan(t: Table, a: string, b: string)
    requires a in t && b in t
  {
    t[a].firedAt < t[b].firedAt || (t[a].firedAt == t[b].firedAt && StrLess(a, b))
  }

  lemma OldestUnique(t: Table, a: string, b: string)
    requires IsOldest(t, a) && IsOldest(t, b)
    ensures a == b
  {
    StrOrder(a, b);
  }

  lemma {:induction false} OldestExists(t: Table)
    requires |t| > 0
    ensures exists k :: IsOldest(t, k)
    decreases |t|
  {
    var some :| some in t;
    var rest := t - {some};
    if |rest| == 0 {
      assert t.Keys == rest.Keys + {some};
      assert IsOldest(t, some);
    } else {
      OldestExists(rest);
      var k :| IsOldest(rest, k);
      StrOrder(some, k);
      if OlderThan(t, some, k) {
        forall other | other in t && other != some ensures OlderThan(t, some, other) {
          assert other in rest;
          if other != k && t[some].firedAt == t[other].firedAt {
            StrTransitive(some, k, other);
          }
        }
        assert IsOldest(t, some);
      } else {
        assert IsOldest(t, k);
      }
    }
  }

  ghost function Oldest(t: Table): (k: string)
    requires |t| > 0
    ensures IsOldest(t, k)
  {
    OldestExists(t);
    var k :| IsOldest(t, k);
    k
  }

  // ----- the state machine -----

  ghost function Evict(cfg: DedupConfig, t: Table): Table {
    if cfg.maxKeys > 0 && |t| >= cfg.maxKeys then t - {Oldest(t)} else t
  }

  function PushDiagnostic(cfg: DedupConfig, log: seq<string>, fingerprint: string): seq<string> {
    var kept := if cfg.maxKeys > 0 && |log| >= cfg.maxKeys then log[|log| - cfg.maxKeys + 1..] else log;
    kept + [Diagnostic(fingerprint)]
  }

  predicate WithinWindow(cfg: DedupConfig, fired: u64, now: u64) {
    SatSub(now, fired) < cfg.windowSeconds
  }

  ghost function Decide(cfg: DedupConfig, s: State, fingerprint: string, now: u64): (State, bool) {
    if cfg.windowSeconds == 0 then (s, true)
    else if fingerprint in s.lastFired then
      var e := s.lastFired[fingerprint];
      if WithinWindow(cfg, e.firedAt, now) then
        (State(s.lastFired[fingerprint := Entry(e.firedAt, SatAdd64(e.suppressed, 1))],
               PushDiagnostic(cfg, s.log, fingerprint)), false)
      else
        (s.(lastFired := s.lastFired[fingerprint := Entry(now, 0)]), true)
    else
      (s.(lastFired := Evict(cfg, s.lastFired)[fingerprint := Entry(now, 0)]), true)
  }

  // ----- diagnostics -----

  function JsonChar(c: char): (r: string)
    ensures r != ""
  {
    if c == '"' then "\\\""
    else if c == '\\' then "\\\\"
    else if c == '\n' then "\\n"
    else if c == '\r' then "\\r"
    else if c == '\t' then "\\t"
    else if c as int < 0x20 then "\\u00" + [Hex.NibbleChar(c as int / 16), Hex.NibbleChar(c as int % 16)]
    else [c]
  }

  function JsonBody(s: string): string {
    if s == "" then "" else JsonChar(s[0]) + JsonBody(s[1..])
  }

  function Diagnostic(fingerprint: string): string {
    "{\"alert_key\":\"" + JsonBody(fingerprint) + "\"" + "}"
  }

  // ----- reading a diagnostic as JSON -----

  // The character an escape of RFC 8259, section 7 stands for, without its backslash.
  function ReadEscape(s: string): Option<(char, string)> {
    if s == "" then None
    else if s[0] in {'"', '\\', '/'} then Some((s[0], s[1..]))
    else if s[0] == 'n' then Some(('\n', s[1..]))
    else if s[0] == 'r' then Some(('\r', s[1..]))
    else if s[0] == 't' then Some(('\t', s[1..]))
    else if s[0] == 'b' then Some((8 as char, s[1..]))
    else if s[0] == 'f' then Some((12 as char, s[1..]))
    else if s[0] == 'u' && |s| >= 5 then ReadCodeUnit(s[1..5], s[5..])
    else None
  }

  // Four hexadecimal digits; the halves of surrogate pairs are not read.
  function ReadCodeUnit(digits: string, rest: string): Option<(char, string)>
    requires |digits| == 4
  {
    if !Hex.AllHex(digits) then None else
      var bytes := Hex.Decode(digits);
      var unit: int := (bytes[0] as int) * 0x100 + bytes[1];
      if unit < 0xD800 then Some((unit as char, rest)) else None
  }

  // The text of a JSON string whose opening quote has been read, and what follows its closing
  // quote.
  function ReadJsonString(s: string): Option<(string, string)>
    decreases |s|
  {
    if s == "" then None
    else if s[0] == '"' then Some(("", s[1..]))
    else if s[0] == '\\' then
      match ReadEscape(s[1..])
      case None => None
      case Some((c, rest)) => if |rest| >= |s| then None else Prepend(c, ReadJsonString(rest))
    else if s[0] as int < 0x20 then None
    else Prepend(s[0], ReadJsonString(s[1..]))
  }

  function Prepend(c: char, r: Option<(string, string)>): Option<(string, string)> {
    match r
    case None => None
    case Some((text, rest)) => Some(([c] + text, rest))
  }

  // One escaped character reads back, whatever follows.
  lemma CharReadsBack(c: char, more: string)
    ensures ReadJsonString(JsonChar(c) + more) == Prepend(c, ReadJsonString(more))
  {
    var all, esc := JsonChar(c) + more, JsonChar(c);
    if esc[0] == '\\' {
      assert all[1..] == esc[1..] + more;
      if esc[1] == 'u' {
        ControlReadsBack(c, more);
      } else {
        assert (esc[1..] + more)[1..] == more;
      }
    } else {
      assert all[1..] == more;
    }
  }

  lemma ControlReadsBack(c: char, more: string)
    requires c as int < 0x20 && c !in {'\n', '\r', '\t'}
    ensures ReadEscape(JsonChar(c)[1..] + more) == Some((c, more))
  {
    var hi, lo := c as int / 16, c as int % 16;
    var digits := "00" + [Hex.NibbleChar(hi), Hex.NibbleChar(lo)];
    var s := JsonChar(c)[1..] + more;
    assert s[0] == 'u' && s[1..5] == digits && s[5..] == more;
    assert Hex.AllHex(digits);
    var bytes := Hex.Decode(digits);
    assert bytes[0] == Hex.NibbleOf('0').value * 16 + Hex.NibbleOf('0').value;
    assert bytes[1] == hi * 16 + lo;
  }

  lemma {:induction false} BodyReadsBack(s: string, rest: string)
    ensures ReadJsonString(JsonBody(s) + "\"" + rest) == Some((s, rest))
  {
    if s == "" {
      assert ("\"" + rest)[1..] == rest;
      assert JsonBody(s) + "\"" + rest == "\"" + rest;
    } else {
      var first, more := JsonChar(s[0]), JsonBody(s[1..]);
      Associates(first, more, "\"");
      Associates(first, more + "\"", rest);
      CharReadsBack(s[0], more + "\"" + rest);
      BodyReadsBack(s[1..], rest);
      assert s == [s[0]] + s[1..];
    }
  }

  // A diagnostic is a JSON object with the one field alert_key, whose value reads back as the
  // fingerprint, whatever quotes, backslashes and control characters it has.
  lemma DiagnosticReadsBack(fingerprint: string)
    ensures var d, head := Diagnostic(fingerprint), "{\"alert_key\":\"";
            head <= d && ReadJsonString(d[|head|..]) == Some((fingerprint, "}"))
  {
    var d, head := Diagnostic(fingerprint), "{\"alert_key\":\"";
    assert d[|head|..] == JsonBody(fingerprint) + "\"" + "}";
    BodyReadsBack(fingerprint, "}");
  }

  lemma DiagnosticInjective(a: string, b: string)
    requires Diagnostic(a) == Diagnostic(b)
    ensures a == b
  {
    DiagnosticReadsBack(a);
    DiagnosticReadsBack(b);
  }

  // ----- the deduplicator -----

  class AlertDeduplicator {
    const config: DedupConfig
    var lastFired: Table
    var suppressionLog: seq<string>

    ghost function View(): State
      reads this
    {
      State(lastFired, suppressionLog)
    }

    constructor (config: DedupConfig)
      ensures this.config == config
      ensures View() == State(map[], [])
    {
      this.config := config;
      lastFired := map[];
      suppressionLog := [];
    }

    // Decide whether an alert fires at `now`, and record the decision.
    method ShouldFire(fingerprint: string, now: u64) returns (fires: bool)
      modifies this
      ensures (View(), fires) == Decide(config, old(View()), fingerprint, now)
    {
      if config.windowSeconds == 0 {
        return true;
      }
      if fingerprint in lastFired {
        var e := lastFired[fingerprint];
        if SatSub(now, e.firedAt) < config.windowSeconds {
          lastFired := lastFired[fingerprint := Entry(e.firedAt, SatAdd64(e.suppressed, 1))];
          PushSuppressionDiagnostic(fingerprint);
          return false;
        }
        lastFired := lastFired[fingerprint := Entry(now, 0)];
        return true;
      }
      if config.maxKeys > 0 && |lastFired| >= config.maxKeys {
        var oldest := OldestKey();
        OldestUnique(lastFired, oldest, Oldest(lastFired));
        lastFired := lastFired - {oldest};
      }
      lastFired := lastFired[fingerprint := Entry(now, 0)];
      return true;
    }

    // The minimum over the table; ties go to the smaller key, which the table lists first.
    method OldestKey() returns (oldest: string)
      requires |lastFired| > 0
      ensures IsOldest(lastFired, oldest)
    {
      oldest :| oldest in lastFired;
      var rest := lastFired.Keys - {oldest};
      while rest != {}
        invariant rest <= lastFired.Keys && oldest in lastFired && oldest !in rest
        invariant forall k <- lastFired.Keys - rest :: k == oldest || OlderThan(lastFired, oldest, k)
        decreases |rest|
      {
        var k :| k in rest;
        StrOrder(k, oldest);
        if OlderThan(lastFired, k, oldest) {
          forall other | other in lastFired.Keys - rest && other != oldest
            ensures OlderThan(lastFired, k, other)
          {
            if StrLess(k, oldest) && StrLess(oldest, other) {
              StrTransitive(k, oldest, other);
            }
          }
          oldest := k;
        }
        rest := rest - {k};
      }
    }

    method PushSuppressionDiagnostic(fingerprint: string)
      modifies this`suppressionLog
      ensures suppressionLog == PushDiagnostic(config, old(suppressionLog), fingerprint)
    {
      if config.maxKeys > 0 && |suppressionLog| >= config.maxKeys {
        var overflow := |suppressionLog| - config.maxKeys + 1;
        suppressionLog := suppressionLog[overflow..];
      }
      suppressionLog := suppressionLog + [Diagnostic(fingerprint)];
    }

    method DrainSuppressionLog() returns (drained: seq<string>)
      modifies this`suppressionLog
      ensures drained == old(suppressionLog) && suppressionLog == []
    {
      drained := suppressionLog;
      suppressionLog := [];
    }

    method Reset(fingerprint: string)
      modifies this`lastFired
      ensures lastFired == old(lastFired) - {fingerprint}
    {
      lastFired := lastFired - {fingerprint};
    }

    method ResetAll()
      modifies this`lastFired
      ensures lastFired == map[]
    {
      lastFired := map[];
    }
  }
}
