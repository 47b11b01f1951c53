// The propose / endorse / execute protocol for cache invalidation.  A rejected call leaves the
// stored state as it was.

module CacheGovernance {
  import opened Words
  import opened CanonicalEncoding

  type Address = string

  datatype Config = Config(quorum: u32, expiryLedgers: u32)

  const DEFAULT_CONFIG := Config(3, 17_280)

  datatype Proposal = Proposal(
    id: u64, anchor: Address, proposer: Address, endorsements: seq<Address>,
    createdAt: u32, expiryLedgers: u32, executed: bool)

  datatype GovError = Invalid | CapacityExceeded | NotFound | Stale

  // The persistent entries and the ledger sequence number.
  datatype State = State(config: Config, count: u64, proposals: map<u64, Proposal>, ledger: u32)

  const INITIAL := State(DEFAULT_CONFIG, 0, map[], 0)

  predicate ProposalExpired(p: Proposal, ledger: u32) {
    ledger >= SatAdd32(p.createdAt, p.expiryLedgers)
  }

  // ----- steps -----

  function SetConfigStep(s: State, c: Config): (State, Result<(), GovError>) {
    if c.quorum == 0 then (s, Err(Invalid))
    else if c.expiryLedgers == 0 then (s, Err(Invalid))
    else (s.(config := c), Ok(()))
  }

  function ProposeStep(s: State, proposer: Address, anchor: Address): (State, Result<u64, GovError>) {
    if s.count == U64_MAX then (s, Err(CapacityExceeded)) else
      var p := Proposal(s.count, anchor, proposer, [proposer], s.ledger, s.config.expiryLedgers, false);
      (s.(count := s.count + 1, proposals := s.proposals[s.count := p]), Ok(s.count))
  }

  function EndorseStep(s: State, endorser: Address, id: u64): (State, Result<(), GovError>) {
    if id !in s.proposals then (s, Err(NotFound)) else
      var p := s.proposals[id];
      if ProposalExpired(p, s.ledger) then (s, Err(Stale))
      else if p.executed then (s, Err(Invalid))
      else if endorser in p.endorsements then (s, Ok(()))
      else if |p.endorsements| >= s.config.quorum then (s, Err(Invalid))
      else (s.(proposals := s.proposals[id := p.(endorsements := p.endorsements + [endorser])]), Ok(()))
  }

  function ExecuteStep(s: State, id: u64): (State, Result<Address, GovError>) {
    if id !in s.proposals then (s, Err(NotFound)) else
      var p := s.proposals[id];
      if ProposalExpired(p, s.ledger) then (s, Err(Stale))
      else if p.executed then (s, Err(Invalid))
      else if |p.endorsements| < s.config.quorum then (s, Err(Invalid))
      else (s.(proposals := s.proposals[id := p.(executed := true)]), Ok(p.anchor))
  }

  // ----- the stored records, updated in place -----

  class Store {
    var config: Config
    var count: u64
    var proposals: map<u64, Proposal>
    var ledger: u32

    ghost function View(): State
      reads this
    {
      State(config, count, proposals, ledger)
    }

    constructor ()
      ensures View() == INITIAL
    {
      config, count, proposals, ledger := DEFAULT_CONFIG, 0, map[], 0;
    }

    method SetConfig(c: Config) returns (r: Result<(), GovError>)
      modifies this`config
      ensures (View(), r) == SetConfigStep(old(View()), c)
    {
      if c.quorum == 0 {
        return Err(Invalid);
      }
      if c.expiryLedgers == 0 {
        return Err(Invalid);
      }
      config := c;
      return Ok(());
    }

    method Propose(proposer: Address, anchor: Address) returns (r: Result<u64, GovError>)
      modifies this`count, this`proposals
      ensures (View(), r) == ProposeStep(old(View()), proposer, anchor)
    {
      var id := count;
      if id == U64_MAX {
        return Err(CapacityExceeded);
      }
      var endorsements := [];
      endorsements := endorsements + [proposer];
      assert endorsements == [proposer];
      proposals := proposals[id := Proposal(id, anchor, proposer, endorsements, ledger, config.expiryLedgers, false)];
      count := id + 1;
      return Ok(id);
    }

    method Endorse(endorser: Address, id: u64) returns (r: Result<(), GovError>)
      modifies this`proposals
      ensures (View(), r) == EndorseStep(old(View()), endorser, id)
    {
      if id !in proposals {
        return Err(NotFound);
      }
      var p := proposals[id];
      if ProposalExpired(p, ledger) {
        return Err(Stale);
      }
      if p.executed {
        return Err(Invalid);
      }
      for i := 0 to |p.endorsements|
        invariant endorser !in p.endorsements[..i]
      {
        if p.endorsements[i] == endorser {
          return Ok(());
        }
      }
      assert p.endorsements[..|p.endorsements|] == p.endorsements;
      if |p.endorsements| >= config.quorum {
        return Err(Invalid);
      }
      proposals := proposals[id := p.(endorsements := p.endorsements + [endorser])];
      return Ok(());
    }

    method Execute(id: u64) returns (r: Result<Address, GovError>)
      modifies this`proposals
      ensures (View(), r) == ExecuteStep(old(View()), id)
    {
      if id !in proposals {
        return Err(NotFound);
      }
      var p := proposals[id];
      if ProposalExpired(p, ledger) {
        return Err(Stale);
      }
      if p.executed {
        return Err(Invalid);
      }
      if |p.endorsements| < config.quorum {
        return Err(Invalid);
      }
      proposals := proposals[id := p.(executed := true)];
      return Ok(p.anchor);
    }

    // The host closes ledgers; the sequence number only grows.
    method Advance(ledgers: u32)
      modifies this`ledger
      ensures View() == old(View()).(ledger := SatAdd32(old(ledger), ledgers))
    {
      ledger := SatAdd32(ledger, ledgers);
    }
  }

  // ----- storage keys -----

  // Segments "CGOV_CFG", "CGOV_CNT", "CGOV_POL" and "CGOV_PROP".
  const CONFIG_KEY: Bytes := [67, 71, 79, 86, 95, 67, 70, 71]
  const COUNT_KEY: Bytes := [67, 71, 79, 86, 95, 67, 78, 84]
  const POLICY_KEY: Bytes := [67, 71, 79, 86, 95, 80, 79, 76]
  const PROPOSAL_KEY: Bytes := [67, 71, 79, 86, 95, 80, 82, 79, 80]

  // Distinct proposals are stored under distinct key pre-images, none of which is one of the
  // three fixed keys, so the records can be kept apart as separate fields.
  lemma ProposalKeysDistinct(id: u64, other: u64, fixed: Blob)
    requires fixed == CONFIG_KEY || fixed == COUNT_KEY || fixed == POLICY_KEY
    ensures EncodeSegments([PROPOSAL_KEY, Be8(id)]) == EncodeSegments([PROPOSAL_KEY, Be8(other)]) ==> id == other
    ensures EncodeSegments([PROPOSAL_KEY, Be8(id)]) != EncodeSegments([fixed])
  {
    var a, b := [PROPOSAL_KEY, Be8(id)], [PROPOSAL_KEY, Be8(other)];
    if EncodeSegments(a) == EncodeSegments(b) {
      SegmentsInjective(a, b);
      assert a[1] == b[1];
      Be8Decodes(id);
      Be8Decodes(other);
    }
    SegmentsRoundTrip(a);
    SegmentsRoundTrip([fixed]);
    assert |a| != |[fixed]|;
  }
}
