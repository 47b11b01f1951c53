// Safety of the invalidation protocol over every interleaving of calls and ledger advances.

module GovernanceRuns {
  import opened Words
  import opened CacheGovernance

  datatype Op =
    | SetConfig(config: Config)
    | Propose(proposer: Address, anchor: Address)
    | Endorse(endorser: Address, id: u64)
    | Execute(id: u64)
    | Advance(ledgers: u32)

  function Apply(s: State, op: Op): State {
    match op
    case SetConfig(c) => SetConfigStep(s, c).0
    case Propose(proposer, anchor) => ProposeStep(s, proposer, anchor).0
    case Endorse(endorser, id) => EndorseStep(s, endorser, id).0
    case Execute(id) => ExecuteStep(s, id).0
    case Advance(n) => s.(ledger := SatAdd32(s.ledger, n))
  }

  // The state after the first n operations.
  function After(ops: seq<Op>, n: nat): State
    requires n <= |ops|
  {
    if n == 0 then INITIAL else Apply(After(ops, n - 1), ops[n - 1])
  }

  // ----- what is in force, from the calls alone -----

  // The configuration of the latest call that sets a nonzero quorum and a nonzero lifetime.
  function ConfigAt(ops: seq<Op>, n: nat): Config
    requires n <= |ops|
  {
    if n == 0 then Config(3, 17_280)
    else match ops[n - 1]
      case SetConfig(c) => if c.quorum > 0 && c.expiryLedgers > 0 then c else ConfigAt(ops, n - 1)
      case _ => ConfigAt(ops, n - 1)
  }

  // The ledgers closed so far, as far as 32 bits count.
  function LedgerAt(ops: seq<Op>, n: nat): nat
    requires n <= |ops|
  {
    if n == 0 then 0
    else match ops[n - 1]
      case Advance(ledgers) => Min(LedgerAt(ops, n - 1) + ledgers, U32_MAX)
      case _ => LedgerAt(ops, n - 1)
  }

  lemma {:induction false} InForce(ops: seq<Op>, n: nat)
    requires n <= |ops|
    ensures After(ops, n).config == ConfigAt(ops, n) && After(ops, n).ledger == LedgerAt(ops, n)
  {
    if n > 0 {
      InForce(ops, n - 1);
    }
  }

  // A proposal is open before the ledger that its creation and its lifetime add up to, as far as
  // 32 bits count.
  predicate Open(p: Proposal, ledger: nat) {
    !p.executed && ledger < Min(p.createdAt + p.expiryLedgers, U32_MAX)
  }

  // The largest quorum in force at any time so far.
  function LargestQuorum(ops: seq<Op>, n: nat): u32
    requires n <= |ops|
  {
    if n == 0 then 3
    else Max(LargestQuorum(ops, n - 1), ConfigAt(ops, n).quorum)
  }

  // ----- the invariant -----

  predicate NoDuplicates(s: seq<Address>) {
    forall i, j :: 0 <= i < j < |s| ==> s[i] != s[j]
  }

  predicate WellFormed(p: Proposal, id: u64, ledger: u32, bound: u32) {
    && p.id == id
    && 1 <= |p.endorsements| <= bound
    && p.endorsements[0] == p.proposer
    && NoDuplicates(p.endorsements)
    && p.createdAt <= ledger
    && p.expiryLedgers > 0
  }

  ghost predicate Consistent(s: State, bound: u32) {
    && 1 <= s.config.quorum <= bound
    && s.config.expiryLedgers > 0
    && (forall id: u64 :: id in s.proposals <==> id < s.count)
    && (forall id <- s.proposals.Keys :: WellFormed(s.proposals[id], id, s.ledger, bound))
  }

  lemma StepKeepsConsistent(s: State, op: Op, bound: u32, newBound: u32)
    requires Consistent(s, bound)
    requires newBound == Max(bound, Apply(s, op).config.quorum)
    ensures Consistent(Apply(s, op), newBound)
  {
    var t := Apply(s, op);
    forall id | id in t.proposals ensures WellFormed(t.proposals[id], id, t.ledger, newBound) {
      if id in s.proposals {
        assert WellFormed(s.proposals[id], id, s.ledger, bound);
      }
    }
  }

  // In every reachable state ids are exactly 0..count-1, and every proposal has distinct
  // endorsers, its proposer first, never more than the largest quorum there has been.
  lemma {:induction false} ReachableConsistent(ops: seq<Op>, n: nat)
    requires n <= |ops|
    ensures Consistent(After(ops, n), LargestQuorum(ops, n))
  {
    if n > 0 {
      ReachableConsistent(ops, n - 1);
      InForce(ops, n);
      StepKeepsConsistent(After(ops, n - 1), ops[n - 1], LargestQuorum(ops, n - 1), LargestQuorum(ops, n));
    }
  }

  // ----- how proposals evolve -----

  predicate Evolves(p: Proposal, q: Proposal) {
    && q == p.(endorsements := q.endorsements, executed := q.executed)
    && p.endorsements <= q.endorsements
    && (p.executed ==> q.executed)
  }

  predicate Final(p: Proposal, ledger: u32) {
    p.executed || ProposalExpired(p, ledger)
  }

  lemma {:induction false} ProposalsEvolve(ops: seq<Op>, m: nat, n: nat, id: u64)
    requires m <= n <= |ops| && id in After(ops, m).proposals
    ensures id in After(ops, n).proposals
    ensures Evolves(After(ops, m).proposals[id], After(ops, n).proposals[id])
    ensures After(ops, m).ledger <= After(ops, n).ledger
    ensures Final(After(ops, m).proposals[id], After(ops, m).ledger) ==>
              After(ops, n).proposals[id] == After(ops, m).proposals[id]
  {
    if m < n {
      ProposalsEvolve(ops, m, n - 1, id);
      ReachableConsistent(ops, n - 1);
      StepEvolves(After(ops, n - 1), ops[n - 1], id, LargestQuorum(ops, n - 1));
    }
  }

  lemma StepEvolves(s: State, op: Op, id: u64, bound: u32)
    requires Consistent(s, bound) && id in s.proposals
    ensures id in Apply(s, op).proposals
    ensures Evolves(s.proposals[id], Apply(s, op).proposals[id])
    ensures s.ledger <= Apply(s, op).ledger
    ensures Final(s.proposals[id], s.ledger) ==> Apply(s, op).proposals[id] == s.proposals[id]
  {
  }

  // Executed or expired proposals never change again.
  lemma FinalNeverChanges(ops: seq<Op>, m: nat, n: nat, id: u64)
    requires m <= n <= |ops| && id in After(ops, m).proposals
    requires Final(After(ops, m).proposals[id], After(ops, m).ledger)
    ensures id in After(ops, n).proposals && After(ops, n).proposals[id] == After(ops, m).proposals[id]
  {
    ProposalsEvolve(ops, m, n, id);
  }

  // ----- execution -----

  ghost predicate ExecutedAt(ops: seq<Op>, i: nat, id: u64) {
    i < |ops| && ops[i] == Execute(id) && ExecuteStep(After(ops, i), id).1.Ok?
  }

  // No proposal is executed twice.
  lemma ExecutedAtMostOnce(ops: seq<Op>, i: nat, j: nat, id: u64)
    requires ExecutedAt(ops, i, id) && ExecutedAt(ops, j, id)
    ensures i == j
  {
    var a, b := if i < j then i else j, if i < j then j else i;
    assert After(ops, a + 1) == Apply(After(ops, a), ops[a]);
    if a < b {
      FinalNeverChanges(ops, a + 1, b, id);
    }
  }

  function Endorsers(p: Proposal): set<Address> {
    set e | e in p.endorsements
  }

  lemma {:induction false} DistinctCount(s: seq<Address>)
    requires NoDuplicates(s)
    ensures |set e | e in s| == |s|
  {
    if s != [] {
      var front := s[..|s| - 1];
      DistinctCount(front);
      assert (set e | e in s) == (set e | e in front) + {s[|s| - 1]};
    }
  }

  // A call executes a proposal exactly when the proposal exists, has not expired or been executed,
  // and has as many distinct endorsers as the quorum then in force.  It yields the proposal's
  // anchor and marks that proposal and nothing else.
  lemma ExecutionJustified(ops: seq<Op>, i: nat, id: u64)
    requires i < |ops| && ops[i] == Execute(id)
    ensures var s := After(ops, i);
            && (ExecutedAt(ops, i, id) <==>
                && id in s.proposals && Open(s.proposals[id], LedgerAt(ops, i))
                && |Endorsers(s.proposals[id])| >= ConfigAt(ops, i).quorum)
            && (ExecutedAt(ops, i, id) ==>
                && ExecuteStep(s, id).1 == Ok(s.proposals[id].anchor)
                && After(ops, i + 1) == s.(proposals := s.proposals[id := s.proposals[id].(executed := true)]))
  {
    ReachableConsistent(ops, i);
    InForce(ops, i);
    var s := After(ops, i);
    if id in s.proposals {
      assert WellFormed(s.proposals[id], id, s.ledger, LargestQuorum(ops, i));
      DistinctCount(s.proposals[id].endorsements);
    }
  }

  lemma AbsentNeverExecuted(ops: seq<Op>, n: nat, id: u64)
    requires n <= |ops| && id !in After(ops, n).proposals
    ensures forall i :: 0 <= i < n ==> !ExecutedAt(ops, i, id)
  {
    forall i | 0 <= i < n ensures !ExecutedAt(ops, i, id) {
      if ExecutedAt(ops, i, id) {
        ProposalsEvolve(ops, i, n, id);
      }
    }
  }

  // A step marks a proposal exactly when it executes it.
  lemma StepMarks(ops: seq<Op>, k: nat, id: u64)
    requires k < |ops| && id in After(ops, k + 1).proposals
    requires Consistent(After(ops, k), LargestQuorum(ops, k))
    ensures After(ops, k + 1).proposals[id].executed <==>
            (id in After(ops, k).proposals && After(ops, k).proposals[id].executed) || ExecutedAt(ops, k, id)
  {
  }

  // A proposal is marked executed exactly when some earlier call executed it.
  lemma {:induction false} MarkedIffExecuted(ops: seq<Op>, n: nat, id: u64)
    requires n <= |ops| && id in After(ops, n).proposals
    ensures After(ops, n).proposals[id].executed <==> exists i :: 0 <= i < n && ExecutedAt(ops, i, id)
  {
    if n > 0 {
      ReachableConsistent(ops, n - 1);
      StepMarks(ops, n - 1, id);
      if id in After(ops, n - 1).proposals {
        MarkedIffExecuted(ops, n - 1, id);
      } else {
        AbsentNeverExecuted(ops, n - 1, id);
      }
    }
  }

  // ----- origin -----

  // Every stored proposal was created by one call, whose anchor, proposer, ledger and configured
  // lifetime it still carries, whatever was configured afterwards.
  lemma {:induction false} ProposalOrigin(ops: seq<Op>, n: nat, id: u64) returns (i: nat)
    requires n <= |ops| && id in After(ops, n).proposals
    ensures i < n && ops[i].Propose? && ProposeStep(After(ops, i), ops[i].proposer, ops[i].anchor).1 == Ok(id)
    ensures var p := After(ops, n).proposals[id];
            && p.anchor == ops[i].anchor && p.proposer == ops[i].proposer
            && p.createdAt == LedgerAt(ops, i) && p.expiryLedgers == ConfigAt(ops, i).expiryLedgers
  {
    InForce(ops, n - 1);
    i := n - 1;
    var s := After(ops, n - 1);
    ReachableConsistent(ops, n - 1);
    if id in s.proposals {
      i := ProposalOrigin(ops, n - 1, id);
      StepEvolves(s, ops[n - 1], id, LargestQuorum(ops, n - 1));
    }
  }

  // ----- endorsements -----

  // The endorsement list as the calls made it: the proposer, and then each caller who found the
  // proposal open, was not on the list, and found the list below the quorum then in force.
  function Votes(ops: seq<Op>, n: nat, id: u64): seq<Address>
    requires n <= |ops|
  {
    if n == 0 then [] else
      VotesNext(After(ops, n - 1), LedgerAt(ops, n - 1), ConfigAt(ops, n - 1).quorum, ops[n - 1], id,
                Votes(ops, n - 1, id))
  }

  function VotesNext(s: State, ledger: nat, quorum: nat, op: Op, id: u64, votes: seq<Address>): seq<Address> {
    match op
    case Propose(proposer, _) => if s.count == id && id < U64_MAX then [proposer] else votes
    case Endorse(who, target) =>
      if target == id && id in s.proposals && Open(s.proposals[id], ledger) && who !in votes && |votes| < quorum
      then votes + [who] else votes
    case _ => votes
  }

  function Listed(s: State, id: u64): seq<Address> {
    if id in s.proposals then s.proposals[id].endorsements else []
  }

  lemma {:induction false} EndorsementsAreVotes(ops: seq<Op>, n: nat, id: u64)
    requires n <= |ops|
    ensures Listed(After(ops, n), id) == Votes(ops, n, id)
  {
    if n > 0 {
      ReachableConsistent(ops, n - 1);
      EndorsementsAreVotes(ops, n - 1, id);
      InForce(ops, n - 1);
      StepLists(After(ops, n - 1), ops[n - 1], id, LargestQuorum(ops, n - 1));
    }
  }

  lemma StepLists(s: State, op: Op, id: u64, bound: u32)
    requires Consistent(s, bound)
    ensures Listed(Apply(s, op), id) == VotesNext(s, s.ledger, s.config.quorum, op, id, Listed(s, id))
  {
  }

  // Operation i put `who` on the endorsement list of proposal id.
  ghost predicate CastAt(ops: seq<Op>, i: nat, who: Address, id: u64) {
    i < |ops| &&
    match ops[i]
    case Propose(proposer, anchor) => proposer == who && ProposeStep(After(ops, i), proposer, anchor).1 == Ok(id)
    case Endorse(endorser, target) =>
      && endorser == who && target == id
      && EndorseStep(After(ops, i), endorser, id).1.Ok?
      && who !in After(ops, i).proposals[id].endorsements
    case _ => false
  }

  // Every name on the list was put there by its own successful call.
  lemma {:induction false} EndorsementsWereCast(ops: seq<Op>, n: nat, who: Address, id: u64)
    requires n <= |ops| && id in After(ops, n).proposals
    ensures who in After(ops, n).proposals[id].endorsements <==> exists i :: 0 <= i < n && CastAt(ops, i, who, id)
  {
    if n > 0 {
      var s := After(ops, n - 1);
      ReachableConsistent(ops, n - 1);
      if id in s.proposals {
        EndorsementsWereCast(ops, n - 1, who, id);
        StepCasts(ops, n - 1, who, id);
      } else {
        forall i | 0 <= i < n - 1 ensures !CastAt(ops, i, who, id) {
          if CastAt(ops, i, who, id) {
            assert id in After(ops, i + 1).proposals;
            ProposalsEvolve(ops, i + 1, n - 1, id);
          }
        }
        assert CastAt(ops, n - 1, who, id) <==> ops[n - 1].Propose? && ops[n - 1].proposer == who;
      }
    }
  }

  lemma StepCasts(ops: seq<Op>, k: nat, who: Address, id: u64)
    requires k < |ops| && id in After(ops, k).proposals
    requires Consistent(After(ops, k), LargestQuorum(ops, k))
    ensures id in After(ops, k + 1).proposals
    ensures who in After(ops, k + 1).proposals[id].endorsements <==>
            who in After(ops, k).proposals[id].endorsements || CastAt(ops, k, who, id)
  {
  }

  // ----- answers -----

  // Which answer each call of a run gets.  Of several reasons to refuse, the first listed counts.
  lemma CallAnswers(ops: seq<Op>, i: nat)
    requires i < |ops|
    ensures var s, ledger, quorum := After(ops, i), LedgerAt(ops, i), ConfigAt(ops, i).quorum;
            match ops[i]
            case SetConfig(c) =>
              SetConfigStep(s, c).1 == if c.quorum == 0 || c.expiryLedgers == 0 then Err(Invalid) else Ok(())
            case Propose(proposer, anchor) =>
              ProposeStep(s, proposer, anchor).1 ==
              if s.count == U64_MAX then Err(CapacityExceeded) else Ok(s.count)
            case Endorse(who, id) =>
              EndorseStep(s, who, id).1 ==
              if id !in s.proposals then Err(NotFound)
              else if ledger >= Min(s.proposals[id].createdAt + s.proposals[id].expiryLedgers, U32_MAX) then Err(Stale)
              else if s.proposals[id].executed then Err(Invalid)
              else if who !in s.proposals[id].endorsements && |s.proposals[id].endorsements| >= quorum then Err(Invalid)
              else Ok(())
            case Execute(id) =>
              ExecuteStep(s, id).1 ==
              if id !in s.proposals then Err(NotFound)
              else if ledger >= Min(s.proposals[id].createdAt + s.proposals[id].expiryLedgers, U32_MAX) then Err(Stale)
              else if s.proposals[id].executed || |s.proposals[id].endorsements| < quorum then Err(Invalid)
              else Ok(s.proposals[id].anchor)
            case Advance(_) => true
  {
    InForce(ops, i);
  }

  // ----- rejected calls -----

  predicate Rejected(s: State, op: Op) {
    match op
    case SetConfig(c) => SetConfigStep(s, c).1.Err?
    case Propose(proposer, anchor) => ProposeStep(s, proposer, anchor).1.Err?
    case Endorse(endorser, id) => EndorseStep(s, endorser, id).1.Err?
    case Execute(id) => ExecuteStep(s, id).1.Err?
    case Advance(_) => false
  }

  // The first n operations without those that were rejected.
  function Accepted(ops: seq<Op>, n: nat): seq<Op>
    requires n <= |ops|
  {
    if n == 0 then [] else
      Accepted(ops, n - 1) + if Rejected(After(ops, n - 1), ops[n - 1]) then [] else [ops[n - 1]]
  }

  lemma {:induction false} AfterPrefix(ops: seq<Op>, more: seq<Op>, n: nat)
    requires n <= |ops|
    ensures After(ops + more, n) == After(ops, n)
  {
    if n > 0 {
      AfterPrefix(ops, more, n - 1);
    }
  }

  predicate NoneRejected(ops: seq<Op>) {
    ops == [] ||
    var before := ops[..|ops| - 1];
    NoneRejected(before) && !Rejected(After(before, |before|), ops[|ops| - 1])
  }

  lemma OneMore(ops: seq<Op>, op: Op)
    ensures NoneRejected(ops + [op]) <==> NoneRejected(ops) && !Rejected(After(ops, |ops|), op)
    ensures After(ops + [op], |ops| + 1) == Apply(After(ops, |ops|), op)
  {
    assert (ops + [op])[..|ops|] == ops;
    AfterPrefix(ops, [op], |ops|);
  }

  lemma RejectedChangesNothing(s: State, op: Op)
    requires Rejected(s, op)
    ensures Apply(s, op) == s
  {
  }

  // Erasing every rejected call from a run gives a run in which nothing is rejected and which
  // ends in the same state.
  lemma {:induction false} RejectedCallsLeaveNoTrace(ops: seq<Op>, n: nat)
    requires n <= |ops|
    ensures After(Accepted(ops, n), |Accepted(ops, n)|) == After(ops, n)
    ensures NoneRejected(Accepted(ops, n))
  {
    if n > 0 {
      var s, op, kept := After(ops, n - 1), ops[n - 1], Accepted(ops, n - 1);
      RejectedCallsLeaveNoTrace(ops, n - 1);
      if Rejected(s, op) {
        RejectedChangesNothing(s, op);
        assert Accepted(ops, n) == kept;
      } else {
        OneMore(kept, op);
        assert Accepted(ops, n) == kept + [op];
      }
    }
  }
}
