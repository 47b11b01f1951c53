# SorobanAnchor: verified model

A Dafny model of ten components of SorobanAnchor, with proofs of what each promises over all
inputs and all runs. `dafny verify dfyconfig.toml` checks the whole project.

Objects the program updates in place (deduplicator, suppressor, filter, byte buffer, replay
guard, governance store, audit store) are classes. Each method is tied by its `ensures` to a pure
step function, and the theorems about runs are lemmas about those step functions. Loops over
headers, requests, hex pairs, days and months are methods with loops, proved equal to a function
or to a closed form. A contract call that panics is a rejected call that leaves the stored state
unchanged.

| files | component |
|---|---|
| `AlertDedup`, `AlertRuns`, `AlertCapacity`, `AlertSuppression`, `AlertDelivery` | alert deduplicator, suppressor and filter |
| `CanonicalEncoding`, `CanonicalBuilders` | hash pre-images and the loops that build them |
| `Correlation`, `CorrelationRoundTrip`, `CorrelationParsing` | correlation headers and hop chains |
| `DomainValidator`, `DomainGrammar`, `DomainPolicy` | anchor-domain recognizer, host extractor, policy |
| `HostReplay`, `HostReplayRuns` | host replay guard |
| `Routing`, `Scoring`, `RoutingLaws`, `RoutingOutcomes`, `RoutingInvariance` | multi-asset router |
| `CacheGovernance`, `GovernanceRuns`, `CachePolicy` | invalidation proposals and TTL policy |
| `AdminAudit`, `AuditRuns` | admin audit log |
| `Calendar` | timestamp to calendar date |
| `Signature`, `OutboundHeaders`, `Hex` | outbound headers and signature verification |
| `Words`, `Text`, `Decimal` | machine integers, strings, decimal numbers |

Time is always an argument. SHA-256 appears only through the bytes it is fed, HMAC-SHA256 as a
function to 32 bytes, the XDR form of an address as a prefix-free code, and base64 as an injective
function to text without control characters. Each floating-point operation of the routing score is
an exact operation followed by a rounding of which only what rounding to nearest guarantees is
used (`Scoring.NearestFloat`); what does not need the score to be that one is proved for every
score. The list of protected header names is not part of this model, as the
program refers to it without defining it; it is a parameter.

## Where code and documentation disagree

The model follows the code.

- `should_fire` promises `false` for an alert within its suppression window
  (`src/alert_dedup.rs:105-107`). A bounded table forgets: for a key not reset since it fired, the
  promise fails exactly when an alert of another key in between leaves no room for it
  (`AlertCapacity.DeliveredIff`).
- `build_headers` promises that malformed values never become headers (`src/http_client.rs:255-258`).
  The idempotency key is not validated: control characters reach the headers exactly when it has
  some (`OutboundHeaders.BuiltCleanIff`).
- The domain length floor is 12 bytes (`src/domain_validator.rs:201`), while the documentation says
  10, a comment counts `https://a.b` as 12, and a test expects it to pass; it has 11 and is rejected
  (`DomainGrammar.LengthFloor`).
- Tests of the 2048-byte limit expect labels of 2000 and more characters to pass; labels are capped
  at 63 (`src/domain_validator.rs:350`), so they are rejected (`DomainGrammar.LongLabelRejected`).
- `enforce_write_policy` promises an unset refresh flag on a brand-new write. It is set exactly when
  effective TTL times threshold percentage is below 100 (`CachePolicy.BrandNewWriteFlaggedIff`);
  the shipped defaults never get there.
- The audit log says it evicts the oldest entry when full. After the capacity is lowered below the
  entries held, it evicts from the middle and stays over capacity. A write keeps the window exactly
  when the entries held fit the capacity beforehand (`AuditRuns.WriteKeepsWindowIff`).
- The weighted score gives settlement speed a weight of a third, and its comments say that large
  times score near zero. Divided by the largest float, any 64-bit time is lost when it is taken from
  one, so speed always scores one and never decides (`Scoring.SettlementNeverCounts`).
- The calendar code calls itself accurate until about 2100; it is exact for every 64-bit count.

## Model

| member | source | states |
|---|---|---|
| AlertDedup.AlertDeduplicator.ShouldFire | src/alert_dedup.rs:110-146 | decision and new table and log are those of the step function `Decide`, including in-place update and eviction |
| AlertDedup.AlertDeduplicator.OldestKey | src/alert_dedup.rs:134-142 | the evicted key has the least last-fired time and, among equals, is first in key order |
| AlertDedup.AlertDeduplicator.PushSuppressionDiagnostic | src/alert_dedup.rs:162-174 | drops the oldest diagnostics that exceed the bound, then appends the new one |
| AlertDedup.AlertDeduplicator.DrainSuppressionLog | src/alert_dedup.rs:153-155 | returns the whole log in order and leaves it empty |
| AlertDedup.AlertDeduplicator.Reset | src/alert_dedup.rs:178-180 | forgets exactly the named fingerprint |
| AlertDedup.AlertDeduplicator.ResetAll | src/alert_dedup.rs:183-185 | forgets every fingerprint |
| AlertDedup.DiagnosticInjective | src/structured_log.rs:195-211 | two fingerprints never give the same diagnostic, whatever quotes, backslashes or control characters they contain |
| AlertDedup.DiagnosticReadsBack | src/structured_log.rs:195-211 | a diagnostic starts with the one field alert_key, and reading its value as a JSON string (RFC 8259, section 7) gives the fingerprint and leaves the closing brace |
| AlertRuns.EarlyRefireNeedsCapacity | src/alert_dedup.rs:110-146 | with a nondecreasing clock, when one fingerprint fires twice in a row less than a window apart and is not reset in between, at least `max_keys` distinct other fingerprints fire before the second and no earlier in time than the first |
| AlertCapacity.DeliveredIff | src/alert_dedup.rs:103-146 | under any clock and any resets, an alert is delivered if and only if there is no window, its key has not fired since it was last reset, its time has reached that of its last fire plus the window, or some alert of another key in between made, with the keys whose entries outlive its own, at least `max_keys` |
| AlertCapacity.DeliveredIffOthersFired | src/alert_dedup.rs:103-146 | when every alert has a later time and nothing is reset in between, an alert inside its window is delivered if and only if at least `max_keys` other fingerprints fired since |
| AlertCapacity.RivalsTracked | src/alert_dedup.rs:130-145 | while a key is tracked, so is every key whose entry eviction would take later |
| AlertRuns.WithinCapacityAgreesWithUnbounded | src/alert_dedup.rs:110-146 | a run using at most `max_keys` fingerprints has, at every point and under any clock, the table and decisions of an unlimited deduplicator |
| AlertRuns.WithinCapacityDecision | src/alert_dedup.rs:110-146 | in such a run an alert is suppressed if and only if there is a window, its key fired and was not reset since, and its time is before that of the fire plus the window |
| AlertRuns.SuppressionJustified | src/alert_dedup.rs:117-126 | in any run, every suppressed call answers to an earlier fire of the same fingerprint whose time plus the window lies after it |
| AlertRuns.EntryMirrorsHistory | src/alert_dedup.rs:117-145 | each tracked entry is the time of the key's last fire and the saturated number of its suppressions since |
| AlertRuns.TableBounded | src/alert_dedup.rs:60-63 | tracked keys never exceed a nonzero `max_keys` |
| AlertRuns.LogIsNewestSuppressions | src/alert_dedup.rs:148-174 | the log, and so a drain, holds exactly the newest `max_keys` suppressions since the last drain, in order |
| AlertSuppression.AlertSuppressor.IsSuppressed | src/alert_dedup.rs:278-290 | answers whether an unexpired entry exists and removes an entry found expired, nothing else |
| AlertSuppression.AlertSuppressor.Suppress | src/alert_dedup.rs:254-273 | an expiry not in the future is refused, any other replaces the entry |
| AlertSuppression.AlertSuppressor.Unsuppress | src/alert_dedup.rs:293-295 | removes exactly the named entry |
| AlertSuppression.AlertSuppressor.PurgeExpired | src/alert_dedup.rs:298-301 | keeps exactly the unexpired entries |
| AlertSuppression.ActiveKeysAreHistory | src/alert_dedup.rs:304-310 | under a nondecreasing clock, the fingerprints a count counts are exactly those whose latest accepted suppression, not lifted since, runs past the time of the count |
| AlertSuppression.PurgingUnobservable | src/alert_dedup.rs:278-310 | under a nondecreasing clock, lookups and active counts equal those of a list that is never purged |
| AlertSuppression.SuppressedIffLatestExpiryAhead | src/alert_dedup.rs:254-295 | a lookup says suppressed if and only if the latest accepted suppression, not lifted since, runs past the lookup time |
| AlertDelivery.DeliveredIff | src/alert_dedup.rs:344-349 | in any run under a nondecreasing clock an event is delivered if and only if its latest accepted suppression, not lifted since, does not run past it and, among the events that reach the deduplicator, the rule of `AlertCapacity.DeliveredIff` holds |
| AlertDelivery.FilterIsBoth | src/alert_dedup.rs:326-349 | the state of the filter is that of the suppressor after every event and of the deduplicator after those not suppressed |
| AlertSuppression.AlertFilter.ShouldDeliver | src/alert_dedup.rs:344-349 | the suppressor is asked first and the deduplicator only when it does not object, as in the step `Deliver` that the run theorems are about |
| AlertSuppression.SuppressedEventsAreInvisible | src/alert_dedup.rs:344-349 | erasing every manually suppressed event from a filter run leaves all other decisions and the final state unchanged |
| CanonicalEncoding.FieldsRoundTrip | src/deterministic_hash.rs:329-395 | a decoder reading to the end of input recovers the exact field list |
| CanonicalEncoding.FieldsOnlyEncodings | src/deterministic_hash.rs:329-395 | whatever the decoder accepts re-encodes to the same bytes, so it accepts exactly the pre-images |
| CanonicalEncoding.FieldsInjective | src/deterministic_hash.rs:215-240 | distinct field lists, of any mix of kinds, have distinct pre-images |
| CanonicalEncoding.FieldLayout | src/deterministic_hash.rs:333-391 | tag bytes 0 to 6, big-endian lengths and counts, eight or four big-endian bytes for the integers, one byte for a boolean, in these positions |
| CanonicalBuilders.EncodeFieldsSnoc | src/deterministic_hash.rs:329-395 | the fields follow each other in order: one more field adds its bytes at the end |
| CanonicalEncoding.SegmentsRoundTrip | src/deterministic_hash.rs:75-93 | the length-prefixed segment list is recovered from its bytes |
| CanonicalEncoding.SegmentsOnlyEncodings | src/deterministic_hash.rs:75-93 | the segment decoder accepts nothing but encodings |
| CanonicalEncoding.SegmentLayout | src/deterministic_hash.rs:75-93 | the segments follow each other in order, each after four big-endian length bytes |
| CanonicalEncoding.PayloadInjective | src/deterministic_hash.rs:140-170 | equal attestation pre-images have equal subject, timestamp and data, for any prefix-free subject encoding |
| CanonicalEncoding.PayloadLayout | src/deterministic_hash.rs:140-170 | the 24 characters of the domain, the subject, eight big-endian timestamp bytes and the data, in these positions |
| CanonicalEncoding.PayloadIsNoStorageKey | src/deterministic_hash.rs:39-50 | no attestation pre-image of valid data and bounded subject is a storage-key pre-image |
| CanonicalEncoding.PayloadIsNoFieldList | src/deterministic_hash.rs:39-50 | no attestation pre-image is a canonical-field pre-image |
| CanonicalBuilders.StorageKeyPreimage | src/deterministic_hash.rs:75-93 | the push loops build exactly the segment encoding, and an over-long segment is refused |
| CanonicalBuilders.CanonicalPreimage | src/deterministic_hash.rs:329-395 | the push loops build exactly the field encoding, and an over-long list is refused |
| CanonicalBuilders.WriteField | src/deterministic_hash.rs:333-391 | each field kind appends its tag, length and content, and a list its count and elements |
| CanonicalBuilders.Buffer.WriteLengthPrefixed | src/deterministic_hash.rs:281-287 | appends the four length bytes and then the data |
| CanonicalBuilders.PayloadPreimage | src/deterministic_hash.rs:140-170 | empty or oversize data is refused, otherwise domain, subject, timestamp and data follow each other |
| Correlation.ToHeaders | src/distributed_correlation.rs:226-241 | prints `X-Correlation-Id`, `X-Origin-Service`, `X-Hop-Count` and, when there is baggage, `X-Baggage` with its entries in key order |
| Correlation.SortedKeys | src/distributed_correlation.rs:232-238 | lists every baggage key once, in ascending order |
| Correlation.ParseHeaders | src/distributed_correlation.rs:248-289 | the header loop with its early return computes `FromHeaders` |
| CorrelationParsing.FromHeadersIs | src/distributed_correlation.rs:248-289 | for every list whose hop counts are 32-bit numbers: no identifier or a malformed last one gives its error, and otherwise the context has the last identifier, the last origin, the last hop count and for every key its last item, names taken in any ASCII case |
| CorrelationParsing.BadCountFails | src/distributed_correlation.rs:265-270 | the first hop count that is no 32-bit number is the error |
| CorrelationParsing.ItemIff | src/distributed_correlation.rs:271-279 | an item denotes a pair if and only if what precedes its first equals sign, trimmed, is the nonempty key and what follows, trimmed, the value |
| CorrelationParsing.ValidIdIff | src/distributed_correlation.rs:339-350 | an identifier is valid if and only if it is 32 lower-case hexadecimal digits |
| Correlation.ParseBaggage | src/distributed_correlation.rs:271-279 | the pair loop adds exactly the pairs of `AddPairs` |
| Correlation.DerivedIdIsValid | src/distributed_correlation.rs:132-161 | a derived identifier is valid, builds the same context as when supplied, and decodes to the digest prefix it came from; the new context has the service as origin and current service, no hops and no baggage |
| CorrelationRoundTrip.RoundTripIff | src/distributed_correlation.rs:226-289 | printed headers parse back to the context with current service reset to the origin if and only if the id is valid and every baggage key is nonempty, trimmed and free of comma and equals sign, every value trimmed and free of comma |
| CorrelationRoundTrip.AddedBaggageSurvivesIff | src/distributed_correlation.rs:201-204 | adding an entry to a context that survives the headers keeps it so if and only if the new key and value are safe |
| CorrelationRoundTrip.RoundTripAnyOrder | src/distributed_correlation.rs:258-280 | the same after permuting the headers, changing any ASCII letter of their names by the distance 32 between the cases, or adding unrelated headers |
| CorrelationRoundTrip.ScanByName | src/distributed_correlation.rs:258-280 | for any header list, parsing depends only on the values carried under each of the four names, in order |
| CorrelationRoundTrip.ParsedIsWellFormed | src/distributed_correlation.rs:248-289 | every parsed context has a valid id and only well-formed baggage |
| CorrelationRoundTrip.ChainPreserves | src/distributed_correlation.rs:212-220 | along any chain of print, parse and next hop, exactly one context is delivered: id, origin and baggage are kept, the last service is current, and the hop count is the saturated number of handovers |
| Decimal.ParsePrint | src/distributed_correlation.rs:230 | every 32-bit count prints to text that parses back to it |
| Decimal.ParseDigitsIsBoundedValue | src/distributed_correlation.rs:266-269 | checking overflow at each digit agrees with computing the exact value and testing the bound once |
| Decimal.ParseU32Iff | src/distributed_correlation.rs:266-269 | a text is read as a count if and only if it is one or more digits, after an optional plus sign, whose positional value is that count and fits 32 bits |
| Decimal.PrintDenotes | src/distributed_correlation.rs:230 | what is printed is digits of that positional value without a leading zero |
| DomainGrammar.AcceptedIffGrammar | src/domain_validator.rs:186-371 | a URL is accepted if and only if it has 12 to 2048 allowed characters and is scheme, host, optional port 1 to 65535, empty or root path, and optional query or fragment, the host being two or more labels of 1 to 63 bytes, not all numeric, at most 253 bytes |
| DomainGrammar.ExtractedHost | src/domain_validator.rs:382-406 | for any decomposition of a URL by the grammar, the separate extractor returns exactly that host |
| DomainGrammar.NameIff | src/domain_validator.rs:318-368 | the dot and label checks accept exactly the host names of the grammar |
| DomainGrammar.LengthFloor | src/domain_validator.rs:200-203 | the eleven-character `https://a.b` is rejected |
| DomainGrammar.LongLabelRejected | src/domain_validator.rs:349-352 | a URL whose host has a label of more than 63 characters is rejected, whatever its length, port, path, query or fragment |
| DomainPolicy.MatchesIffLabelSuffix | src/domain_validator.rs:102-113 | a nonempty pattern matches a host if and only if its labels are the last labels of the host, letter by letter equal or 32 apart in the ASCII letters |
| DomainPolicy.FirstMatchDecides | src/domain_validator.rs:102-116 | the first matching rule decides, and the default decides when none matches |
| DomainPolicy.ShadowedRuleIsDead | src/domain_validator.rs:102-116 | deleting a rule whose pattern extends an earlier rule's by more leading labels changes no decision |
| DomainPolicy.AddedRule | src/domain_validator.rs:72-96 | a builder call decides exactly the hosts no earlier rule matched and its trimmed pattern covers; blank patterns add nothing |
| DomainPolicy.PolicyVerdict | src/domain_validator.rs:457-477 | a grammatical URL is accepted or reported as blocked with its host, as the policy permits the host it is made of |
| DomainPolicy.PolicyNeverWidens | src/domain_validator.rs:457-477 | no policy makes an ungrammatical URL acceptable |
| HostReplay.HostReplayGuard.Check | src/host_replay_prevention.rs:155-173 | prunes, then reports a replay with the stored time or records the request; a counter that would pass 64 bits stops the call after the list was updated |
| HostReplay.HostReplayGuard.PruneExpired | src/host_replay_prevention.rs:179-185 | keeps exactly the entries not older than the window, in order, and all of them when the window is zero |
| HostReplay.HostReplayGuard.Forget | src/host_replay_prevention.rs:202-206 | removes every entry of the id and reports whether there was one |
| HostReplayRuns.KnownIffReplay | src/host_replay_prevention.rs:195-197 | in any run under a nondecreasing clock an id is known if and only if its last acceptance, not forgotten since, lies inside the window, and so if and only if a check at that moment would answer with a replay |
| HostReplay.HostReplayGuard.Reset | src/host_replay_prevention.rs:209-213 | empties the list and both counters |
| HostReplayRuns.PruningUnobservable | src/host_replay_prevention.rs:155-185 | under a nondecreasing clock, with forgets and resets allowed, a check is a replay if and only if the id was accepted and not forgotten since and the window is zero or has not passed since, and it names that time |
| HostReplayRuns.ExtraPrunesChangeNothing | src/host_replay_prevention.rs:179-185 | erasing all explicit prunes from a run changes no answer |
| HostReplayRuns.AcceptancesSpacedOut | src/host_replay_prevention.rs:155-173 | two acceptances of an unforgotten id are more than a window apart, and impossible with the unlimited window |
| HostReplayRuns.ListInvariant | src/host_replay_prevention.rs:119-120 | the list holds each id at most once, oldest first |
| HostReplayRuns.HeldWasChecked | src/host_replay_prevention.rs:165-170 | every held entry is the identifier, actor and time of one check |
| HostReplayRuns.CountersTally | src/host_replay_prevention.rs:121-124 | the two counters are the numbers of accepted and replayed checks since the last reset |
| HostReplayRuns.CountersWithinRun | src/host_replay_prevention.rs:121-124 | the counters never exceed the number of operations, so they overflow in no run of fewer than 2^64 |
| Routing.RouteMultiAsset | src/multi_asset_routing.rs:317-389 | under the rounded weighted score, the request loop computes `Route`, with the blank-candidate test first and the first error returned |
| Routing.RouteRequest | src/multi_asset_routing.rs:330-385 | validation, filter and selection for one request compute `RouteOne` |
| Routing.FilterCandidates | src/multi_asset_routing.rs:343-357 | the filter loop keeps the eligible quotes in order |
| RoutingOutcomes.RequestVerdict | src/multi_asset_routing.rs:156-184 | the error of a request is that of the first condition it fails: codes of 1 to 12 ASCII letters or digits, two different codes, a nonzero amount, one of the four labels |
| RoutingOutcomes.QualifiesIff | src/multi_asset_routing.rs:343-357 | for a valid request a quote passes the filter if and only if its codes, rate, expiry, limits and reputation meet the stated comparisons |
| RoutingOutcomes.OutcomeByLabel | src/multi_asset_routing.rs:234-284 | a valid request is filled by the earliest of lowest fee for `LowestFee` or of shortest settlement for `FastestSettlement`, and the latest of highest reputation for `HighestReputation` or of highest score for `WeightedScore`, among the quotes that qualify, with that quote's data and the upper-case codes as key |
| RoutingLaws.SelectionIsTheWinner | src/multi_asset_routing.rs:234-284 | the selected position is the one first minimum (fee, settlement time) or last maximum (reputation, score), for every score of a candidate |
| RoutingLaws.OutcomeIsOptimal | src/multi_asset_routing.rs:330-385 | a valid request never fails; it is unfilled if and only if no quote is eligible, and otherwise carries the winning quote's data |
| RoutingLaws.CandidatesAreTheEligible | src/multi_asset_routing.rs:343-357 | the pool contains exactly the eligible quotes |
| RoutingLaws.SelfRouteTestRedundant | src/multi_asset_routing.rs:348 | for a valid request the self-route test never decides eligibility |
| RoutingLaws.PassAccountsForEveryRequest | src/multi_asset_routing.rs:328-388 | a successful pass is one outcome per request, in order, split into filled and unfilled |
| RoutingLaws.RouteConcat | src/multi_asset_routing.rs:328-388 | routing a concatenated batch concatenates the results, the earlier error winning |
| RoutingLaws.EarliestErrorWins | src/multi_asset_routing.rs:317-331 | a blank quote fails the pass first; otherwise it fails exactly with the error of the earliest invalid request |
| RoutingLaws.NewcomerWinsOrNothingChanges | src/multi_asset_routing.rs:254-279 | inserting a quote anywhere either makes it the winner or changes nothing |
| RoutingInvariance.SpellingIrrelevant | src/multi_asset_routing.rs:186-200 | respelling both codes of every request and of every quote, in any ASCII case and with any padding, changes nothing in the result of a batch |
| RoutingInvariance.SettlementTimesIrrelevant | src/multi_asset_routing.rs:254-279 | unless a request asks for the fastest settlement, changing the settlement times of all quotes changes nothing in the result of a batch |
| RoutingInvariance.WeightedWinnerUndominated | src/multi_asset_routing.rs:254-279 | a candidate no dearer and no less reputed than the weighted winner ties with it and stands before it |
| Scoring.SettlementNeverCounts | src/multi_asset_routing.rs:299-303 | the rounded weighted score is the same for every 64-bit settlement time |
| Scoring.ScoreMonotone | src/multi_asset_routing.rs:286-311 | a fee no higher and a reputation no lower never score less, after every rounding |
| Scoring.ScoreFormula | src/multi_asset_routing.rs:286-311 | the score is the rounded sum of the three weighted and rounded shares, that of speed being its weight |
| Scoring.ScoreStaysFinite | src/multi_asset_routing.rs:286-311 | every part of the score and the total stay between -2^27 and 2^28, so nothing overflows or fails to be a number |
| RoutingLaws.CanonicalCodeUnchanged | src/multi_asset_routing.rs:186-192 | a trimmed code without lower-case letters is its own normal form |
| Text.UpperIs | src/multi_asset_routing.rs:186-192 | the normal form of a trimmed code is its one spelling without lower-case ASCII letters |
| RoutingLaws.KeyIdentifiesCorridor | src/multi_asset_routing.rs:194-200 | valid requests with the same corridor key have the same normalized codes |
| CacheGovernance.Store.SetConfig | src/cache_governance.rs:357-380 | a zero quorum or lifetime is refused without change |
| CacheGovernance.Store.Propose | src/cache_governance.rs:504-546 | stores a proposal endorsed by its proposer under the next id, or refuses at the largest id |
| CacheGovernance.Store.Endorse | src/cache_governance.rs:553-588 | refuses unknown, expired, executed and full proposals, ignores duplicates, otherwise appends |
| CacheGovernance.Store.Execute | src/cache_governance.rs:596-620 | refuses unknown, expired, executed and under-endorsed proposals, otherwise marks it and returns its anchor |
| CacheGovernance.ProposalKeysDistinct | src/cache_governance.rs:322-336 | pre-images of distinct proposal keys differ from each other and from the three fixed keys |
| GovernanceRuns.ReachableConsistent | src/cache_governance.rs:504-588 | in every reachable state ids are exactly 0 to count-1 and endorsers are distinct, proposer first, never more than the largest quorum ever in force |
| GovernanceRuns.InForce | src/cache_governance.rs:357-380 | after any run the configuration is that of the latest call with nonzero quorum and lifetime, or quorum 3 and lifetime 17280, and the ledger is the capped sum of the advances |
| GovernanceRuns.CallAnswers | src/cache_governance.rs:357-620 | which result or error each call of a run gets, in the order in which the reasons count |
| GovernanceRuns.ProposalsEvolve | src/cache_governance.rs:504-620 | proposals are never removed or renumbered, their list only grows at the end, and the executed mark is never taken back |
| GovernanceRuns.RejectedCallsLeaveNoTrace | src/cache_governance.rs:357-620 | erasing every rejected call from a run gives a run in which nothing is rejected and which ends in the same state |
| GovernanceRuns.FinalNeverChanges | src/cache_governance.rs:558-565 | an executed or expired proposal never changes again |
| GovernanceRuns.ExecutedAtMostOnce | src/cache_governance.rs:596-620 | no two calls execute the same proposal |
| GovernanceRuns.ExecutionJustified | src/cache_governance.rs:596-620 | a call executes if and only if the proposal exists, is open, and has as many distinct endorsers as the quorum last set; nothing else changes |
| GovernanceRuns.MarkedIffExecuted | src/cache_governance.rs:616-617 | a proposal is marked executed if and only if some earlier call executed it |
| GovernanceRuns.ProposalOrigin | src/cache_governance.rs:504-546 | every stored proposal still carries the anchor and proposer of the call that created it, the ledger then reached and the lifetime then last set |
| GovernanceRuns.EndorsementsWereCast | src/cache_governance.rs:567-588 | a name is on a proposal's list if and only if its own successful call put it there |
| GovernanceRuns.EndorsementsAreVotes | src/cache_governance.rs:553-588 | after any run the list is the proposer followed by each caller who found the proposal open, was not on the list, and found it below the quorum last set, in that order |
| CachePolicy.ClampLandsInBand | src/cache_governance.rs:200-210 | clamping lands in the band, keeps in-band requests, is idempotent, and the midpoint never saturates |
| CachePolicy.ClampMonotone | src/cache_governance.rs:200-210 | a larger nonzero request never clamps lower |
| CachePolicy.ThresholdWithinTtl | src/cache_governance.rs:216-222 | the refresh threshold never exceeds the TTL, even when the product saturates |
| CachePolicy.RefreshPoint | src/cache_governance.rs:216-222 | refresh starts at the rounded-down percentage of the TTL, the product capped at 64 bits |
| CachePolicy.ValidIff | src/cache_governance.rs:160-178 | a policy is valid if and only if its band is not empty and its percentage is 1 to 99 |
| CachePolicy.Reports | src/cache_governance.rs:414-471 | a write reports the clamped TTL and whether its age has reached the refresh point; a read with a zero TTL is refused |
| CachePolicy.AgeingOnlyAdvances | src/cache_governance.rs:440-471 | classification only moves fresh, refresh, expired, and "expired without refresh" is never reported |
| CachePolicy.ClassIntervals | src/cache_governance.rs:440-471 | fresh, refresh and expired are the ages below the threshold, from it to the TTL, and from the TTL on |
| CachePolicy.BrandNewWriteFlaggedIff | src/cache_governance.rs:414-437 | a brand-new write is flagged for refresh if and only if effective TTL times percentage is below 100 |
| CachePolicy.BrandNewWriteCanBeFlagged | src/cache_governance.rs:414-437 | a valid policy exists under which a brand-new write is flagged |
| CachePolicy.DefaultsNeverFlagNewWrites | src/cache_governance.rs:38-60 | under the shipped policies no brand-new write is flagged |
| AdminAudit.AuditStore.WriteEvent | src/admin_audit_log.rs:135-216 | evicts, stores under the counter and advances it, or changes nothing when disabled or rejected |
| AuditRuns.ReadBack | src/admin_audit_log.rs:219-222 | while no reconfiguration asks for less room than is held, reading an id gives what was recorded under it from some first id, within capacity of the newest, up to the newest, and nothing for any other id |
| AdminAudit.AuditStore.SetConfig | src/admin_audit_log.rs:240-250 | a TTL beyond 32 bits is rejected with the old configuration kept |
| AdminAudit.AuditStore.ClearEntries | src/admin_audit_log.rs:259-287 | only the stored admin may clear; the loop removes every id below the counter |
| AuditRuns.EntriesAreHistory | src/admin_audit_log.rs:145-205 | under any capacity changes the counter counts the recorded changes and every stored entry carries its own id and what was written under it |
| AuditRuns.InForce | src/admin_audit_log.rs:240-250 | after any run the configuration is that of the latest call whose TTL fits 32 bits, or the default |
| AuditRuns.StoredAreHeld | src/admin_audit_log.rs:145-205 | the stored ids are exactly those the calls leave: each recorded write adds the next and gives up the one the capacity behind it |
| AuditRuns.CallAnswers | src/admin_audit_log.rs:135-250 | a write fails only at the last id while enabled, a reconfiguration only with a TTL beyond 32 bits |
| AuditRuns.ClearEmpties | src/admin_audit_log.rs:259-287 | a clear by the admin leaves no entry and a zero counter; by anyone else it changes nothing |
| AuditRuns.ContiguousWindow | src/admin_audit_log.rs:161-165 | while no reconfiguration asks for less room than is held, stored ids form one interval ending at the newest, no longer than the capacity |
| AuditRuns.AlwaysIntactIff | src/admin_audit_log.rs:161-165 | at every point of a run the log is one interval within capacity if and only if no accepted reconfiguration asked for less room than was held |
| AuditRuns.GrowingCapacitySuffices | src/admin_audit_log.rs:161-165 | a capacity that is never lowered, zero being unlimited, meets that condition |
| AuditRuns.WriteSlidesWindow | src/admin_audit_log.rs:161-165 | a write to a log that fits drops the oldest id only when the log is full |
| AuditRuns.WriteKeepsWindowIff | src/admin_audit_log.rs:161-165 | a write leaves one interval within capacity if and only if the entries held beforehand fit the capacity |
| AuditRuns.LoweredCapacityLeavesGap | src/admin_audit_log.rs:161-165 | after lowering the capacity to one, a third write leaves exactly ids 0 and 2 |
| AuditRuns.WriteNeverRejectsTtl | src/admin_audit_log.rs:180-186 | the TTL rejection in a write is unreachable |
| Calendar.DaysToYmd | src/env_fingerprint.rs:469-487 | the loops end with a valid date whose closed-form Gregorian day number is the input |
| Calendar.ToCivil | src/env_fingerprint.rs:456-465 | all six fields are in range and recompose to the second count |
| Calendar.CurrentTimestamp | src/env_fingerprint.rs:450-467 | the text shows, at their positions and in digits, year, month, day, hour, minute and second of the valid date and time the count denotes |
| Calendar.EpochIsZero | src/env_fingerprint.rs:469-473 | 1970-01-01 at midnight is second zero |
| Calendar.MonthStep | src/env_fingerprint.rs:479-485 | the closed-form month offsets advance by the month lengths of the table |
| Calendar.YearStep | src/env_fingerprint.rs:489-491 | the closed form with divisions by 4, 100 and 400 grows by exactly the length the leap rule gives |
| Calendar.OrderPreserved | src/env_fingerprint.rs:450-487 | valid dates and times are ordered, and equal, exactly as their second counts |
| Calendar.RenderInjective | src/env_fingerprint.rs:466 | different moments print differently, in any year |
| Signature.VerifyOutboundSignature | src/http_client.rs:518-548 | accepts if and only if the trimmed header is `sha256=`, letters in either case, and 64 hex digits of either case decoding to the HMAC |
| Signature.ReadDigest | src/http_client.rs:534-540 | the loop over digit pairs yields the decoded digest, or nothing when some character is no hex digit |
| Signature.PrintedIsAccepted | src/http_client.rs:260-286 | every printed signature is accepted, with any case of scheme and digits and any surrounding whitespace |
| OutboundHeaders.BuildHeaders | src/http_client.rs:260-320 | the pushes give the list `Outbound`: nothing unless signing key and credentials pass, else idempotency, signature, trace and credential headers in order |
| OutboundHeaders.BuiltList | src/http_client.rs:260-286 | name and value of every header, in order, for every combination of options |
| OutboundHeaders.CredentialVerdict | src/http_client.rs:412-470 | which error credentials get, in the order in which the conditions count |
| OutboundHeaders.RefusedIff | src/http_client.rs:310-319 | building fails if and only if the signing key is only ASCII whitespace or the credentials fail, in this order |
| OutboundHeaders.BuiltSignatureVerifies | src/http_client.rs:274-277 | whenever headers are built under a signing key, one of them is a signature header that verification accepts for that key and body |
| OutboundHeaders.SentCredentialIsClean | src/http_client.rs:412-470 | the last header built is that of the credential, and it has no control character in name or value |
| OutboundHeaders.BuiltCleanIff | src/http_client.rs:255-286 | the built headers are free of control characters if and only if the idempotency key is absent or free of them |
| OutboundHeaders.CredentialsRecovered | src/http_client.rs:390-453 | two credentials that pass validation and print the same header are equal, when the authorization header is protected |
| OutboundHeaders.ParsesIff | src/trace_context.rs:321-366 | a `traceparent` parses if and only if, trimmed, it is version, 32 and 16 lower-case hex digits not all zero, and two flag digits, joined by dashes, the lowest flag bit giving the sampling |
| OutboundHeaders.TraceRoundTrip | src/trace_context.rs:287-366 | every valid trace that is printed parses back, whatever whitespace surrounds it |
| Signature.XorFoldZeroIffEqual | src/http_client.rs:542-547 | the XOR fold is zero if and only if the digests agree |
| Signature.BytesAgree | src/http_client.rs:518-541 | testing bytes, with the character-boundary check, agrees with testing characters, so non-ASCII headers are refused |
| Hex.DecodePrint | src/http_client.rs:483-488 | printed hex decodes to the bytes |
| Hex.PrintDigits | src/http_client.rs:483-488 | each byte is printed as two lower-case digits, the high half first |
| Hex.HexDigitIff | src/http_client.rs:534-540 | the hexadecimal digits are 0 to 9 and a to f, also in upper case where either case is taken |
| Hex.DecodeDigits | src/http_client.rs:534-540 | two digits of either case stand for sixteen times the first plus the second |
| Text.EqIgnoreCaseIff | src/distributed_correlation.rs:258-280 | two names are equal ignoring case if and only if they have one length and at each position the characters are equal or are the two cases of one ASCII letter |
| Text.StrLessIff | src/distributed_correlation.rs:232-238 | key order: a proper prefix first, and otherwise the smaller character at the first difference |
| Text.TrimIs | src/distributed_correlation.rs:271-279 | trimming leaves the one text without outer whitespace that has only whitespace around it |
| Text.WhitespaceIs | src/distributed_correlation.rs:271-279 | whitespace is 25 listed characters |

## Left out

- SHA-256, HMAC-SHA256 and address XDR: statements are about pre-images and an arbitrary 32-byte function; unequal digests are not claimed.
- Soroban storage lifetimes, events, authorization and logging wrappers: only stored keys and values and rejection without change are kept. An entry whose lifetime runs out on the host is not modelled.
- OutboundHeaders.BuildHeaders: error messages are constructors rather than texts; deriving idempotency keys and span ids is a hash prefix.
- Sizes of in-memory collections and buffers are unbounded; only the 32-bit lengths the encoders write are.
- AdminAudit.AuditStore.ClearEntries: the host's check that the caller authorized the call is taken as established.
- CachePolicy: storage of the policy set and the forced-invalidation switch are plain lookups.
- Correlation: `add_correlation_link` and `log_fields`, a membership test and a format string.
- The duplicated audit-log code at the end of `src/alert_dedup.rs`.
- The environment fingerprint identifier, whose pre-image is not injective, and file, process and clock probing.
- reqwest client building, proxies, webhook delivery, config loading, metrics, alert routing, provenance, drift, compliance policy, health scoring: I/O, or lookups and counters that would add only easy members.
