# Commit-Boost in Dafny

A model of the parts of Commit-Boost, a sidecar for Ethereum validators, whose
correctness is not visible from one function: threshold signing with Dirk, the
signer service as a state machine, proxy keys and their persistence, the timing
and the auction of the header proxy, and several transformations that have to
agree with or undo each other.

- `Modular`, `Lagrange`, `Threshold`, `Recovery`, `Dirk`, `DirkAccounts`: arithmetic modulo a
  prime with inverses from Bezout's identity, Lagrange interpolation at zero, the
  aggregation of partial signatures, which quorums recover which polynomials, the
  quorum protocol, account loading, and the two together.
- `Limiter`, `Registry`, `SigningRoot`, `SigningService`: the limiter of failed
  authentications, sequentially and under all interleavings; the module registry
  under revoke, reload and sign; signing roots; and the class `SigningState`,
  which carries its history and whose handlers promise facts about that history.
- `ProxyStore`, `Persistence`, `LocalManager`: the two formats of the proxy store
  over a disk of whole files, crash prefixes and restarts, and the class
  `LocalSigningManager` with its listing of proxies, with and without a store.
- `HeaderTiming`, `Auction`, `GasLimit`, `PbsErrors`, `Retry`, `SubmitBlock`: the
  request schedule of a timing game, header validation and the auction, gas limits
  along chains, the retry loops, and the submission fan-out over them.
- `JwtText`, `Paging`: the `CB_JWTS` text, paged key loading, removal of
  duplicates, and the disjointness of muxes.

Modelling decisions:

- A point of the signature group is its exponent modulo the group order, which is
  any prime above 2^32; interpolation itself is proved, not assumed.
- Hashing is free of collisions by construction: a root is a word or a pair of roots.
- An unordered map or an order of completion is an arbitrary choice, so results
  hold for every order. Clocks, network replies and failures are parameters.
- A critical section is one atomic step. A reload whose two sections are
  interrupted is the pair of events `Reload` and `SetAdmin`.

Where the code and its comments or the obvious intention differ, the model
follows the code, and a lemma says exactly when they agree:

- A participant identifier is compared with zero before it is truncated to 32
  bits (dirk.rs:642 and 652). `DirkAccounts.ZeroParticipantIff` says when identifier zero
  gets in, `Threshold.ZeroIdDecidesAlone` and `Recovery.ZeroFilingIff` what it does,
  and `Threshold.TruncationHarmlessIff`, `Recovery.TruncatedQuorumIff` and
  `Recovery.MomentsIff` when truncation can be tolerated. A participant always
  signs with its real identifier, wherever it is filed.
- A signing threshold is never checked. `Dirk.ProtocolSignsIff` says, for every
  threshold, zero included, and for every filing of the participants, which sharing
  polynomials it serves; `Dirk.ThresholdSufficesIff` does for identifiers that are
  not truncated, where only sizes matter.
- A failure limit of zero is documented to switch the limiter off; it blocks a
  peer after its first failure (`Limiter.ZeroLimitBlocks`, `Limiter.ZeroLimitIff`).
- A reload that fails while starting the manager has already replaced the secrets
  (`Registry.RefusedReloadApplied`, `Registry.RefusedReloadIff`).
- The retry loops are documented to go on until the timeout has passed. They measure
  elapsed time per attempt: `Retry.TimeSpentIff` says, for every environment, how
  much time a run that gives up has taken, and `Retry.LoopOutlastsTimeoutIff` and
  `Retry.CountEndsEarly` show both ways of missing the timeout.
- Delegations are signed in the same domain as commitments, without a signing id. A
  signing id is any 32 bytes of the module author's choice other than zero.
  `SigningRoot.ModuleRootIsDelegationIff` and `Registry.DelegationReachableIff` say
  exactly when a module's commitment is also a delegation: when its signing id is
  the root of a proxy's key, be it a BLS key or a padded address.
- A file of the proxy store is created before it is filled. `Persistence.TornWriteIff`
  says when a creation that stops in between is harmless.
- The text printed for secrets is read back unchanged only without separators and
  outer white space (`JwtText.RoundTripIff`).

## Model

| member | source | states |
|---|---|---|
| `Lagrange.DenominatorNonzero` | crates/signer/src/manager/dirk.rs:701-714 | no Lagrange denominator vanishes for distinct identifiers below the group order, so inversion never fails |
| `Lagrange.CoefficientsSumToOne` | crates/signer/src/manager/dirk.rs:698-714 | the coefficients of every nonempty quorum add up to one |
| `Lagrange.InterpolatePolynomial` | crates/signer/src/manager/dirk.rs:696-716 | interpolating the values of any polynomial with at most as many coefficients as identifiers gives its value at zero |
| `Threshold.LagrangeFraction` | crates/signer/src/manager/dirk.rs:700-707 | the inner loop computes both products over the other identifiers, in any iteration order |
| `Threshold.DeserializeShares` | crates/signer/src/manager/dirk.rs:684-694 | decoding fails exactly if some partial does not decode; a repeated identifier overwrites |
| `Threshold.AddWeightedShare` | crates/signer/src/manager/dirk.rs:698-716 | one round of the outer loop adds exactly the share's interpolation term |
| `Threshold.RecoverPoint` | crates/signer/src/manager/dirk.rs:696-717 | the nested loops over an unordered map compute one order-free interpolation and never fail |
| `Threshold.AggregatePartialSignatures` | crates/signer/src/manager/dirk.rs:683-721 | succeeds exactly if all partials decode, with the interpolation of the share map |
| `Threshold.LastShareCounts` | crates/signer/src/manager/dirk.rs:685-694 | of several partials with one identifier the last counts |
| `Threshold.ArrivalOrderIrrelevant` | crates/signer/src/manager/dirk.rs:685-694 | permuted partials with distinct identifiers give the same share map |
| `Threshold.QuorumRecoversMaster` | crates/signer/src/manager/dirk.rs:683-721 | any quorum at least as large as the sharing polynomial aggregates to the master key's own signature |
| `Threshold.CoefficientNonzeroIff` | crates/signer/src/manager/dirk.rs:701-714 | a participant's coefficient vanishes exactly if another participant has identifier zero |
| `Threshold.WrongShareIff` | crates/signer/src/manager/dirk.rs:683-721 | replacing a share keeps the result exactly if it is the same point |
| `Threshold.TruncatedIdIff` | crates/signer/src/manager/dirk.rs:652-652 | for one polynomial and message, a share filed under a truncated identifier still recovers the master signature exactly if both identifiers have the same share |
| `Threshold.WideIdBreaks` | crates/signer/src/manager/dirk.rs:652-652 | a concrete polynomial and message for which every wide identifier loses the master signature |
| `Threshold.TruncationHarmlessIff` | crates/signer/src/manager/dirk.rs:642-668 | truncating one identifier is harmless for all polynomials and messages exactly if it fits 32 bits or the quorum has one member |
| `Recovery.RecoversEveryIff` | crates/signer/src/manager/dirk.rs:683-721 | a quorum of nonzero identifiers that are not truncated recovers every polynomial of at most d coefficients exactly if it has d members |
| `Recovery.OneTooMany` | crates/signer/src/manager/dirk.rs:683-721 | for every quorum a concrete polynomial with one coefficient more than it has members, which it gets wrong |
| `Recovery.TruncatedQuorumIff` | crates/signer/src/manager/dirk.rs:642-668 | whatever identifiers are truncated, the quorum recovers all polynomials of its size exactly if each weight computed from the filed identifiers is that of the real ones |
| `Recovery.MomentsIff` | crates/signer/src/manager/dirk.rs:642-721 | whatever identifiers are truncated and for every d, the quorum recovers all polynomials of at most d coefficients exactly if the filed weights get the first d powers of the real identifiers right |
| `Recovery.ZeroFilingIff` | crates/signer/src/manager/dirk.rs:642-721 | a quorum with a participant filed under zero, whose real identifier is not zero, recovers constant polynomials only |
| `Threshold.SingleShare` | crates/signer/src/manager/dirk.rs:698-716 | a quorum of one aggregates to its own share |
| `Threshold.ZeroIdDecidesAlone` | crates/signer/src/manager/dirk.rs:698-716 | with a participant at identifier zero the result is that participant's share alone |
| `Dirk.RequestDistributedSignature` | crates/signer/src/manager/dirk.rs:270-342 | the collection loop stops with the first threshold partials to arrive, or fails with too few or an undecodable one |
| `Dirk.SuccessesCount` | crates/signer/src/manager/dirk.rs:304-333 | the loop sees as many partials as there are signed replies |
| `Dirk.OutcomeIff` | crates/signer/src/manager/dirk.rs:270-342 | a signature exactly if threshold participants sign and all collected partials decode; it is the interpolation of exactly the earliest signed replies, max(threshold, 1) at most, of different participants of the account; too few exactly if fewer sign |
| `Dirk.ProtocolReturnsMasterIff` | crates/signer/src/manager/dirk.rs:270-342 | under every arrival order and failure pattern: the master signature if threshold participants sign, else an error |
| `Dirk.ZeroThresholdSignsNothing` | crates/signer/src/manager/dirk.rs:330-341 | with threshold zero and no success the identity point is returned as a signature |
| `Dirk.ZeroThresholdTakesFirst` | crates/signer/src/manager/dirk.rs:326-341 | with threshold zero the first success alone is returned as the signature |
| `Dirk.ProtocolSignsIff` | crates/signer/src/manager/dirk.rs:270-342 | for every filing of honest participants, threshold, pattern of arrivals and failures, and d: every polynomial of at most d coefficients is signed for exactly if threshold participants succeed and the weights of the quorum get the first d powers of the real identifiers right |
| `Dirk.QuorumWeightsIff` | crates/signer/src/manager/dirk.rs:270-342 | for d the size of the quorum: exactly if threshold participants succeed and each member of the quorum has the weight of its real identifier |
| `Dirk.ThresholdSufficesIff` | crates/signer/src/manager/dirk.rs:270-342 | with nonzero identifiers that are not truncated: exactly if threshold participants succeed and at least d partials, max(threshold, 1) at most, are collected |
| `DirkAccounts.FindParticipantIff` | crates/signer/src/manager/dirk.rs:635-640 | the participant found is the first entry with the host's name, and there is one exactly if some entry has it |
| `DirkAccounts.AddParticipant` | crates/signer/src/manager/dirk.rs:650-676 | one listing files its channel under the truncated identifier in its account only, keeps a known threshold or sets a first one, and fails exactly on a simple account |
| `DirkAccounts.LoadDistributedAccounts` | crates/signer/src/manager/dirk.rs:612-680 | exactly the listings before the first one for a simple account are read; each account gains exactly the identifiers whose entries have the host's name, truncated, over the host's channel, and keeps its threshold or gets that of the first such listing |
| `DirkAccounts.JoinedSpec` | crates/signer/src/manager/dirk.rs:624-676 | an account gains exactly the listed identifiers, each over the host's channel, and keeps its threshold or gets the first listed |
| `DirkAccounts.LoadSimpleAccounts` | crates/signer/src/manager/dirk.rs:579-609 | simple accounts replace whatever had their key, and nothing else changes |
| `DirkAccounts.LoadHosts` | crates/signer/src/manager/dirk.rs:96-149 | a key that some host lists as simple is a simple account; any other has, entry by entry, exactly the participants named for it in the listings that are read, each at the last host to name it, and the threshold of the first such listing; all is read if no key is listed as both |
| `DirkAccounts.LoadAndSign` | crates/signer/src/manager/dirk.rs:96-342 | loading then signing: with honest hosts and 32-bit identifiers, the master signature exactly if as many sign as the first listing of the account asks for |
| `DirkAccounts.ZeroParticipantIff` | crates/signer/src/manager/dirk.rs:642-655 | an account gets a participant zero exactly if some host lists a nonzero multiple of 2^32 for it |
| `Limiter.StreakIsLongest` | crates/signer/src/service.rs:185-216 | the streak is the longest suffix of failures with all gaps within the timeout |
| `Limiter.RunTracks` | crates/signer/src/service.rs:153-216 | over every run the stored entry is the current streak and last failure of the peer, or the history is expired |
| `Limiter.LimiterRefinesHistory` | crates/signer/src/service.rs:153-216 | with the history defined from the requests alone: limited exactly if the peer's streak has reached the limit and its last failure is recent, otherwise accepted exactly if authorized; the stored count is the streak |
| `Limiter.HandleCounts` | crates/signer/src/service.rs:170-177 | an unauthorized request adds one to the failures that still count; any other raises nobody's count |
| `Limiter.LimitedRequestsDoNotExtend` | crates/signer/src/service.rs:185-216 | while a block lasts all requests of the peer are limited and none extends it |
| `Limiter.BlockEnds` | crates/signer/src/service.rs:190-198 | after the timeout the next request is judged by its token alone |
| `Limiter.ZeroLimitBlocks` | crates/signer/src/service.rs:200-213 | limit zero blocks after one failure, unlike its documentation |
| `Limiter.ZeroLimitIff` | crates/signer/src/service.rs:185-216 | over every run with limit zero, a peer is limited exactly while its last failure is recent |
| `Limiter.ConcurrentBound` | crates/signer/src/service.rs:153-216 | over all interleavings of the two critical sections, recorded plus in-flight failures stay within limit - 1 + N |
| `Limiter.ConcurrentBoundIsReached` | crates/signer/src/service.rs:153-216 | some interleaving reaches that bound |
| `SigningRoot.RootsAgree` | crates/common/src/signature.rs:20-59 | the BLS, ECDSA, Dirk and verifier computations give one root, the hash of message and signing id with the word of mask and hashed fork version |
| `SigningRoot.ModuleRootsSeparate` | crates/common/src/signature.rs:42-153 | a module's root passes a verification exactly if fork version, data and signing id agree |
| `SigningRoot.CommitNeverBuilder` | crates/common/src/signature.rs:20-59 | no commitment or delegation root is a builder root, for the built-in builder domains and computed ones, on any two chains |
| `SigningRoot.DelegationsSeparate` | crates/common/src/commit/request.rs:33-68 | a delegation root fixes delegator and proxy |
| `SigningRoot.ModuleRootIsDelegationIff` | crates/common/src/commit/request.rs:57-68 | a module root is a delegation root exactly if the data is the delegator's root and the signing id is the root of the proxy's key |
| `Registry.CheckModule` | crates/common/src/config/signer.rs:293-322 | a module is refused exactly if it is incomplete or shares its id, secret or signing id |
| `Registry.NoClashIff` | crates/common/src/config/signer.rs:286-322 | missing the three sets of seen values is the same as sharing nothing with any earlier module |
| `Registry.LoadModuleSigningConfigs` | crates/common/src/config/signer.rs:280-331 | loading succeeds exactly on complete modules without shared ids, secrets or signing ids, and yields exactly these modules |
| `Registry.LoadedRegistryIsUnique` | crates/common/src/config/signer.rs:280-331 | a loaded registry has nonzero, pairwise different signing ids |
| `Registry.SigningIdsNeverChange` | crates/signer/src/service.rs:420-467 | over every run signing ids stay nonzero, distinct and equal to the initial ones |
| `Registry.RemovedStaysOut` | crates/signer/src/service.rs:219-306 | a module that has left never returns, authenticates or gets a signature |
| `Registry.RegisteredIff` | crates/signer/src/service.rs:420-467 | over every run a module is registered exactly if it has been all along |
| `Registry.InterruptedReload` | crates/signer/src/service.rs:419-443 | requests between the two critical sections of a reload get the answers, and the registry ends, as without the interruption |
| `Registry.ReloadOutcome` | crates/signer/src/service.rs:404-456 | done exactly if the config loads, all named modules are registered and the manager starts; what is carried is in place and what is left out is as before whenever the first two hold, else nothing changes |
| `Registry.ReloadOnRun` | crates/signer/src/service.rs:404-456 | the same at every point of every run |
| `Registry.RefusedReloadIff` | crates/signer/src/service.rs:404-456 | a refused reload has changed nothing exactly if the config did not load, it named an unknown module, or it brought nothing new |
| `Registry.RefusedReloadApplied` | crates/signer/src/service.rs:445-451 | a concrete refused reload that has replaced a secret |
| `Registry.NoSharedSignature` | crates/signer/src/service.rs:296-306 | over every run two modules never get a signature over the same root |
| `Registry.DelegationNeedsProxyId` | crates/signer/src/service.rs:296-306 | a module whose signature on some run is one for a delegation has the root of the proxy's key as signing id and asked for the delegator's root |
| `Registry.ProxyIdGivesDelegation` | crates/signer/src/service.rs:296-306 | a registered module with such a signing id gets any key's delegation to that proxy by one request |
| `Registry.DelegationWitnesses` | crates/signer/src/service.rs:296-306 | concrete registries and runs that give a delegation to a BLS key and to an address |
| `Registry.DelegationReachableIff` | crates/signer/src/service.rs:296-306 | some run gives a module a delegation exactly if the signing id of a registered module has the shape of a proxy's root |
| `SigningService.SigningState.Start` | crates/signer/src/service.rs:78-98 | the service starts exactly on an acceptable configuration with at least one module, if its manager starts, with these modules, the given chain, settings and admin secret, and no failures |
| `SigningService.SigningState.CheckJwtRateLimit` | crates/signer/src/service.rs:185-216 | the first critical section passes a request exactly if its peer is not blocked by its failure history (requests one at a time), and under any interleaving keeps failures within limit - 1 + the most in flight |
| `SigningService.SigningState.RecordFailure` | crates/signer/src/service.rs:170-177 | the second critical section records one failure and keeps the same bound under any interleaving |
| `SigningService.SigningState.JwtAuth` | crates/signer/src/service.rs:153-182 | limited exactly if the history blocks the peer; otherwise accepted exactly if the token is signed with the present secret of a module registered all along; an unauthorized request adds one failure |
| `SigningService.SigningState.CheckJwtAuth` | crates/signer/src/service.rs:219-243 | a token is accepted exactly if its module has been registered all along and the secret that the history left it with signed it |
| `SigningService.SigningState.HandleRequestSignature` | crates/signer/src/service.rs:296-306 | signs exactly for a module registered all along; the root verifies exactly for its fork version, message and the signing id it started with, and differs from every root signed for another module before |
| `SigningService.SigningState.HandleRevokeModule` | crates/signer/src/service.rs:458-467 | succeeds exactly for a module registered all along, which has then left; all others stay |
| `SigningService.SigningState.NewConfigs` | crates/signer/src/service.rs:420-438 | the loop succeeds exactly on known modules, which get the new secret and keep their signing id |
| `SigningService.SigningState.HandleReload` | crates/signer/src/service.rs:404-456 | done exactly if the config loads, every named module has been registered all along and the manager starts; when the first two hold the request is in place and what it leaves out is as before, else nothing changes; signing ids stay the initial ones |
| `ProxyStore.LoadAtIff` | crates/common/src/signer/store.rs:272-416 | a plain file loads to what it says; a keystore exactly if its password file opens it, with the signature next to it; it is skipped exactly if it opens and has no signature |
| `ProxyStore.LoadIndexFile` | crates/common/src/signer/store.rs:272-416 | one file of any tree fails, is skipped, or adds its key once |
| `ProxyStore.LoadProxies` | crates/common/src/signer/store.rs:183-418 | fails exactly if the store's directory does not exist or on a file that does not load; any tree that loads yields each key of a module once per file that loads to it, with a signer from such a file; a coherent tree exactly its signers |
| `ProxyStore.ReadingOrderIrrelevant` | crates/common/src/signer/store.rs:183-418 | any tree gives the same key multisets and signer keys in every directory order |
| `Persistence.LoadIsDetermined` | crates/common/src/signer/store.rs:183-418 | all loads of one tree have the same signers, delegations and key multisets |
| `Persistence.NewIndexFile` | crates/common/src/signer/store.rs:421-497 | before the last file of a write no new proxy is visible; with it the new proxy loads as it was created |
| `Persistence.WritePrefix` | crates/common/src/signer/store.rs:81-153 | at every prefix of a write the tree loads to the old proxies, or to the old ones plus the new |
| `Persistence.TornWriteIff` | crates/common/src/signer/store.rs:421-497 | a write that stops after creating a file and before filling it leaves the old proxies loadable if that is not the last file, and makes every later load fail if it is |
| `Persistence.StepKeepsSound` | crates/signer/src/manager/local.rs:36-90 | creation, interrupted write (not tearing the last file) and restart keep memory and disk in agreement, and memory without a store something a disk could hold |
| `Persistence.RunKeepsSound` | crates/signer/src/manager/local.rs:36-128 | so does every run |
| `Persistence.RestartRestoresMemory` | crates/signer/src/manager/local.rs:36-54 | after every run from an empty store a restart restores what is in memory |
| `Persistence.DelegationsStayValid` | crates/signer/src/manager/local.rs:92-128 | over every run and after every restart, in either format or without a store, every signer has a delegation to its own key, signed by its delegator's secret |
| `LocalManager.LocalSigningManager.Open` | crates/signer/src/manager/local.rs:36-54 | fails exactly if the store's directory does not exist or on a file that does not load; over a coherent tree memory agrees with it, without a store it is empty |
| `LocalManager.ListableIff` | crates/signer/src/manager/local.rs:233-264 | a module can be listed exactly if all its delegators are known |
| `LocalManager.LocalSigningManager.AddConsensusSigner` | crates/signer/src/manager/local.rs:56-58 | makes a module listable exactly if all its delegators are then known |
| `LocalManager.LocalSigningManager.CreateProxy` | crates/signer/src/manager/local.rs:60-128 | fails without change for an unknown delegator; the delegation is of the delegator to the new key, signed by the delegator's secret over exactly these; memory changes only after all files are written; a fresh key keeps memory and disk in agreement, unless the last file is torn, and all modules listable |
| `LocalManager.FindDelegator` | crates/signer/src/manager/local.rs:246-261 | finds the delegator's entry exactly if key and delegator are known |
| `LocalManager.Distribute` | crates/signer/src/manager/local.rs:245-261 | a listing loop appends each key to its delegator's entry and touches nothing else, or fails exactly on an unresolvable key |
| `LocalManager.LocalSigningManager.GetConsensusProxyMaps` | crates/signer/src/manager/local.rs:233-264 | succeeds exactly if all keys of the module resolve, listing each consensus key once and each proxy of the module once, under its delegator |
| `LocalManager.ListingIsPartition` | crates/signer/src/manager/local.rs:233-264 | a listing mentions exactly the module's keys, with multiplicity |
| `LocalManager.ListedOnce` | crates/signer/src/manager/local.rs:233-264 | a listing mentions each key of the module once and no other module's key |
| `LocalManager.ListingNeverFails` | crates/signer/src/manager/local.rs:92-128 | over every run with loaded delegators, with or without a store, all modules stay listable |
| `LocalManager.EveryRunListsOnce` | crates/signer/src/manager/local.rs:92-128 | in every state reached from an empty start, with or without a store, every module is listable with each proxy exactly once |
| `LocalManager.ListingsAgree` | crates/signer/src/manager/dirk.rs:171-193 | the local listing and the Dirk comprehension list the same proxies |
| `HeaderTiming.SendRepeated` | crates/pbs/src/mev_boost/get_header.rs:186-219 | max(1, ceil(T/f)) requests, evenly spaced, each with what is left |
| `HeaderTiming.SendTimed` | crates/pbs/src/mev_boost/get_header.rs:160-222 | the requests form the specified schedule |
| `HeaderTiming.MaxTimeoutIsLongest` | crates/pbs/src/mev_boost/get_header.rs:71-83 | the budget is the longest time within the timeout that ends by the late-in-slot limit |
| `HeaderTiming.ScheduleTimes` | crates/pbs/src/mev_boost/get_header.rs:171-219 | the first request goes out at the later of target and now; another follows exactly while more than one period is left |
| `HeaderTiming.CommonDeadline` | crates/pbs/src/mev_boost/get_header.rs:71-83 | all requests share one deadline not past the late-in-slot limit, or there is a single one without time |
| `GasLimit.GasLimitIff` | crates/pbs/src/utils.rs:6-21 | accepted exactly if at least 5000 and less than a whole 1024th of the parent's limit away from it |
| `GasLimit.GasLimitAlongChain` | crates/pbs/src/utils.rs:6-21 | along n accepted headers the number grows by n, limits stay above the minimum and drift by less than 1/1024 per block |
| `Auction.AcceptedIff` | crates/pbs/src/mev_boost/get_header.rs:369-411 | an answered header is passed on, unchanged, exactly if it meets all conditions |
| `Auction.RelayHeader` | crates/pbs/src/mev_boost/get_header.rs:224-262 | a relay's pick is the header of its latest-started successful request |
| `Auction.PickIsUnique` | crates/pbs/src/mev_boost/get_header.rs:224-262 | a relay has exactly one pick |
| `Auction.PickIsAcceptable` | crates/pbs/src/mev_boost/get_header.rs:369-457 | a pick has passed the hash, parent, transactions, bid, timestamp, signature and extra checks |
| `Auction.BestBid` | crates/pbs/src/mev_boost/get_header.rs:110-132 | the greatest bid, the last among equals |
| `Auction.GetHeader` | crates/pbs/src/mev_boost/get_header.rs:47-132 | a bid is returned exactly if the slot is not late and some relay yields a header; it is a greatest pick |
| `Retry.SubmitWithTimeout` | crates/pbs/src/mev_boost/submit_block.rs:61-105 | the loop terminates, performs a run of the specified form, and returns its last result |
| `Retry.RegisterWithTimeout` | crates/pbs/src/mev_boost/register_validator.rs:84-133 | the same with a retry limit |
| `Retry.RetryableIff` | crates/common/src/pbs/error.rs:39-52 | exactly timeouts, failed connections and statuses 500 to 508 are retried |
| `Retry.RetryBounds` | crates/pbs/src/mev_boost/submit_block.rs:69-104 | attempts, request timeouts and total backoff of every run are bounded |
| `Retry.TimeSpentIff` | crates/pbs/src/mev_boost/submit_block.rs:59-104 | in every environment a run that gives up has used up its attempts or spent at least its timeout, exactly that if and only if one attempt filled it |
| `Retry.TimeSpentAtMost` | crates/pbs/src/mev_boost/submit_block.rs:69-104 | with requests that keep their timeouts and exact sleeps, a run takes at most one timeout per attempt and 250 ms more |
| `Retry.EarlyOnlyByCount` | crates/pbs/src/mev_boost/register_validator.rs:92-132 | a registration that gives up before its timeout has made exactly as many attempts as allowed |
| `Retry.LoopOutlastsTimeoutIff` | crates/pbs/src/mev_boost/submit_block.rs:69-104 | a relay that refuses at once reaches the bound on attempts, and the loop outlasts its timeout unless that is 250 ms |
| `Retry.CountEndsEarly` | crates/pbs/src/mev_boost/register_validator.rs:110-118 | with one attempt allowed, registration gives up with all its time left |
| `SubmitBlock.ValidateUnblindedBlock` | crates/pbs/src/mev_boost/submit_block.rs:204-235 | accepts exactly equally many blobs, commitments and proofs with equal commitments; with equal counts a refusal names the first mismatch |
| `SubmitBlock.SendSubmitBlock` | crates/pbs/src/mev_boost/submit_block.rs:109-202 | one request succeeds exactly on a matching payload, or in version 2 on any success status, and then without payload |
| `SubmitBlock.SubmitToRelay` | crates/pbs/src/mev_boost/submit_block.rs:61-105 | a relay's task succeeds exactly if some attempt does before which all replies were retried ones with time left after their sleep, with what that attempt brought |
| `SubmitBlock.SubmitToAll` | crates/pbs/src/mev_boost/submit_block.rs:29-57 | for every completion order the first relay whose retries end in a success wins; an error means that every relay's task failed |
| `JwtText.TrimFirstIrrelevant` | crates/common/src/config/utils.rs:78-90 | trimming the whole text first changes nothing |
| `JwtText.DecodePrinted` | crates/common/src/config/utils.rs:78-90 | what the decoder makes of every printed list without separators in it |
| `JwtText.TrimIs` | crates/common/src/config/utils.rs:78-90 | trimming takes away exactly the white space at both ends |
| `JwtText.JoinSplit` | crates/common/src/config/utils.rs:78-90 | splitting loses nothing and leaves no separator |
| `JwtText.DecodeIff` | crates/common/src/config/utils.rs:78-90 | any text decodes exactly if each piece is a pair, further parts ignored, to the map in which the last pair with a key counts |
| `JwtText.RoundTripIff` | crates/cli/src/docker_init.rs:687-689 | printing then decoding returns the map exactly if it is nonempty and its entries are clean |
| `Paging.InARowInjective` | crates/common/src/config/mux.rs:312-322 | bytes are those of one list of 48-byte keys only |
| `Paging.SplitKeys` | crates/common/src/config/mux.rs:312-322 | bytes split into keys exactly if their number is a multiple of 48, and the keys in a row are the bytes |
| `Paging.FetchLidoKeys` | crates/common/src/config/mux.rs:271-333 | whatever is answered, a result has the announced length; from a registry that serves a list it is the list, in ceil(n/250) calls |
| `Paging.FetchSsvKeys` | crates/common/src/config/mux.rs:335-374 | the loop ends at the first short page; from an API that pages through a list the result is the list, in n/100 + 1 calls |
| `Paging.PageJoins` | crates/common/src/config/mux.rs:349-371 | a full page extends the loaded prefix, a short one completes the list |
| `Paging.RemoveDuplicateKeys` | crates/common/src/config/utils.rs:65-76 | the loop keeps the first occurrences |
| `Paging.FirstOccurrencesSpec` | crates/common/src/config/utils.rs:65-76 | these are distinct, in order, at first positions, and have the same members |
| `Paging.ValidateAndFill` | crates/common/src/config/mux.rs:43-112 | fails exactly on a mux without relays or keys, a failing loader, a key listed twice, or relay clients or a configuration that do not validate |
| `Paging.LookupFindsTheMux` | crates/common/src/config/mux.rs:91-112 | each key that a mux lists itself or its loader brings is looked up to that mux |
| `Paging.OnlyListedKeys` | crates/common/src/config/mux.rs:91-112 | the lookup knows exactly these keys |

## Left out

- HTTP, gRPC and TLS transport, routing, metrics, logging and event publishing.
- Curve arithmetic, SHA-256, AES and the keystore format: exponents, pairs and an abstract keystore stand for them. That the order of the BLS12-381 group is prime and above 2^32 is a precondition, since only these two facts are used.
- Which key signs: a module's signature is known by the root it is over, not by the consensus or proxy key.
- Overflow of 32-bit and 64-bit integers, other than the truncation of participant identifiers: failure counts, timestamps and the sum in `check_gas_limit` are unbounded.
- File paths as text: a path is its components, so a module id that is not a plain directory name is not covered, nor are files that are neither of the store's formats. A file that is only partly filled counts as unreadable.
- The shared manager after a reload: the handler assigns it on its own copy of the state, so nothing is claimed about it.
- The distinctness of secrets after a reload, which the handler does not establish.
- Which account names are those of proxies (`name_matches_proxy`): a listing says whether its name is one.
- Proxy generation with Dirk and its delegation store.
- Sleeps that last longer than asked, in the request schedule; the retry loops allow for them. No sleep is shorter than asked.
- A request frequency of zero, for which the sending loop does not end on a positive budget, is excluded by a precondition.
- SubmitBlock.SubmitToAll: at least one relay is required, since the selection among no tasks panics.
- Paging.FetchSsvKeys: requires some page that ends the loop, since the code does not bound the number of pages.
- How relay clients are made, configurations are validated and files or HTTP key lists are loaded; only whether they succeed is modelled. Chains without a registry.
- The fan-out of `register_validator` and its batches, including its first-result mode.
- Bounded reading of response bodies, slot times, key loaders for validator clients, and the rest of the command line tool.
