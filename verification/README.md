# VibeShield: verified model of the audit log, rate limiter, egress proxy, escrow engine and seccomp generator

VibeShield runs untrusted agents in containers.  Five of its components keep state whose correctness spans many
calls, and this project models them in Dafny and proves what they promise.  `dafny verify dfyconfig.toml` checks
everything.

| component | specification functions and theorems | objects |
|---|---|---|
| audit log (`core/security/audit.py`) | `AuditChain`, `MerkleTree`, `MerkleBinding`, `AuditQuery`, `AuditAnswers`, `AuditTransfer`, `AuditWitness` | `Audit` |
| rate limiter (`core/security/ratelimit.py`) | `TokenBuckets`, `LimiterStore`, `LimiterAnswers`, `LimiterBounds`, `LimiterRefusals`, `SlidingWindow` | `TokenBuckets`, `SlidingWindow`, `RateLimiter` |
| egress proxy (`core/security/egress.py`) | `EgressPolicy`, `EgressAccess` | `Egress` |
| escrow and reputation (`core/layer3_escrow.py`) | `Reputation`, `ReputationReports`, `EscrowRules`, `EscrowAnswers` | `Reputation`, `Escrow` |
| seccomp profiles (`core/security/seccomp.py`) | `SeccompRules`, `SeccompPromises` | `Seccomp` |

`Prelude`, `Rounding` and `RealFacts` hold shared datatypes and arithmetic.

The source's classes are classes here, its dictionaries of mutable objects are maps to objects, and its loops are
loops.  Each method is proved to compute a function of the old state; theorems are lemmas about those functions, over
every input and every run.

## Assumptions

* **Hash.** SHA-256 is a function from text to 64 hexadecimal digits, and the canonical JSON text of the hashed fields
  is injective and begins with `{`.  Both arrive in a `Scheme`, and nothing else is assumed of them.
  `AuditWitness.CollisionFreeLogExists` shows that the assumptions can be met, together with the absence of collisions.
* **Details.** Reading details back from a file can change their canonical text: keys that are numbers are hashed in
  numeric order and read back as strings, in another order.  The change is an arbitrary function in the `Scheme`.
  `record` keeps the caller's dictionary itself (`core/security/audit.py:162`); the caller is assumed not to change it
  afterwards, which would break the chain.
* **Strings.** No text holds a surrogate pair as two separate code points: JSON writes it like the one character it
  stands for, and the canonical text would not be injective.
* **Collisions.** Every fixed-width hash has collisions somewhere, so "or a collision exists" would be an empty escape.
  Each binding theorem therefore names the finite set of texts that the two logs actually make a verifier hash, and says
  that the logs are equal or that two different texts *in that set* share a digest.
* **Times.** Timestamps that are hashed or compared in the audit log are integers (finite doubles embed in them with
  their order and their zero).  Clocks and scores elsewhere are reals.  A call takes one clock reading, given as a
  parameter, and theorems about runs assume a clock that does not go back.
* **Identifiers.** A new bounty's identifier is fresh; distinct (scope, identifier) pairs have distinct bucket keys.
* **Libraries.** Lower-casing, `fnmatch` and the conditions of base seccomp rules are arbitrary functions.

## Main results

* The Merkle root of a valid log determines the log, across lengths (`RootBindsLog`).  It needs the chain: for arbitrary
  leaves the duplicate-last tree is ambiguous (`RepeatedLastLeaf`), but the links make entry hashes distinct.
* Inclusion proofs are complete, of length ceil(log2 n), and sound: the true proof is the only one of its length that
  folds to the root at its position, and a verifier who knows the root alone cannot be shown an entry that is not there.
* The last hash commits to the whole history; removing a block goes unnoticed exactly when the block is a tail,
  and replacing or adding an entry exactly when it ends up last and properly sealed.
* Importing never damages a log, and over every run incremental export and import undo each other, up to the first
  entry whose details are oversized or change when read back.
* The query scan with early exits is filter, order, drop, take exactly when no entry that ends the scan comes before a
  match; and a log answers all queries exactly when its clock was never set back.  Pages fit together even then.
  What is recorded is found exactly by the queries that its own fields satisfy.
* Evicting stale buckets is unobservable exactly when each scope's rate times 300 seconds reaches its burst.  The tokens
  spent at a key over any stretch of any run, and so the grants that paid there, are bounded by the burst, once more for
  each reset of the key, plus the rate times the time; an evicting limiter keeps this exactly when the key's bucket is
  full before it goes stale.
* `check_all` allows exactly when the agent's, the address's and the global key, as far as asked, have a token, and takes
  one from each that has; a request changes no later answer exactly when none of the keys it asks allows it.
* Default deny: after any calls to the egress proxy exactly the hosts that are listed, or match a listed wildcard, get
  past the domain check, and the last listing decides them.
* Pruning the egress history and pruning the sliding window lose nothing that a later decision needs.
* Hardening a seccomp profile overrides the base pointwise, and a profile from scratch denies by default, after any
  sequence of calls; the last block of a name counts.
* Every run of the escrow engine keeps its bounties and counters consistent, and each agent's history is exactly the
  settlements credited to it.  The reported score is the weighted average to the nearest ten-thousandth.
* An agent holds one active bounty at most exactly as long as no call gives it a second, and a bounty is credited once at
  most exactly as long as its client does not settle it again.  The code prevents neither.

## Where the code differs from its documentation

The model follows the code.

* `core/security/audit.py:5` says that modifying, adding or removing any entry breaks the chain.  Removing a tail, or
  replacing or adding the last entry by a sealed one, does not (`AuditChain.RemovalUnnoticedIffTail`,
  `AuditChain.ReplacementUnnoticedIff`, `AuditChain.InsertionUnnoticedIff`).  Line 10 gives the first link as "GENESIS"; the
  code repeats it four times.
* `core/security/audit.py:333` documents two sort orders.  Any other string scans backwards and stops at the first match
  newer than `until` (`AuditQuery.OtherOrderMeaning`).  If the clock was set back, the early exits can hide a match
  (`AuditQuery.ClockSetBackHidesEntry`); `AuditQuery.ExactIffNothingHidden` and `AuditQuery.AnswersEverythingIffOrdered`
  say exactly when.
* A whole-log export to the incremental file leaves its tracker behind (`AuditTransfer.WholeExportBreaksStaleTracker`).
  An entry whose details change when read back is exported and cannot be imported (`AuditTransfer.ExportImportRoundTrip`).
* `core/security/ratelimit.py:109` calls `retry_after` the seconds to wait.  Rounded to hundredths it can be too short
  (`TokenBuckets.ReportedRetryMayBeTooShort`, `TokenBuckets.ReportedRetryEnoughIff`).
* `core/security/ratelimit.py:188` asks all keys even when one refuses, so a refused request can still spend tokens
  (`LimiterRefusals.RefusedButNoticed`).  Evictions (line 167) can let a key exceed its rate (`LimiterBounds.RateExceeded`),
  as resets always can (`LimiterBounds.ResetsReachTheBound`).
* `core/security/egress.py:48` names the limit requests per minute.  A request counts itself, and one denied for its
  protocol or its size counts too, so fewer than the limit are let through (`EgressPolicy.PerMinuteSafety`), at best one
  fewer (`EgressPolicy.LimitLessOneGranted`).  Used as lines 75-82 show, with every granted request logged, each counts
  twice, and only half the limit is let through (`EgressPolicy.NthAllowedIff`).
* `core/layer3_escrow.py:142` draws settlement as the end.  A settled bounty can be submitted, approved and disputed
  again (`EscrowRules.SettledDisturbedIff`).  `EscrowRules.SettledTwice` is a run that credits one bounty twice,
  `EscrowRules.SettledOnceIff` says exactly which runs do not.  The check that an agent
  has no other active bounty (line 179) is not made: `EscrowRules.TwoActiveBounties` is a run, and
  `EscrowRules.StepExclusiveIff` says exactly which calls give an agent a second one.  The phases IN_PROGRESS,
  UNDER_REVIEW, APPROVED and CANCELLED are never entered.
* `core/layer3_escrow.py:281` has a lost dispute cost reputation.  The built-in panel always finds for the agent,
  so on every run a report is one half before the first settlement and one after it (`EscrowAnswers.ReportOnRuns`), no
  record counts a dispute (`EscrowAnswers.CountersOnRuns`), and the score check of a claim comes down to that
  (`EscrowAnswers.ClaimAcceptedIff`).
* `core/security/seccomp.py:99` says that blocklisted calls are always blocked.  When an existing profile is hardened, those
  outside the shorter kill list keep the base's action unless explicitly blocked (`SeccompRules.HardeningPermitsIff`,
  `SeccompRules.HardeningLeavesSomeBlocklisted`).

## Model

| member | source | states |
|---|---|---|
| Audit.AuditLog.constructor | core/security/audit.py:114-121 | a new log is empty, indexed and a valid chain |
| Audit.AuditLog.LastHash | core/security/audit.py:127-131 | the last entry's hash, or the genesis text for an empty log |
| Audit.AuditLog.Record | core/security/audit.py:133-181 | appends exactly one sealed entry with the given fields that follows from the log, keeps `_index[s] == s - 1` for s in 1..n, and leaves the chain valid exactly when it was |
| AuditTransfer.Sealed | core/security/audit.py:153-166 | the entry that is recorded has the next sequence number, the link to the head and the right hash |
| Audit.AuditLog.VerifyChain | core/security/audit.py:185-225 | the verdict function of the log; intact exactly when every entry has the right sequence, link and hash, and otherwise about the first entry that does not follow |
| AuditChain.ChangeReported | core/security/audit.py:185-225 | barring a collision, what verification reports for any change of one entry: a gap, a broken link or a hash mismatch there, or a broken link after it if it was sealed again |
| AuditChain.ValidAppend | core/security/audit.py:194-223 | a chain with one more entry is valid exactly when the chain was and the entry follows from it |
| AuditChain.HeadCommits | core/security/audit.py:127-131 | two valid chains with one head hash are equal entry by entry, length included, or two of their entry texts collide |
| AuditChain.TamperingDetected | core/security/audit.py:1-7 | any different log that ends in the same entry hash as a valid one fails verification, or two of the entry texts collide |
| AuditChain.HashesDistinct | core/security/audit.py:203-223 | in a valid chain without collisions no two entries have the same hash |
| AuditChain.RemovalUnnoticedIffTail | core/security/audit.py:185-225 | cutting a block out of a valid chain, with the rest renumbered, leaves a valid chain exactly when the block is a tail |
| AuditChain.ReplacementUnnoticedIff | core/security/audit.py:1-7 | barring a collision, a valid chain with one entry replaced by a different one is valid exactly when it is the last and the new one follows from those before |
| AuditChain.InsertionUnnoticedIff | core/security/audit.py:1-7 | barring a collision, a valid chain with one more entry, the rest renumbered, is valid exactly when the entry is put at the end and follows from the others |
| AuditChain.PrefixValid | core/security/audit.py:185-225 | every prefix of a valid chain is a valid chain |
| Audit.AuditLog.ComputeMerkleRoot | core/security/audit.py:229-241 | the root function of the entry hashes, or the hash of the empty-log marker |
| MerkleTree.MerkleRoot | core/security/audit.py:301-319 | the level-by-level loop computes the recursive root |
| MerkleTree.ParentLevel | core/security/audit.py:312-315 | the inner loop hashes each pair of neighbours |
| MerkleTree.HeightIsCeilLog2 | core/security/audit.py:262-277 | the number of levels is the least k with n <= 2^k |
| MerkleTree.RootOfHalves | core/security/audit.py:301-319 | the root of two full trees of one height side by side is the hash of the left root followed by the right root |
| MerkleTree.MerkleProof | core/security/audit.py:259-279 | the proof loop, in step with the root loop, collects the true siblings; the sibling guard never fails |
| Audit.AuditLog.ComputeMerkleProof | core/security/audit.py:243-279 | the proof for a 1-based position, empty outside 1..n |
| MerkleTree.ProofComplete | core/security/audit.py:243-279 | folding a leaf with its proof by index parity gives the root, and the proof is as long as the tree is high |
| MerkleTree.ProofSound | core/security/audit.py:243-279 | a 64-character value and a list of 64-character values that fold to the root are the leaf and its proof, or two hashed texts collide |
| MerkleTree.RepeatedLastLeaf | core/security/audit.py:309-310 | an odd leaf list and the same list with its last leaf repeated have one root |
| MerkleTree.RootInjective | core/security/audit.py:301-319 | for trees of one height over distinct digests the root determines the leaves, barring a collision |
| MerkleTree.TallerRootDiffers | core/security/audit.py:301-319 | a lower tree whose leaves hash JSON objects cannot share a root with a taller one, barring a collision |
| MerkleBinding.RootBindsLog | core/security/audit.py:229-241 | two valid logs with one Merkle root are the same log, length and all fields included, or two of the texts hashed for them collide |
| MerkleBinding.ProvenEntryIsLogged | core/security/audit.py:243-279 | fields presented with a proof that folds to a valid log's root are the fields of the entry at that position, or a collision is exhibited |
| MerkleBinding.ProvenIsLoggedAnywhere | core/security/audit.py:243-279 | fields that fold to a valid log's root with any list of digests, at any position, are those of some entry, and the list is as long as the tree is high, or a collision is exhibited; the log's length need not be known |
| MerkleBinding.LoggedEntryIsProven | core/security/audit.py:243-279 | every entry of every log folds with its computed proof to the computed root |
| MerkleBinding.EmptyRootUnique | core/security/audit.py:237-238 | the empty log and, barring a collision, no other has the hash of the marker as its root |
| Audit.AuditLog.RunQuery | core/security/audit.py:323-368 | the scan computes its recursive form, which is filter, order, drop, take when no match is hidden; every entry returned is in the log and has the wanted category, severity, agent, event text and time, and on non-decreasing times in a documented order a full answer misses none of these |
| AuditQuery.ScanEntries | core/security/audit.py:340-368 | the loop with its skip counter and early exits computes the recursive scan |
| AuditQuery.ScanIsPage | core/security/audit.py:340-368 | for all times and every order, the scan is one page of the matches that come before the first entry that ends it |
| AuditQuery.ExactIffNothingHidden | core/security/audit.py:323-368 | for any times and any sort order, every page is filter, order, drop, take exactly when no visited entry that ends the scan comes before a matching one |
| AuditQuery.AnswersEverythingIffOrdered | core/security/audit.py:323-368 | a log gives the right page for all filters, both documented orders and all offsets and limits exactly when its times never decrease |
| AuditQuery.ScanIsMeaning | core/security/audit.py:341-368 | on non-decreasing times the early exits lose nothing, for both documented orders and all offsets and limits |
| AuditQuery.PagesConcatenate | core/security/audit.py:331-368 | for all times and every order, consecutive pages of a query concatenate to one page, and a large enough page is all that the scan can reach |
| AuditAnswers.AnswerIsWanted | core/security/audit.py:341-360 | for all times, orders and pages, every entry returned is in the log, has the category, severity and agent asked for, an event that contains the text asked for, both lower-cased, and a time within the bounds; None, empty and zero ask nothing |
| AuditAnswers.AnswerIffWanted | core/security/audit.py:323-368 | on non-decreasing times and a documented order a full answer holds exactly the entries of the log with those fields |
| AuditAnswers.RecordedIsFoundIff | core/security/audit.py:133-368 | the entry recorded for a request is in the answer to a query exactly when the request's own category, severity, agent, event and time are asked for |
| AuditAnswers.AnswerIsOrdered | core/security/audit.py:338 | on non-decreasing times answers go with the times for "asc" and against them otherwise |
| AuditAnswers.PageLength | core/security/audit.py:331-368 | a page is as long as the limit and the entries left allow |
| AuditQuery.ClockSetBackHidesEntry | core/security/audit.py:353-356 | a valid log of two recorded entries, at times 20 and 5, on which the descending query for everything since 20 is wrong |
| AuditQuery.OtherOrderMeaning | core/security/audit.py:338-360 | for any other sort order the answer is empty if an otherwise matching entry is newer than `until`, and the descending answer if not |
| Audit.AuditLog.ImportJsonl | core/security/audit.py:450-528 | line-by-line import computes the import outcome, keeps the index, and extends a valid log to a valid log |
| AuditTransfer.ImportNeverDamages | core/security/audit.py:450-528 | from a valid log, the result is the old log plus the records before the first rejected line, valid, and True exactly when no line is rejected |
| AuditTransfer.OneLineImport | core/security/audit.py:466-511 | a single line extends a valid log exactly when it is a record with details of at most 10000 printed characters, the next number, and the right link and hash; a blank line changes nothing, and any other is rejected |
| AuditTransfer.AbsorbsUpToRejection | core/security/audit.py:466-511 | from any log, every line before the stopping point is blank or accepted and the one at it is neither |
| AuditTransfer.ClearsIffAlreadyBroken | core/security/audit.py:513-519 | the clearing branch empties the log and answers False, and is taken exactly when all lines are accepted on top of a log that was already broken; otherwise the accepted records stay |
| Audit.AuditLog.ExportJsonl | core/security/audit.py:398-403 | overwrites the file with the whole log, leaves the tracker, and marks the log clean |
| Audit.AuditLog.ExportIncremental | core/security/audit.py:420-448 | appends the entries newer than the tracker and moves the tracker to the last sequence number |
| AuditTransfer.ExportImportRoundTrip | core/security/audit.py:381-528 | a valid log exported and imported into an empty one is rebuilt up to the first entry whose details are oversized or change when read back, in full and with True exactly when there is none; provided such changes show in the digest |
| AuditTransfer.ChangesShowUnlessCollision | core/security/audit.py:66-78 | every change of details by reading back shows in the digest, or two of the texts hashed before and after collide |
| AuditTransfer.ImportableIffValid | core/security/audit.py:450-528 | an empty log imports a file of records exactly when they are a valid chain without oversized details |
| AuditTransfer.IncrementalExportComplete | core/security/audit.py:420-448 | after an incremental export of a synced archive the file is the whole log |
| AuditTransfer.RunStaysSynced | core/security/audit.py:420-528 | over any interleaving of records, imports and incremental exports the log is valid and the file is its exported prefix |
| AuditTransfer.IncrementalFileRestoresPrefix | core/security/audit.py:420-528 | at the end of any run from nothing, importing the file rebuilds the exported prefix, up to the first entry whose details are oversized or change when read back |
| AuditTransfer.WholeExportReplacesFile | core/security/audit.py:398-403 | whatever was in the file, after a whole export it imports as the log, and log and tracker are untouched |
| AuditTransfer.WholeExportBreaksStaleTracker | core/security/audit.py:381-448 | a whole export to the incremental file keeps the archive synced exactly when the tracker was up to date; otherwise the next incremental export makes the file unimportable |
| TokenBuckets.TokenBucket.constructor | core/security/ratelimit.py:43-48 | a new bucket is full |
| TokenBuckets.TokenBucket.Take | core/security/ratelimit.py:50-62 | refills up to the burst size, then takes one token if there is one |
| TokenBuckets.ConsumeStaysWithin | core/security/ratelimit.py:50-62 | the level stays between zero and the burst size |
| TokenBuckets.RefillTwice | core/security/ratelimit.py:52-57 | refilling at two times is refilling once at the later |
| TokenBuckets.DeniedPollInvisible | core/security/ratelimit.py:50-62 | a denied request changes no later answer |
| TokenBuckets.OnlyGrantsMatter | core/security/ratelimit.py:50-62 | a run of just the granted requests is granted throughout |
| TokenBuckets.GrantedAfterWait | core/security/ratelimit.py:236 | after a denial a request is granted exactly when the burst is at least one and the wait covers the missing fraction |
| TokenBuckets.RetryAfterSuffices | core/security/ratelimit.py:234-247 | the unrounded wait, or the reported one plus 0.005 seconds, always suffices |
| TokenBuckets.ReportedRetryEnoughIff | core/security/ratelimit.py:245-247 | the reported wait suffices exactly when the wait needed is at most 0.1, or its hundredths have no fraction, a fraction above one half, or one half above an odd number |
| TokenBuckets.ReportedRetryMayBeTooShort | core/security/ratelimit.py:245-247 | at three tokens a second an empty bucket reports 0.33, after which a request is still denied |
| TokenBuckets.InstantBurst | core/security/ratelimit.py:50-62 | of n requests at one instant exactly those within the level are granted |
| TokenBuckets.RemainingIsExact | core/security/ratelimit.py:253-259 | `remaining` is exactly the number of further requests granted with no time passing |
| Rounding.RoundError | core/security/ratelimit.py:247 | rounding errs by at most half a unit of the last decimal |
| Rounding.RoundIsNearest | core/security/ratelimit.py:247 | rounding gives a whole number of units, a nearest one, and of two the even one |
| LimiterStore.MostRestrictive | core/security/ratelimit.py:198-204 | one of the results, allowed exactly when all are, and then with the fewest remaining |
| LimiterStore.MostRestrictiveIsFirst | core/security/ratelimit.py:198-204 | it is the first blocked result, or the first with the fewest remaining |
| LimiterStore.EvictionInvisibleIff | core/security/ratelimit.py:167-174 | evicting gives the results of never evicting exactly when every scope's rate times 300 seconds reaches its burst: over all runs of client requests, and also over all runs with resets and with evictions at any moment |
| LimiterStore.SimulationRun | core/security/ratelimit.py:228-271 | from related stores, the evicting and the never-evicting limiter hand out the same results |
| LimiterStore.EvictionVisible | core/security/ratelimit.py:167-271 | when a stale bucket may not be full, a run of client requests alone, 10000 of them by new agents, tells the two limiters apart |
| LimiterStore.DefaultsEvictInvisibly | core/security/ratelimit.py:142-154 | the three built-in configurations evict invisibly |
| LimiterStore.CheckSpends | core/security/ratelimit.py:228-259 | a check is allowed exactly when a token is available, and then takes exactly one |
| LimiterAnswers.GrantReports | core/security/ratelimit.py:253-259 | a granted check names its scope and burst, and the whole tokens left |
| LimiterAnswers.RefusalReports | core/security/ratelimit.py:234-251 | a refused one reports, within half a hundredth, the seconds until a token is there or the cooldown, at least a tenth, and nothing remaining |
| LimiterAnswers.CheckAllAllowsIff | core/security/ratelimit.py:188-204 | allowed exactly when the agent's key if given, the address's key if given, and the global key have a token; each of these that has one loses exactly one, and no other key loses any; for an evicting limiter, when evictions are invisible |
| LimiterAnswers.RefusalNamesScope | core/security/ratelimit.py:198-201 | a refusal carries the scope of the first key without a token in the order agent, address, global |
| LimiterAnswers.CheckAllBounded | core/security/ratelimit.py:188-204 | in any stretch the allowed calls that give an agent, give an address, or just ask, are at most that scope's burst plus its rate times the time |
| LimiterAnswers.CheckDropsIff | core/security/ratelimit.py:167-271 | a check drops another bucket exactly when it creates one, more than 10000 are then there, and the other was last asked more than 300 seconds ago |
| LimiterStore.ReachableAt | core/security/ratelimit.py:50-62 | every bucket of every reachable store is between empty and full |
| LimiterBounds.RateBound | core/security/ratelimit.py:188-259 | in any stretch of any run, resets included, the tokens spent at a key, and so the granted requests that asked it, number at most its burst for each reset and once more, plus its rate times the time |
| LimiterBounds.RateBoundIff | core/security/ratelimit.py:167-271 | all stretches of all runs keep the bound exactly when the limiter does not evict or the key's rate times 300 seconds reaches its burst; and the same for runs of client requests alone |
| LimiterBounds.RateExceeded | core/security/ratelimit.py:167-271 | when a stale bucket may not be full, a run of client requests alone in which a key spends more than the bound |
| LimiterBounds.ResetsReachTheBound | core/security/ratelimit.py:206-210 | for every number of resets there is a run at one instant that spends exactly the bound |
| LimiterRefusals.RequestUnnoticedIff | core/security/ratelimit.py:188-259 | in any reachable store a request of several keys changes no later answer exactly when none of its keys allowed it; for an evicting limiter, when evictions are invisible |
| LimiterRefusals.RefusedButNoticed | core/security/ratelimit.py:188-204 | with the global bucket drained, an agent's request is refused and changes later answers |
| RateLimiter.Limiter.constructor | core/security/ratelimit.py:130-159 | a new limiter has no buckets |
| RateLimiter.Limiter.GetBucket | core/security/ratelimit.py:167-174 | finds or creates the bucket, evicting stale ones when there are more than 10000 |
| RateLimiter.Limiter.CleanupStaleBuckets | core/security/ratelimit.py:261-271 | removes exactly the buckets last refilled more than 300 seconds ago |
| RateLimiter.Limiter.Check | core/security/ratelimit.py:228-259 | spends from one key's bucket, changes no other, and reports the result |
| RateLimiter.Limiter.CheckAll | core/security/ratelimit.py:188-204 | asks agent, address and global buckets in order, all of them, and answers with the most restrictive result |
| RateLimiter.Limiter.Reset | core/security/ratelimit.py:206-210 | forgets one key's bucket |
| SlidingWindow.SlidingWindowCounter.Ask | core/security/ratelimit.py:83-102 | prunes, counts, and grants below the maximum |
| SlidingWindow.RunIsExact | core/security/ratelimit.py:83-102 | on every run the kept list is sorted and holds all grants since some time out of the window, and every closed window holds at most the maximum |
| SlidingWindow.DenialIsExact | core/security/ratelimit.py:93-102 | a request is denied exactly when that many grants lie in the window ending now; the kept list and count are exactly those grants |
| Egress.EgressProxy.AddDomain | core/security/egress.py:108-127 | sets the host's rule, with the defaults for missing or zero limits |
| Egress.EgressProxy.AddWildcard | core/security/egress.py:129-132 | appends the pattern |
| Egress.EgressProxy.RemoveDomain | core/security/egress.py:139-143 | forgets the host's rule and every pattern equal to it |
| Egress.EgressProxy.EvaluateAttempt | core/security/egress.py:145-208 | decides by domain, protocol, rate and size in that order and records the request and the event |
| Egress.EgressProxy.CheckRateLimit | core/security/egress.py:217-230 | prunes to the last minute and compares what is left with the limit |
| Egress.EgressProxy.RecordEvent | core/security/egress.py:232-257 | appends, keeping the last 5000 events when there are more than 10000 |
| Egress.EgressProxy.LogCompleted | core/security/egress.py:259-274 | counts a completed connection as a request |
| EgressPolicy.PruningInvisible | core/security/egress.py:210-230 | over all runs, pruning gives the grants, rules and events of a proxy that never forgets |
| EgressPolicy.AllowedExactlyWhen | core/security/egress.py:145-208 | on every run an attempt is let through exactly when a rule governs its host, protocol and size fit, and all its agent's requests of the last minute are fewer than the limit |
| EgressAccess.RuleIsOfLastCall | core/security/egress.py:108-187 | after any calls a host has a rule exactly when it was added and not removed since, or a wildcard was that matches it; the rule is that of the last `add_domain`, with defaults for missing or zero limits, or else the https default |
| EgressAccess.DefaultDeny | core/security/egress.py:145-175 | after any calls exactly the attempts on hosts without such a listing or wildcard are denied for their domain, and none of them is granted |
| EgressAccess.DecidedByCalls | core/security/egress.py:145-230 | after any calls the decision follows from the arguments of the last listing, or the defaults, and the number of attempts on governed hosts and logged connections in the last minute: protocol first, then rate, then size |
| EgressAccess.LoggedAsDecided | core/security/egress.py:232-274 | every attempt is logged as made, with the decision given, every completed connection as allowed over https, and nothing else is logged |
| EgressPolicy.PerMinuteSafety | core/security/egress.py:163-230 | in any half-open minute of any run an agent is let through fewer than L times under rules of limit at most L |
| EgressPolicy.NthAllowedIff | core/security/egress.py:145-274 | of equal fitting attempts at one instant, none counted before, the i-th is allowed exactly when i is below the limit, and, when granted ones are logged, exactly when 2i is within it |
| EgressPolicy.LimitLessOneGranted | core/security/egress.py:145-230 | for every limit there are runs in which all but one of the limit are granted in one minute, and asking more often grants no more |
| EgressPolicy.BufferHoldsLatest | core/security/egress.py:253-257 | the buffer never exceeds 10000 events and holds the latest ones, all or at least 5000 |
| EgressPolicy.BufferHasLength | core/security/egress.py:253-257 | the buffer grows by one with each event, and falls to 5000 with the event after 10000 |
| Reputation.ReputationRecord.constructor | core/layer3_escrow.py:69-76 | a new record has score one half and no history |
| Reputation.ReputationRecord.CalculateRs | core/layer3_escrow.py:78-103 | the loop over weights computes the rounded weighted average, or the standing score when there is nothing to weigh |
| Reputation.ReputationRecord.Update | core/layer3_escrow.py:105-125 | appends the task and bumps exactly the right counters |
| Reputation.Recurrence | core/layer3_escrow.py:88-102 | the recomputed sums obey N' = d*N + s and W' = d*W + 1 |
| Reputation.RsBounded | core/layer3_escrow.py:98-102 | for d >= 0 the unrounded score lies between the lowest and highest task score |
| Reputation.CalculatedInUnitRange | core/layer3_escrow.py:78-103 | tasks scored between zero and one keep the reported score there |
| Reputation.NewTaskMovesRs | core/layer3_escrow.py:78-103 | a new task moves the score by its distance from it over the new total weight |
| Reputation.BetterLaterNeverLowers | core/layer3_escrow.py:62-67 | for 0 <= d <= 1 moving a better score later never lowers the average |
| ReputationReports.ReportIsShare | core/layer3_escrow.py:78-103 | the report is the standing score for no tasks, or a decay of minus one and an even number; else it is a ten-thousandth nearest to the decayed sum of scores over the decayed number of tasks |
| ReputationReports.ReportBetween | core/layer3_escrow.py:78-103 | for d >= 0 the report lies between the lowest and the highest score in the history, up to rounding |
| ReputationReports.BetterLaterNeverLowersReport | core/layer3_escrow.py:62-103 | for 0 <= d <= 1 moving a better task later never lowers the report |
| ReputationReports.CountsAre | core/layer3_escrow.py:112-123 | completed tasks are the undisputed ones scored at least 0.8, disputed tasks those marked so |
| Reputation.WeightsCancelIff | core/layer3_escrow.py:98-100 | the total weight is zero exactly for d = -1 and an even number of tasks |
| Reputation.UpdatedStaysCounted | core/layer3_escrow.py:112-123 | each counter stays its count over the history |
| Escrow.EscrowEngine.constructor | core/layer3_escrow.py:146-149 | a new engine is empty |
| Escrow.EscrowEngine.CreateBounty | core/layer3_escrow.py:151-170 | adds an open, unclaimed bounty |
| Escrow.EscrowEngine.ClaimBounty | core/layer3_escrow.py:172-199 | refuses unless open, looks the agent up, refuses below the minimum score, else records the claimant |
| Escrow.EscrowEngine.SubmitWork | core/layer3_escrow.py:201-224 | the claimant's output hash becomes the snapshot, in any phase |
| Escrow.EscrowEngine.ApproveBounty | core/layer3_escrow.py:226-251 | only the client, only submitted work; credits the claimant and settles |
| Escrow.EscrowEngine.DisputeBounty | core/layer3_escrow.py:253-289 | only the client, in any phase; settles by the panel's decision, or raises and stays disputed when the panel is empty |
| Escrow.RunConsensus | core/layer3_escrow.py:291-324 | the panel's decision, or none for an empty panel |
| Escrow.Tally | core/layer3_escrow.py:314-319 | for any votes, the most frequent decision and, among several, the one voted first |
| EscrowRules.PanelOutcome | core/layer3_escrow.py:304-324 | the only winner of the built-in panel is the agent |
| EscrowRules.RunSound | core/layer3_escrow.py:151-289 | on every run only four phases occur, open bounties are unclaimed, submitted ones have claimant and snapshot, settled ones a settlement time, and all counters count their history |
| EscrowRules.RunEvolves | core/layer3_escrow.py:151-289 | from any point of a run to its end no bounty is reopened, and claimant, client, reward, snapshot and settlement are not undone |
| EscrowRules.MovesExactlyWhen | core/layer3_escrow.py:172-289 | exactly which calls give a bounty a claimant, settle it or change its snapshot, and to what |
| EscrowAnswers.ClaimAcceptedIff | core/layer3_escrow.py:172-199 | after any calls a claim succeeds exactly when the bounty is open and the minimum is at most one half, for an agent never credited, or at most one |
| EscrowAnswers.ClaimFollowsAverage | core/layer3_escrow.py:187-195 | in any state a claim of an open bounty succeeds when the weighted average of the agent's scores exceeds the minimum, and fails when it is below it, up to rounding |
| EscrowAnswers.AcceptedIff | core/layer3_escrow.py:151-289 | which submissions, approvals and disputes succeed |
| EscrowAnswers.AcceptedWrites | core/layer3_escrow.py:151-289 | what a successful call writes into its bounty, and that it writes into no other |
| EscrowAnswers.RefusalChangesNothing | core/layer3_escrow.py:172-289 | a refused call changes no bounty and no record, though it may create one |
| EscrowAnswers.NoPanelRaises | core/layer3_escrow.py:253-300 | without a panel exactly the client's disputes raise; they leave the bounty disputed and credit nobody |
| EscrowAnswers.CreatedStands | core/layer3_escrow.py:151-170 | on every run a bounty keeps the client and reward it was created with |
| EscrowAnswers.CreditsAreFullMarks | core/layer3_escrow.py:226-289 | every accepted approval or dispute credits the claimant with one undisputed task of score one |
| EscrowAnswers.ResolutionCounts | core/layer3_escrow.py:270-287 | the score and the counter that each resolution of a dispute would add |
| EscrowAnswers.ReportOnRuns | core/layer3_escrow.py:78-289 | on every run an agent's report is one half before its first settlement and one after it, but for a decay of minus one |
| EscrowAnswers.CountersOnRuns | core/layer3_escrow.py:105-289 | on every run completed tasks, total tasks and credits are equal in number, and no task is disputed |
| EscrowRules.HistoryIsCredits | core/layer3_escrow.py:226-289 | an agent's history is exactly the settlements credited to it, in order |
| EscrowRules.SettlementsConserved | core/layer3_escrow.py:226-289 | all histories together are as long as the accepted approvals and disputes |
| EscrowRules.SettledDisturbedIff | core/layer3_escrow.py:201-289 | a settled bounty leaves that phase exactly when its claimant submits again, and earns another credit exactly when its client disputes it |
| EscrowRules.SettledTwice | core/layer3_escrow.py:201-251 | a run in which one bounty is credited twice |
| EscrowRules.SettledOnceIff | core/layer3_escrow.py:226-289 | a run credits a bounty once at most exactly when no call of it is the bounty's client approving submitted work, or disputing, after the bounty was settled |
| EscrowRules.SettledIffCredited | core/layer3_escrow.py:226-289 | at the end of any run a bounty has a settlement time exactly when somebody was credited for it |
| EscrowRules.StepExclusiveIff | core/layer3_escrow.py:172-224 | from a state where no agent holds two active bounties, a call leads to one where an agent does exactly when it is a successful claim, or a submission by the claimant of any bounty, by an agent who holds another |
| EscrowRules.RunExclusiveIff | core/layer3_escrow.py:172-224 | all along a run no agent holds two active bounties exactly when no call of the run is such a call |
| EscrowRules.TwoActiveBounties | core/layer3_escrow.py:172-199 | a run in which one agent claims two bounties |
| Seccomp.SeccompProfile.constructor | core/security/seccomp.py:183-199 | a new profile allows and blocks nothing |
| Seccomp.SeccompProfile.AddSyscalls | core/security/seccomp.py:242-248 | adds the names that are not blocklisted |
| Seccomp.SeccompProfile.BlockSyscall | core/security/seccomp.py:250-271 | sets the name's block, keeping its place in the order if it had one |
| Seccomp.SeccompProfile.AllowNetwork | core/security/seccomp.py:273-282 | adds the network names |
| Seccomp.SeccompProfile.ToDictHarden | core/security/seccomp.py:349-395 | one kill rule, the errno rules reversed, then the base rules |
| Seccomp.InsertAll | core/security/seccomp.py:392-393 | inserting each rule at position one reverses them behind the first |
| Seccomp.SeccompProfile.ToDictDefaultDeny | core/security/seccomp.py:300-347 | the compiled rules give every call the promised effect, whatever its arguments |
| SeccompRules.RunRemembers | core/security/seccomp.py:242-282 | after any calls the allowlist is what was added less the blocklist, and the last block of a name counts |
| SeccompPromises.FirstMatchIs | core/security/seccomp.py:300-395 | a rule list gives a call the effect of its first rule that names it and whose condition holds |
| SeccompPromises.HardenedCall | core/security/seccomp.py:250-395 | from the arguments of the calls: names on the kill list or last blocked with kill are killed, names last blocked with errno get that errno, and all others have the base's effect |
| SeccompPromises.DeniedCall | core/security/seccomp.py:242-347 | from the arguments of the calls: blocklisted names are killed, others have their last block's action and errno, names added and never blocked are allowed or, in audit mode, logged, and the rest get the default |
| SeccompPromises.KilledInBothModes | core/security/seccomp.py:250-395 | a name whose last block kills is killed in both modes |
| SeccompRules.HardeningOverrides | core/security/seccomp.py:349-395 | for every base and every sequence of calls: kill on the kill list and explicit kills, else the explicit errno, else the base's effect |
| SeccompRules.AllowedIffAdded | core/security/seccomp.py:300-347 | with audit off and a denying default, an unblocked call is allowed exactly when added and not blocklisted, and a blocklisted one is always killed |
| SeccompRules.HardeningPermitsIff | core/security/seccomp.py:349-395 | for every base, every sequence of calls and every call, the hardened action is allow or log exactly when the base's is, the name is off the kill list, and its last block is neither kill nor errno |
| SeccompRules.HardeningLeavesSomeBlocklisted | core/security/seccomp.py:99-159 | `unshare` is blocklisted, and hardening a base that permits it leaves it permitted |

## Left out

- SHA-256 and JSON text themselves, and the parsing of import lines: a line is blank, not JSON, lacking fields, or a record
  whose fields have the expected types.
- Floating-point rounding other than the two explicit `round` calls.
- Reading the clock several times within one call, and buckets created long before the cleanup of the same call.
- Path validation, directories, I/O errors and `export_jsonl` in append mode, which writes only the last entry.
- `verify_merkle`, `export_json`, `statistics`, `critical_rate`, `get_critical_events`, `get_recent`, log messages and alert
  callbacks.
- The limiter's `stats` and its `_windows` dictionary, which nothing fills.
- The egress proxy's `get_events`, `get_statistics`, `add_trusted_apis` (repeated `add_domain`) and the reason texts of events.
- Bounty titles, descriptions, requirements and creation times, the reward multiplier (only logged), the `verified` flag, and
  callers changing returned bounty or reputation objects behind the engine's back.
- The order in which names are listed inside a rule and in which allowlist and blocklist rules are written; first-match
  meaning does not depend on it.  Architectures, comments and the preset profiles are not part of this model.
- Containers, orchestration, injection and exfiltration detection, image verification and workspaces.
