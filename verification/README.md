# A verified model of the UAT call stack

UAT (Universal Agent Telephony) lets one agent place a call to another: a Submit travels to the
callee, the callee answers with progress, questions and one final message, either side keeps a timer,
and the caller may cancel at any moment. This project models the five parts of the call stack in which
correctness is least obvious, and proves what they promise over every input and every run.

* **The call protocol.** `CallState` holds the two transition tables. `ChannelCall` holds the two driver
  loops of the in-memory harness, as methods over a sequence of wake-ups, and composes them over two
  unbounded first-in first-out queues. `CallSafety` proves an inductive invariant of that product: replaying
  everything in flight to the caller is always legal, and leaves the caller in a state matched to the
  callee and to what the callee has yet to read. From it follow the absence of unspecified receptions and
  the agreement of outcomes. `CallHistory` adds logs and characterizes exactly the message sequences a callee
  can send. `TimedCall` adds one clock, both timers and transit times, and shows that the 5000 ms
  grace is exactly what the protocol needs.
* **Admission limits.** `RateLimit` is the per-peer limiter with its permits; `RateLimitRuns` proves that permits
  are conserved and peers independent. `RateLimitClocks` compares the front-pruned deques, under any clock
  readings, with a ledger that keeps every attempt for ever, and `RateLimitCap` follows what that means for the
  minute cap. `SpentSet` is the lazily evicting set of one-shot tokens, `SpentRaces` its concurrent use, against a
  set that never forgets. `TokenPolicy` is the decision over a token's facts.
* **The wire.** `Bytes`, `Base64`, `WireTypes`, `JsonObject` and `MessageHeader` are the types and the JSON header;
  `JsonLayout` proves that the reader accepts exactly the texts that lay out some list of members. `Codec` is the frame, `FrameIo` frames on a byte stream, `SubmitPaths` the two ways a Submit is admitted.
* **Audit and real time.** `CallRecords` is the guard that emits one record per call. `QuicCaller`, `QuicHandler`
  and `QuicCallee` are the QUIC drivers over the waits of `NetworkWaits`, with every exit path, the record each one
  leaves and the time it takes. On a network that delivers they are compared with the channel drivers on the
  same events: the caller ends alike, and the callee does with one exception.
* `CallErrors` and `Timing` are the error mappings and the two budgets.

Pure code of the repository (tables, constructors, parsers) is modelled by functions. Code that works by
assignment is modelled by methods and classes whose contracts give the whole new state as a function of
the old one; the properties are then lemmas about those functions. Times are whole milliseconds for
the call timers and nanoseconds for the limiter and the spent set. 32-bit and 64-bit arithmetic is written
out wherever the code truncates or saturates.

## What turned out differently from the documentation

* The minute cap of the rate limiter is exact only below 2^32 attempts in one window: the deque's length is cut
  to 32 bits before it is compared. `CapLeaksExactlyOnWrap` says exactly when, `CapLeaksAfterWrap` gives the run.
* The limiter reads its clock before it takes its lock. With readings out of order it can miss attempts that it
  has already dropped, and then admit more calls in a minute than the cap (`CapLeaksOutOfOrder`), or count attempts
  that are too old, and then refuse needlessly (`OutOfOrderRefused`, `OutOfOrderAdmittedByLedger`).
  `CountedExactly` says exactly when either happens at one reading, `AlwaysRightExactly` when neither happens
  in a whole run, and `CapKeptExactly` when the cap is kept in a minute.
* A one-shot token can be admitted twice. Its id comes from the authority block alone, but its expiry is the
  earliest of all blocks, so a token that was given a shorter expiry and the token it was made from share an id and are
  stored with different expiries. An id is admitted twice exactly when it is offered again at or after a
  clock reading that reached the expiry of its first offer (`ReplayExactly`, `OneShotTwiceExactly`); no clock
  needs to step back for that (`RestrictedTokenReplays`). With one expiry for each id, it takes exactly a
  clock that does (`ReplayWithOneExpiry`).
* The whole-second expiry test agrees with the exact retention test of the spent set for every time at or
  after the epoch, and differs before it only for a token that expires at the epoch itself
  (`SecondsAgreeWithRetention`).
* The comment in the caller's driver prefers the rate-limit close code for the audit record. When the Submit
  write itself fails because of that close, the record's outcome is overwritten and reads as a lost
  peer (`RateLimitDuringSubmit`).
* Until a Submit is admitted, an inbound record reads as allowed by the allowlist. For a peer that is not on
  it, this is what is recorded exactly when tokens are in use and the call ends before a header was read
  (`DefaultAuthorization`).
* The QUIC caller may take almost twice its budget, because its two writes hold the loop
  (`CallerReturnsInTime`, `BoundIsTight`); it takes more than one exactly when a Cancel is written past the
  budget (`OneBudgetExactly`). The QUIC callee settles its outcome after its deadline exactly when its opening
  messages take longer than that or a message of its loop is written past it (`DeadlineMissedExactly`); it may then take
  two or three of the caller's budgets (`CalleeReturnsInTime`, `CalleeBoundIsReached`).
* A silent handler notices on QUIC that its connection ends, and reports a lost peer; on the channel harness it
  never reads and waits for its deadline. That is the only difference on events that both have
  (`CalleeFollowsDriver`).
* A cancel request whose sender is dropped without one leaves its arm in the caller's select, before the read.
  While it stays ready nothing is read, and the call ends in its timer (`GoneSenderStarvesRead`).

## Model

| member | source | states |
|---|---|---|
| CallState.CallerEndsExplained | crates/uat-core/src/state.rs:84-142 | an outcome of the caller names the one event that can lead to it; timer and lost connection end every state that has not ended; an ended state takes nothing more |
| CallState.CalleeEndsExplained | crates/uat-core/src/state.rs:145-212 | the same for the callee; it speaks by itself exactly on Cancel and on its timer, with a message that says how it ended |
| CallState.CallerByMessage | crates/uat-core/src/state.rs:84-134 | by message instead of by state: exactly which states of the caller may read or send each, and where it leads |
| CallState.CalleeByMessage | crates/uat-core/src/state.rs:145-204 | the same for the callee, with the one message it answers by itself |
| ChannelCall.DriveCaller | crates/uat-node/src/call.rs:780-853 | the caller's driver loop computes `CallerRun`, for every sequence of wake-ups, a cancel sender dropped without a request included; its first message is the Submit, and anything else ends it unsent |
| ChannelCall.SendOpening | crates/uat-node/src/call.rs:872-895 | what each behaviour sends and where that leaves the callee, with every message delivered and with the caller gone before the first or the second |
| ChannelCall.DriveCallee | crates/uat-node/src/call.rs:855-955 | the callee's driver loop computes `CalleeRun`, for every behaviour and every sequence of wake-ups; without a Submit as its first message it sends nothing |
| ChannelCall.OpeningExactly | crates/uat-node/src/call.rs:872-895 | the turns of the opening sends end as `SendOpening` says, for each behaviour and each fate of its sends |
| ChannelCall.HeardExactly | crates/uat-node/src/call.rs:897-955 | a silent handler hears neither a message nor the end of its inbox, and everything else in order; the others hear all |
| ChannelCall.CalleeTurnsSplit | crates/uat-node/src/call.rs:897-955 | a run of the callee's loop can be resumed at any turn |
| ChannelCall.CallerPartIsItsDriver | crates/uat-node/src/call.rs:753-778 | in every interleaving the caller's phase and messages are those of its own loop |
| ChannelCall.CalleePartIsItsDriver | crates/uat-node/src/call.rs:753-778 | the same for the callee |
| ChannelCall.PlacedFirst | crates/uat-node/src/call.rs:753-778 | every run begins by placing a call with a Submit |
| ChannelCall.SystemRunsCaller | crates/uat-node/src/call.rs:753-853 | in every run the caller is its own driver from the Submit on: phase and messages are `CallerRun` on its wake-ups |
| ChannelCall.SystemRunsCallee | crates/uat-node/src/call.rs:753-955 | in every run the callee is its own driver from the moment it answers: it has read that Submit, has sent nothing before, and is `CalleeRun` on its wake-ups |
| ChannelCall.ActionsExactly | crates/uat-node/src/call.rs:796-925 | which arm of either select may run in which state of both sides and queues, exactly |
| ChannelCall.SendsExactly | crates/uat-node/src/call.rs:796-955 | what a side sends goes to the end of the other queue, in order, and nowhere once the other side has returned; the other side stays as it is |
| CallSafety.ReplayAppend | crates/uat-core/src/state.rs:84-134 | replaying one more message continues where the replay of the queue ended |
| CallSafety.ReplayAfterCancel | crates/uat-core/src/state.rs:116-124 | a caller that cancels can still read everything in flight to it, with the same final outcome |
| CallSafety.ReplayAfterInput | crates/uat-core/src/state.rs:113-115 | so can a caller that answers a request for input |
| CallSafety.CallerCanFollow | crates/uat-core/src/state.rs:145-204 | every message the callee's table lets it send is legal for a caller that has caught up, and the match between the two is kept |
| CallSafety.NextKeepsInv | crates/uat-node/src/call.rs:780-955 | every step of the composed system keeps the invariant |
| CallSafety.RunKeepsInv | crates/uat-node/src/call.rs:753-955 | so does every run |
| CallSafety.NoUnspecifiedReception | crates/uat-core/src/state.rs:84-204 | in every reachable state the head of either queue is legal for its reader, and no driver returns an illegal transition |
| CallSafety.OutcomesAgree | crates/uat-core/src/state.rs:97-199 | a caller that returns timed out or has the callee's own outcome, after the callee ended with it |
| CallSafety.TerminalMessageArrives | crates/uat-node/src/call.rs:833-843 | a final message is never turned into a lost peer: the queue of a running caller ends with it and reading it out gives the callee's outcome |
| CallHistory.NextKeepsLogs | crates/uat-node/src/call.rs:780-955 | every step keeps the shape of both logs, the balance of input rounds and the order of both queues |
| CallHistory.RejectedMeansNeverAccepted | crates/uat-core/src/state.rs:107-109 | a caller that learns Rejected learns it from a callee that sent nothing else, though the caller's table alone would allow it after Accepted |
| CallHistory.InputRoundsBalance | crates/uat-core/src/state.rs:155-192 | requests for input sent minus answers read is one exactly in the waiting state and zero in the others |
| CallHistory.FirstCancelIsLegal | crates/uat-core/src/state.rs:100-117 | a running caller may send Cancel exactly when it has not sent it yet |
| CallHistory.NothingLostOrReordered | crates/uat-node/src/call.rs:753-778 | what each side has read, followed by what is in flight, is what the other side sent |
| CallHistory.OngoingHappens | crates/uat-core/src/state.rs:155-192 | every Accepted followed by progress and questions is sent by some run |
| CallHistory.FinishedHappens | crates/uat-core/src/state.rs:155-199 | so is every such conversation closed by a final message |
| CallHistory.CalleeSendsExactlyConversations | crates/uat-core/src/state.rs:145-204 | the sequences a callee can have sent are exactly the conversations: at most one final message, last, Completed only after Accepted, Rejected only alone |
| Timing.BudgetsDifferByGrace | crates/uat-node/src/timing.rs:8-18 | the caller's budget is the callee's plus the grace, at most 605000 ms; the saturating addition never saturates |
| TimedCall.TimedNextKeepsInv | crates/uat-node/src/call.rs:796-925 | every timed step keeps both timers' bounds and the transit limits |
| TimedCall.TimedStepsExactly | crates/uat-node/src/call.rs:796-925 | when a step may be taken, in milliseconds: no arm runs while a timer polled before it is due, a timer not before it is due, and no time passes beyond the first moment something is due |
| TimedCall.StampsStay | crates/uat-node/src/call.rs:796-925 | the moments a call was placed, answered and ended on either side are never changed by later steps |
| TimedCall.TimedRunIsRun | crates/uat-node/src/call.rs:753-955 | without its waits a timed run is a run of the composed system, so all that holds of runs holds of timed ones |
| TimedCall.NoCallerTimeout | crates/uat-core/src/lib.rs:35-39 | with Submit and final transit together below the grace, no run ends in the caller's timeout |
| TimedCall.GraceIsExact | crates/uat-core/src/lib.rs:35-39 | and exactly then: as soon as the two transits may reach the grace, some run does, for every deadline |
| TimedCall.PromptCallsAgree | crates/uat-node/src/call.rs:796-819 | within the grace a caller that returns holds the callee's outcome |
| TimedCall.BothEndInTime | crates/uat-node/src/call.rs:868-925 | the callee ends within the deadline of receiving Submit, the caller within deadline plus 5000 ms of sending it, whatever the transit times |
| TimedCall.BothCanEnd | crates/uat-node/src/call.rs:796-925 | before a call is placed any call can be; every state reachable after that goes on to one in which both sides have returned, on clocks, timers and reads alone, so no bound holds by getting stuck |
| RateLimit.PruneAttempts | crates/uat-policy/src/rate_limit.rs:204-211 | the loop computes `Pruned` |
| RateLimit.RateLimiter.TryAdmitAt | crates/uat-policy/src/rate_limit.rs:144-173 | the table after an attempt, admitted or not, the refusal in the source's order, and a fresh unreleased permit |
| RateLimit.RateLimiter.Release | crates/uat-policy/src/rate_limit.rs:175-183 | the table after a release, with the removal of an idle entry |
| RateLimit.RateLimiter.InFlight | crates/uat-policy/src/rate_limit.rs:187-190 | an absent peer counts zero |
| RateLimit.RateLimiter.AttemptsInWindow | crates/uat-policy/src/rate_limit.rs:194-201 | prunes the peer's own entry and returns its length cut to 32 bits |
| RateLimit.RateLimitPermit.ReleaseNow | crates/uat-policy/src/rate_limit.rs:233-239 | gives the slot back unless it was given back already |
| RateLimit.RateLimitPermit.Drop | crates/uat-policy/src/rate_limit.rs:241-246 | the same at the end of the permit's life |
| RateLimit.RateLimitPermit.ReleaseEarly | crates/uat-policy/src/rate_limit.rs:229-231 | an explicit release and the drop that follows give the slot back once |
| RateLimitRuns.PermitsConserved | crates/uat-policy/src/rate_limit.rs:160-183 | after any run the counter is the number of permits not given back, below both caps, and neither saturating operation saturates |
| RateLimitRuns.RefusedExactly | crates/uat-policy/src/rate_limit.rs:144-173 | after any run with any clocks: which refusal an attempt gets, from the attempts kept and the permits outstanding, in order; every attempt stays recorded, and no other peer is touched |
| RateLimitRuns.OutsideWindow | crates/uat-policy/src/rate_limit.rs:204-211 | the window is sixty seconds, and a reading from before an attempt keeps it inside |
| RateLimitRuns.TableEntriesExactly | crates/uat-policy/src/rate_limit.rs:175-201 | a release removes an entry exactly when it leaves nothing in it; asking for a count neither adds nor removes one |
| RateLimitRuns.PeersAreIndependent | crates/uat-policy/src/rate_limit.rs:149-183 | a peer gets the answers it would get alone, from any table that reads the same for it, entry present or absent |
| RateLimitClocks.DequeOfRun | crates/uat-policy/src/rate_limit.rs:144-211 | what the table holds for a peer after any run with any clocks: the end of its attempts from a place that its own readings determine |
| RateLimitClocks.DroppedExactly | crates/uat-policy/src/rate_limit.rs:204-211 | an attempt has been dropped exactly when later readings, in order, found it and every attempt before it outside the window |
| RateLimitClocks.CountedExactly | crates/uat-policy/src/rate_limit.rs:152-155 | against the full history: nothing is missed if and only if no dropped attempt is within the window, and nothing else is counted if and only if in the deque the old ones come first |
| RateLimitClocks.AlwaysRightExactly | crates/uat-policy/src/rate_limit.rs:139-155 | for any clocks, every reading counts exactly the attempts within the window if and only if no attempt returns to the window once outside it and none leaves it before an earlier one |
| RateLimitClocks.OrderedIsRight | crates/uat-policy/src/rate_limit.rs:139-155 | in particular when readings never go backwards |
| RateLimitClocks.CountAgainstHistory | crates/uat-policy/src/rate_limit.rs:204-211 | the count is never below the history's when nothing returns, and equal to it when it is right |
| RateLimitClocks.LimiterAnswersAsLedger | crates/uat-policy/src/rate_limit.rs:152-201 | with any clocks and any number of attempts, a whole run is answered as by a ledger that forgets nothing if and only if at every step both counts fall on the same side of the cap |
| RateLimitClocks.SoundAnswersAsLedger | crates/uat-policy/src/rate_limit.rs:152-167 | so it is whenever every reading is right and no deque reaches 2^32 |
| RateLimitClocks.OrderedAnswersAsLedger | crates/uat-policy/src/rate_limit.rs:152-167 | and so when readings never go backwards |
| RateLimitCap.LedgerWindowBound | crates/uat-policy/src/rate_limit.rs:152-158 | the ledger never admits above the cap in any minute, with any clocks |
| RateLimitCap.AdmittedInExactly | crates/uat-policy/src/rate_limit.rs:144-173 | with any clocks, caps and interleavings, of the attempts of a minute exactly those are admitted whose count is within the cap and that the other two caps do not refuse |
| RateLimitCap.CapKeptExactly | crates/uat-policy/src/rate_limit.rs:144-173 | the cap is kept in a minute if and only if no more attempts than the cap find a count within it, besides those refused by the other two caps |
| RateLimitCap.CapKeptByReadings | crates/uat-policy/src/rate_limit.rs:144-173 | in a run too short for the other caps to bind, the peer's readings alone say how many are admitted |
| RateLimitCap.PassesWhenFewKept | crates/uat-policy/src/rate_limit.rs:155-158 | while the deque fits, a count is within the cap exactly when fewer than `cap` attempts are kept |
| RateLimitCap.NeverAboveCapInAnyMinute | crates/uat-policy/src/rate_limit.rs:144-183 | a sufficient condition: the limiter keeps the cap in any half-open minute, interleaving and clocks, as long as none of the peer's readings misses an attempt it dropped |
| RateLimitCap.SteadyNeverAboveCap | crates/uat-policy/src/rate_limit.rs:144-183 | in particular when an attempt once outside the window stays outside, and so when readings never go backwards |
| RateLimitCap.CapLeaksOutOfOrder | crates/uat-policy/src/rate_limit.rs:139-141 | attempts at 0 s, 1 s, 61 s and 2 s are all admitted at two a minute: three in one minute |
| RateLimitCap.OutOfOrderRefused | crates/uat-policy/src/rate_limit.rs:139-141 | the opposite failure: the limiter refuses an attempt that hides behind a later one |
| RateLimitCap.OutOfOrderAdmittedByLedger | crates/uat-policy/src/rate_limit.rs:139-141 | which the ledger admits |
| RateLimitCap.CapLeaksExactlyOnWrap | crates/uat-policy/src/rate_limit.rs:155-158 | a deque above the cap passes exactly when its length is at least 2^32 and its low 32 bits are within the cap |
| RateLimitCap.CapLeaksAfterWrap | crates/uat-policy/src/rate_limit.rs:152-167 | a run that gets there: 2^32 attempts at one moment are admitted once more often than the cap, for every configuration whose other caps leave room |
| SpentSet.MemorySpentSet.EvictExpired | crates/uat-policy/src/lib.rs:163-165 | keeps exactly the entries that expire later than now |
| SpentSet.MemorySpentSet.Len | crates/uat-policy/src/lib.rs:150-155 | evicts first, and counts live entries only |
| SpentSet.MemorySpentSet.Contains | crates/uat-policy/src/lib.rs:168-172 | evicts first, and answers for live entries only |
| SpentSet.MemorySpentSet.TrySpend | crates/uat-policy/src/lib.rs:174-184 | succeeds exactly for an id that is not live; after a legal insertion every entry is live |
| SpentSet.EntriesExactly | crates/uat-policy/src/lib.rs:163-184 | after any run with any expiries and clocks, an id is stored exactly when no clock reading since some successful spend of it reached the expiry of that spend, and with that expiry |
| SpentSet.AdmittedExactly | crates/uat-policy/src/lib.rs:174-184 | a spend succeeds exactly when for every earlier successful spend of the id some reading since then reached the expiry that one named |
| SpentSet.AdmittedInOrder | crates/uat-policy/src/lib.rs:174-184 | under clocks that never go backwards: exactly when each of those expiries has passed |
| SpentSet.ReplayExactly | crates/uat-policy/src/lib.rs:163-184 | an id is admitted twice exactly when it is offered again at or after a reading that reached the expiry of its first offer |
| SpentSet.ShorterExpiryReplays | crates/uat-policy/src/lib.rs:174-184 | two offers with different expiries are both admitted although the clock only goes forward |
| SpentSet.ReplayWithOneExpiry | crates/uat-policy/src/lib.rs:163-184 | if each id always comes with one expiry: exactly when the clock reached it and stepped back before it between two offers |
| SpentSet.AtMostOnce | crates/uat-policy/src/lib.rs:114-127 | and then never, under clocks that do not go backwards in lock order |
| SpentRaces.LockOrderIsNeverLate | crates/uat-policy/src/lib.rs:163-165 | such clocks never present an id whose horizon an earlier step reached |
| SpentRaces.NodeStepExactly | crates/uat-policy/src/lib.rs:150-184 | what one check or spend decides, stores and throws out, and that it concerns its own presentation only |
| SpentRaces.NodeStepAgrees | crates/uat-policy/src/lib.rs:460-465 | one atomic check or spend keeps the evicting set in step with the unbounded one below every id's horizon |
| SpentRaces.LedgerAdmitsOnce | crates/uat-policy/src/lib.rs:114-127 | the set that never forgets admits each id once |
| SpentRaces.NodeDecides | crates/uat-policy/src/lib.rs:460-465 | a presentation ends admitted exactly when its spend succeeds in the sequence of set operations that the steps amount to |
| SpentRaces.AgreesExactly | crates/uat-policy/src/lib.rs:460-465 | concurrent presentations with any expiries and clocks that check and spend in two critical sections: all that a set forgetting nothing would admit are admitted, and no others if and only if no id comes to be spent again once the expiry of its first spend was reached |
| SpentRaces.LazySetDecidesAsLedger | crates/uat-policy/src/lib.rs:460-465 | sufficient for that: no reading reaches the shortest expiry of an id presented later; then leaving the check out changes nothing either |
| SpentRaces.LockOrderSuffices | crates/uat-policy/src/lib.rs:460-465 | in particular clocks in lock order, each presentation before its id's shortest expiry |
| TokenPolicy.CheckCallees | crates/uat-policy/src/lib.rs:381-394 | accepts exactly a non-empty list of facts that all name this node |
| TokenPolicy.CheckExpiry | crates/uat-policy/src/lib.rs:408-415 | one fact: a date strictly after the current whole second, and its exact time |
| TokenPolicy.CheckExpires | crates/uat-policy/src/lib.rs:396-421 | accepts exactly a non-empty list of unexpired dates and returns the earliest |
| TokenPolicy.CheckMaxDeadlines | crates/uat-policy/src/lib.rs:423-434 | accepts exactly when every limit is an integer at least the deadline |
| TokenPolicy.CheckContentTypes | crates/uat-policy/src/lib.rs:436-447 | accepts exactly when every content type fact is the Submit's |
| TokenPolicy.CheckFacts | crates/uat-policy/src/lib.rs:379-449 | the loops together accept exactly the facts that satisfy the quantified rule, and return the first 32 bytes of the first revocation id, zero-padded, with the earliest expiry |
| TokenPolicy.FactsHoldExactly | crates/uat-policy/src/lib.rs:379-449 | that rule in full, from the terms of the facts and the time in nanoseconds |
| TokenPolicy.BiscuitIdExactly | crates/uat-policy/src/lib.rs:494-502 | a token id holds the first 32 bytes of the revocation id, with zeros past its end |
| TokenPolicy.SameTokenExactly | crates/uat-policy/src/lib.rs:494-502 | two revocation ids stand for one token exactly when they agree on these bytes |
| TokenPolicy.CredentialReachesLibrary | crates/uat-policy/src/lib.rs:355-377 | without root keys or an own id no credential counts; otherwise the library gets the bytes that were encoded, and its failure leaves the spent set alone |
| TokenPolicy.VerifyCredential | crates/uat-policy/src/lib.rs:355-468 | the decision and the spent set it leaves, as a function of rules, facts and live entries |
| TokenPolicy.Verify | crates/uat-policy/src/lib.rs:319-352 | allowlist before credential before denial, with the rule that admitted and the spent set it leaves |
| TokenPolicy.VerdictExactly | crates/uat-policy/src/lib.rs:319-468 | who is admitted and by which rule, exactly; when the spent set changes and what an admitted one-shot token leaves in it |
| TokenPolicy.OthersAreNotSubmits | crates/uat-policy/src/lib.rs:301-352 | a message is refused as not a Submit exactly when it is not one, and then the spent set is left alone |
| TokenPolicy.FromHeaderExactly | crates/uat-policy/src/lib.rs:301-307 | exactly a bodiless Submit can be verified, and which error the others get |
| TokenPolicy.FewerFactsAcceptMore | crates/uat-policy/src/lib.rs:379-465 | facts only restrict: acceptance with more facts implies acceptance with fewer, and more facts never expire later |
| TokenPolicy.SecondsAgreeWithRetention | crates/uat-policy/src/lib.rs:403-421 | the whole-second test equals the exact one if and only if now is at or after the epoch or the expiry is not the epoch |
| TokenPolicy.HoldsOnlyWhileRetained | crates/uat-policy/src/lib.rs:163-165 | a token that still holds is not due for eviction, and from the epoch on the converse holds too |
| TokenPolicy.EntryStays | crates/uat-policy/src/lib.rs:163-184 | a spent entry survives every later decision before its expiry |
| TokenPolicy.DecisionsAreOps | crates/uat-policy/src/lib.rs:451-465 | checking and spending inside one decision amount to one spend |
| TokenPolicy.OneShotAdmittedExactly | crates/uat-policy/src/lib.rs:451-465 | from an empty set, with any tokens and clocks: a one-shot token whose facts hold is admitted exactly when every earlier admitted one whose revocation id agrees with its own on the first 32 bytes has since been outlived, that is, some decision reached its earliest expiry |
| TokenPolicy.OneShotTwiceExactly | crates/uat-policy/src/lib.rs:451-465 | an id is admitted twice exactly when it is offered again once the earliest expiry of its first token has been reached |
| TokenPolicy.RestrictedTokenReplays | crates/uat-policy/src/lib.rs:396-421 | a token restricted to ten seconds is used, and the token it was made from is admitted again after that, under a clock that only goes forward |
| TokenPolicy.RestrictedTokensExist | crates/uat-policy/src/lib.rs:494-505 | rules and credentials of that kind exist |
| TokenPolicy.OneShotAdmittedOnce | crates/uat-policy/src/lib.rs:451-465 | from any live entries, the id of an admitted one-shot token is refused as long as no decision is made at or after its earliest expiry |
| TokenPolicy.SameExpiryAdmittedOnce | crates/uat-policy/src/lib.rs:451-465 | in particular when both tokens expire together and the clock does not go backwards |
| WireTypes.HexValueOfDigits | crates/uat-core/src/types.rs:49-51 | the digits written for a number read back as that number |
| WireTypes.HexDigitsOfValue | crates/uat-core/src/types.rs:35-47 | the number read from digits is written as the same digits in lower case |
| WireTypes.TaskIdRoundTrip | crates/uat-core/src/types.rs:34-51 | task ids round trip; exactly the 32-digit strings are accepted, and print back in lower case |
| WireTypes.ToHexText | crates/uat-core/src/types.rs:49-51 | each of the 32 characters, as a digit of the number in lower case, most significant first |
| WireTypes.IsHexExactly | crates/uat-core/src/types.rs:35-47 | the digits that are read are those that are written, in either case |
| WireTypes.CredentialAcceptsExactly | crates/uat-core/src/types.rs:142-157 | accepted credentials are exactly the encodings of at most 2048 bytes, at most 2731 characters |
| WireTypes.BoundsExactly | crates/uat-core/src/types.rs:58-157 | 600000 ms, 64 bytes and 2048 decoded bytes are the last values accepted, with what each refusal reports |
| Base64.DecodeEncode | crates/uat-core/src/types.rs:166-170 | decoding undoes unpadded base64url (section 5 of RFC 4648) for all bytes |
| Base64.EncodeDecode | crates/uat-core/src/types.rs:142-157 | every accepted string is the encoding of what it decodes to |
| Base64.AcceptsExactlyEncodings | crates/uat-core/src/types.rs:142-157 | the accepted strings are exactly the encodings |
| Base64.AlphabetExactly | crates/uat-core/src/types.rs:166-170 | the 64 characters in their order |
| Base64.GroupIsNumber | crates/uat-core/src/types.rs:166-170 | four characters stand for the number that their three bytes make, most significant first |
| Base64.EncodeByGroups | crates/uat-core/src/types.rs:166-170 | what a whole group and each kind of last group are written as |
| Bytes.LengthFieldsAreBigEndian | crates/uat-core/src/codec.rs:128-133 | both length fields are big-endian |
| JsonObject.ReadQuoted | crates/uat-core/src/codec.rs:114-114 | a written string reads back, whatever its bytes and whatever follows |
| JsonObject.NumbersAreCanonical | crates/uat-core/src/codec.rs:186-187 | a number is read exactly from its decimal form without leading zeros, not followed by more of a number |
| JsonObject.EscapesExactly | crates/uat-core/src/codec.rs:186-187 | which characters may follow a backslash and what they stand for |
| JsonObject.UnicodeEscapeReads | crates/uat-core/src/codec.rs:186-187 | four hexadecimal digits name a code point, surrogates excepted |
| JsonObject.Utf8RoundTrip | crates/uat-core/src/codec.rs:186-187 | which is read as the shortest UTF-8 bytes of that code point (section 3 of RFC 3629) |
| JsonObject.EscapeTexts | crates/uat-core/src/codec.rs:114-114 | which bytes are written with an escape, and how |
| JsonObject.StringsHaveNoControls | crates/uat-core/src/codec.rs:186-187 | no string that is read holds a raw control character |
| JsonLayout.LayoutDoesNotMatter | crates/uat-core/src/codec.rs:186-187 | any spelling of the strings and any white space between the tokens gives the same members |
| JsonLayout.ReadObjectExactly | crates/uat-core/src/codec.rs:186-187 | the reader accepts exactly these layouts: a text is read as a list of members if and only if it is one of their layouts |
| JsonLayout.ObjectRoundTrip | crates/uat-core/src/codec.rs:186-187 | any flat object reads back as written, followed by white space and by nothing else |
| MessageHeader.TagDecides | crates/uat-core/src/message.rs:8-43 | the type member decides the variant, and no tag is taken for another |
| MessageHeader.MembersExactly | crates/uat-core/src/message.rs:8-43 | which members each header has, under which names and in which order |
| MessageHeader.NamesSpelled | crates/uat-core/src/message.rs:8-43 | the member names |
| MessageHeader.TagsSpelled | crates/uat-core/src/message.rs:8-43 | the name of each variant |
| MessageHeader.CodesSpelled | crates/uat-core/src/codes.rs:6-13 | the name of each failure code |
| MessageHeader.InterpretExactly | crates/uat-core/src/message.rs:8-43 | which lists of members stand for which message, if and only if |
| MessageHeader.ReadSubmitExactly | crates/uat-core/src/message.rs:12-20 | a Submit is read exactly when each of its members is there once and within its bound |
| MessageHeader.SubmitRoundTrip | crates/uat-core/src/message.rs:12-20 | all Submit members come back, absent credential included |
| MessageHeader.HeaderRoundTrip | crates/uat-core/src/message.rs:8-43 | every header reads back as its message without the body |
| MessageHeader.ReadHeader | crates/uat-core/src/message.rs:18-36 | no header, whatever its bytes, yields a body |
| MessageHeader.UnknownMembersIgnored | crates/uat-core/src/message.rs:8-10 | a member the protocol does not know changes nothing, wherever it stands |
| MessageHeader.OrderDoesNotMatter | crates/uat-core/src/message.rs:8-10 | any two blocks of members may trade places |
| MessageHeader.NullAndDoubledMembers | crates/uat-core/src/message.rs:12-20 | exactly an absent or null credential reads as none; a doubled member is refused |
| MessageHeader.SubmitHeaderLength | crates/uat-core/src/message.rs:12-20 | the exact size of a Submit header |
| MessageHeader.HeaderBounded | crates/uat-core/src/codec.rs:113-118 | no header exceeds 3226 bytes |
| MessageHeader.BoundIsReached | crates/uat-core/src/codec.rs:113-118 | and one has exactly that size |
| Codec.EncodeParts | crates/uat-core/src/codec.rs:115-134 | appends the whole frame or nothing |
| Codec.Encode | crates/uat-core/src/codec.rs:113-135 | the same for a message |
| Codec.EncodeFailsExactly | crates/uat-core/src/codec.rs:113-127 | the header limit is never hit; encoding fails exactly when two plus header plus body exceed 65536, and always as too large to encode |
| Codec.FramedFailsExactly | crates/uat-core/src/codec.rs:113-127 | for any header and body, which of the two limits is reported |
| Codec.FrameLayout | crates/uat-core/src/codec.rs:124-134 | where the two length fields, the header and the body stand in a frame, byte by byte |
| Codec.SplitOfParts | crates/uat-core/src/codec.rs:151-184 | nested length fields give back header and body, whatever follows |
| Codec.DecodeEncode | crates/uat-core/src/codec.rs:138-214 | an encoded frame followed by any bytes decodes to its message |
| Codec.SplitExactly | crates/uat-core/src/codec.rs:151-184 | framing is canonical: a buffer splits into a header and a body exactly when it starts with their frame |
| Codec.SplitFailsExactly | crates/uat-core/src/codec.rs:151-184 | which lengths are refused as too large, on the length field alone where that suffices, which as bad, which as truncated, and that all others are accepted |
| Codec.DecodedExactly | crates/uat-core/src/codec.rs:138-214 | once the lengths fit: which error a malformed header, a denied Submit and a stray body get, and that everything else decodes |
| Codec.TruncatedExactly | crates/uat-core/src/codec.rs:151-162 | truncated means exactly that more bytes can still change the answer |
| Codec.StrictPrefixTruncated | crates/uat-core/src/codec.rs:151-162 | every strict prefix of a frame is reported as truncated |
| Codec.TailIgnored | crates/uat-core/src/codec.rs:151-189 | for arbitrary bytes, once a buffer is not truncated nothing appended changes the result |
| Codec.BodyComesLast | crates/uat-core/src/codec.rs:191-214 | the authorizer sees a header without a body; what decodes has that header and the frame's own body |
| FrameIo.RecvStream.ReadExact | crates/uat-node/src/frame_io.rs:79-84 | takes exactly the bytes asked for, or reports how the stream ended |
| FrameIo.ReadFrame | crates/uat-node/src/frame_io.rs:42-60 | one frame off the stream and what is left: a length above 65536 is refused after exactly four bytes, an Ok frame is as long as its own length field says, and a stream that ends within a frame is used up |
| FrameIo.FrameReadExactly | crates/uat-node/src/frame_io.rs:42-60 | the same of every byte string, in both directions |
| FrameIo.ReadMessage | crates/uat-node/src/frame_io.rs:63-69 | the same, decoded |
| FrameIo.MessageReadExactly | crates/uat-node/src/frame_io.rs:63-69 | which errors reading a message can end in; truncation is not one of them, since the frame that is decoded is whole |
| FrameIo.WriteMessage | crates/uat-node/src/frame_io.rs:72-77 | writes the whole encoded frame or nothing |
| FrameIo.MessagesDelimit | crates/uat-node/src/frame_io.rs:42-69 | reading takes exactly one message off its frame, and every shorter stream is an error |
| FrameIo.CutStream | crates/uat-node/src/frame_io.rs:42-77 | a stream of messages cut anywhere yields exactly those whose frames arrived whole, and fails exactly when cut inside a frame |
| FrameIo.StreamRoundTrip | crates/uat-node/src/frame_io.rs:42-77 | a whole stream reads back as the list written, with nothing left over |
| SubmitPaths.AuthorizeSubmit | crates/uat-policy/src/lib.rs:601-608 | the policy's authorizer and its effect on the spent set |
| SubmitPaths.PolicyAllowsExactly | crates/uat-policy/src/lib.rs:601-608 | the authorizer allows exactly a bodiless Submit whose verdict is Ok, and touches the spent set only for such |
| SubmitPaths.DecodeWithPolicy | crates/uat-core/src/codec.rs:138-214 | decoding with that authorizer |
| SubmitPaths.AdmitFrame | crates/uat-node/src/call.rs:488-517 | split, verify the header, then attach the body |
| SubmitPaths.FrameAdmittedExactly | crates/uat-node/src/call.rs:488-517 | which error refuses a first frame, and that an admitted one is its header with its own body under the rule of the verdict |
| SubmitPaths.PathsAgree | crates/uat-policy/src/lib.rs:319-352 | on every byte string with a Submit header both paths admit alike, with the same message and the same spent set; on others neither touches the set |
| SubmitPaths.DeniedExactly | crates/uat-core/src/codec.rs:191-201 | the denial error is returned exactly for a Submit whose verdict is an error |
| SubmitPaths.BodyNeverDecides | crates/uat-node/src/call.rs:488-517 | frames with one header and different bodies get the same decision |
| CallErrors.ErrorOutcomesExplained | crates/uat-node/src/record.rs:256-273 | no error is recorded as success, and for each recorded outcome exactly which errors lead to it |
| CallRecords.CallRecordGuard.ObserveResult | crates/uat-node/src/record.rs:477-482 | the outcome of a finished call, errors mapped |
| CallRecords.CallRecordGuard.EmitNow | crates/uat-node/src/record.rs:489-519 | emits the current record unless one was emitted |
| CallRecords.CallRecordGuard.Drop | crates/uat-node/src/record.rs:522-526 | at the end of the scope exactly one record has been emitted |
| QuicCaller.RunCaller | crates/uat-node/src/call.rs:158-224 | on every exit path the sink gains exactly one record, the one `CallerRecord` names |
| QuicCaller.RunCallerGuarded | crates/uat-node/src/call.rs:177-223 | the guard's content on every exit path |
| QuicCaller.CallerLoop | crates/uat-node/src/call.rs:226-274 | result, time and task id after the Submit write |
| QuicCaller.SelectLoop | crates/uat-node/src/call.rs:275-374 | the loop computes `Turns`; a rate-limit close takes the task id off the record |
| QuicCaller.GoneSenderStarvesRead | crates/uat-node/src/call.rs:318-342 | while the cancel arm stays ready because its sender was dropped, nothing is read and the call ends in its timer |
| QuicCaller.TakeTurn | crates/uat-node/src/call.rs:282-372 | one biased select |
| QuicCaller.CallerFollowsDriver | crates/uat-node/src/call.rs:275-374 | on a network that delivers, the QUIC caller ends as the channel driver does on the same events |
| QuicCaller.SelectIsBiased | crates/uat-node/src/call.rs:282-347 | the select wakes at the first moment anything is ready, runs the first ready arm in the source's order, and that arm carries what it was ready with |
| QuicCaller.TurnExactly | crates/uat-node/src/call.rs:282-372 | what every turn comes to, by what is ready when it wakes: the result, the time, the state, whether a cancel is still possible and whether the task id goes |
| QuicCaller.ReadNeverTimesOut | crates/uat-node/src/call.rs:343-354 | the read's own timeout arm never wins against the call timer |
| QuicCaller.TurnIsTimely | crates/uat-node/src/call.rs:282-372 | one turn keeps the time bound and spends the one cancel |
| QuicCaller.CallerReturnsInTime | crates/uat-node/src/call.rs:246-354 | from the start of its timer the caller returns in less than twice its budget, for any script of events |
| QuicCaller.BoundIsTight | crates/uat-node/src/call.rs:318-335 | some run takes twice the budget less one millisecond |
| QuicCaller.OneBudgetExactly | crates/uat-node/src/call.rs:246-335 | the caller takes longer than one budget exactly when the loop is reached and a Cancel it sends is written past the budget; a call that cannot be cancelled never does |
| QuicCaller.RateLimitedTurns | crates/uat-node/src/call.rs:301-317 | within the loop a rate-limited outcome is recorded exactly when the task id was taken off |
| QuicCaller.OutboundRecordShape | crates/uat-node/src/call.rs:158-311 | an outbound record never claims authorization; it carries the Submit's own task id if and only if the Submit was written within the budget on an open stream, no rate-limit close was there by then, and the outcome is not a rate-limit close |
| QuicCaller.UnplacedCalls | crates/uat-node/src/call.rs:177-274 | the result and the recorded outcome of every call that ends before its loop |
| QuicCaller.UnplacedTime | crates/uat-node/src/call.rs:246-271 | and when it ends, once its stream is open |
| QuicCaller.RecordAgreesWithResult | crates/uat-node/src/call.rs:158-224 | the record says what the caller returns, except exactly when opening the stream failed on a closed connection, whose close code only the record keeps |
| QuicCaller.PlacedCallFollowsDriver | crates/uat-node/src/call.rs:226-374 | a call whose Submit was written ends as the channel driver does from its start, on the same events |
| QuicCaller.PlacedCallTakesTurns | crates/uat-node/src/call.rs:246-275 | its loop starts in Submitted at the moment the Submit was written, with the budget of deadline plus 5000 ms |
| QuicCaller.RateLimitDuringSubmit | crates/uat-node/src/call.rs:248-258 | what is recorded when the peer closed for the rate limit before or during the Submit write |
| QuicHandler.EmitCallee | crates/uat-node/src/call.rs:599-621 | the state moves on for every legal message, written or not; Ok exactly for a legal message written within the budget, otherwise which one thing went wrong; never longer than the budget |
| QuicHandler.EmitOpening | crates/uat-node/src/call.rs:544-565 | the opening messages of all four behaviours, up to the first that fails; when they are written in time, the state each behaviour is in then and the sum of the times |
| QuicHandler.OpeningsExactly | crates/uat-node/src/call.rs:544-565 | in every case: which state or which failure the opening ends in, and when |
| QuicHandler.StubCompletes | crates/uat-node/src/call.rs:545-553 | the default behaviour completes the call if and only if both of its writes succeed within the budget, at the sum of their times |
| QuicHandler.HangingBehaviors | crates/uat-node/src/call.rs:544-580 | the others enter their loop where their opening left them |
| QuicHandler.NothingHappens | crates/uat-node/src/call.rs:544-739 | and fail at their deadline when nothing happens |
| QuicHandler.WaitTerminal | crates/uat-node/src/call.rs:624-739 | the loop computes `Turns`, result and time, for every script of events |
| QuicHandler.SelectIsBiased | crates/uat-node/src/call.rs:643-695 | the select wakes at the first moment anything is ready, runs the first ready arm in the source's order, and that arm carries what it was ready with; the read's own budget never runs out first |
| QuicHandler.TurnExactly | crates/uat-node/src/call.rs:643-739 | what every turn comes to, by what is ready when it wakes: a shutdown, the deadline with its own message, a close, or a read |
| QuicHandler.ReadTurnExactly | crates/uat-node/src/call.rs:690-739 | what every read comes to: Cancel answered, input taken, a stream that ended, a frame that failed, or an illegal message |
| QuicHandler.CalleeReturnsInTime | crates/uat-node/src/call.rs:536-597 | the outcome of an admitted call is settled within two or three budgets, by the number of writes that can hold the loop, and the handler returns within the grace after that |
| QuicHandler.LastWaitExactly | crates/uat-node/src/call.rs:584-594 | the last wait ends at the first moment of a shutdown, the end of the connection, or five seconds |
| QuicHandler.AnsweredExactly | crates/uat-node/src/call.rs:566-597 | an error is returned at once, an outcome unchanged after the last wait |
| QuicHandler.CalleeBoundIsReached | crates/uat-node/src/call.rs:536-580 | the bound on settling the outcome is reached, for every behaviour and deadline |
| QuicHandler.DeadlineMissedExactly | crates/uat-node/src/call.rs:536-580 | the outcome is settled after the deadline exactly when the opening messages take longer than that or a message the loop writes is written past it |
| QuicHandler.QuickCalleeEndsByDeadline | crates/uat-node/src/call.rs:536-580 | in particular never when all writes are done at once |
| QuicHandler.LoopFollowsDriver | crates/uat-node/src/call.rs:624-739 | from any state the loop ends as the callee's turns do on the same wake-ups |
| QuicHandler.CalleeFollowsDriver | crates/uat-node/src/call.rs:523-739 | on a network that delivers, a whole admitted call ends as the channel driver's does on the same events if and only if it is not a silent handler whose connection ends |
| QuicCallee.HandleAuthorized | crates/uat-node/src/call.rs:523-597 | sets the task id and runs the call; its result and the time it returns, the last wait included |
| QuicCallee.CalleeLoop | crates/uat-node/src/call.rs:448-519 | result, task, authorization and spent set for every way the first frame can go |
| QuicCallee.RunCallee | crates/uat-node/src/call.rs:388-445 | on every exit path the sink gains exactly one record, the one `CalleeRecord` names |
| QuicCallee.AdmittedIsSubmit | crates/uat-policy/src/lib.rs:301-352 | an admitted frame holds a Submit, under the rule its header's verdict names |
| QuicCallee.InboundRecordShape | crates/uat-node/src/call.rs:388-534 | a record has a task exactly for an admitted Submit, with the rule verification returned; it is denied exactly at the gate or for a refused header, and then has no task |
| QuicCallee.InboundOutcome | crates/uat-node/src/call.rs:388-519 | the recorded outcome names the step an incoming call failed at, and with a task it is the outcome of the call |
| QuicCallee.FailedSteps | crates/uat-node/src/call.rs:388-519 | the result and the recorded outcome for every way the first frame can go |
| QuicCallee.SpentSetExactly | crates/uat-node/src/call.rs:388-519 | an incoming call changes the spent set by the verdict on the Submit of its first frame, and by nothing else |
| QuicCallee.ReasonsExactly | crates/uat-node/src/call.rs:396-445 | which records are denied by the gate, which keep the default, and which follow the frame |
| QuicCallee.ReasonOfFrame | crates/uat-node/src/call.rs:488-517 | and the reason a refused frame is logged with |
| QuicCallee.DefaultAuthorization | crates/uat-node/src/call.rs:396-402 | without a task and without a denial the record still reads as allowed by the allowlist |

## Left out

- RateLimitClocks.OrderedAnswersAsLedger: assumes readings that do not go backwards and deques below 2^32, neither of which the source promises; the results before it say exactly what holds without.
- RateLimitCap.SteadyNeverAboveCap: under an assumption on the readings; the exact count is `RateLimitCap.AdmittedInExactly`.
- SpentSet.AtMostOnce: assumes one expiry for each id and clocks in lock order; `SpentSet.ReplayExactly` assumes neither.
- SpentRaces.LazySetDecidesAsLedger: gives a sufficient condition on clocks and expiries; the exact one is `SpentRaces.AgreesExactly`.
- SpentRaces.LockOrderSuffices: likewise.
- TokenPolicy.SameExpiryAdmittedOnce: assumes one earliest expiry for both tokens and a clock that has not run ahead of the later call; `TokenPolicy.OneShotTwiceExactly` assumes neither.
- TokenPolicy.VerifyCredential: starts from the facts the token library returns; parsing, signatures, root key choice and Datalog are one unspecified function of the decoded credential.
- TokenPolicy.CheckExpires: a date of 2^63 seconds or more, for which adding to the epoch panics in the source, is an ordinary late date here.
- MessageHeader.HeaderRoundTrip: a content type is the bytes of its string; that they are valid UTF-8 is not checked.
- JsonLayout.ReadObjectExactly: the reader knows strings, unsigned integers and null in one flat object. Nested values, booleans, signed or fractional numbers in unknown members, surrogate-pair escapes and the array form of a tagged enumeration are read by the JSON library and rejected here.
- MessageHeader.UnknownMembersIgnored: an unknown member's value is a string, an unsigned integer or null, as above.
- TimedCall.GraceIsExact: the clock counts whole milliseconds and only the transit of Submit and of the last message is limited, with delivered messages read before the limit passes.
- ChannelCall.DriveCaller: the composed system also lets the caller answer a request for input, which the harness never does but the table allows. The arm for the harness's close notification, which nothing ever sends, is left out on both sides.
- QuicCaller.GoneSenderStarvesRead: how often a request channel without a sender can be polled is up to the runtime library; the script of events may let it be ready once, always, or not at all, and leaves out that a poll too many might panic.
- TimedCall.NoCallerTimeout: delivered messages are read before the transit limit passes, which a caller whose cancel sender was dropped may not do. `TimedCall.GraceIsExact` and `TimedCall.PromptCallsAgree` rest on it.
- ChannelCall.DriveCallee: handlers send whatever the table allows in the composed system, not only the four built-in behaviours; the driver itself has the four.
- QuicCaller.CallerFollowsDriver: says nothing of runs with a shutdown, a failed read or write, or a close other than normal, none of which the channel driver has.
- QuicHandler.LoopFollowsDriver: likewise.
- QuicHandler.CalleeFollowsDriver: likewise.
- QuicCaller.CallerReturnsInTime: a read abandoned by a cancel request loses the bytes it had taken; the script of events may deliver anything afterwards, so results of later reads are unconstrained.
- QuicCallee.CalleeLoop: the wait for the first frame has an outcome but no times.
- Connections, streams, dialing, relay paths, byte counters, round-trip times and timestamps of records: transport and measurement.
- `watch_second_stream`, the tracing, JSON and fan-out sinks: input and output only.
- Close codes sent to the peer: calls to `close_with` and `close_on_frame_err` change nothing the model observes.
- Lock poisoning and drops during a panic: each critical section is one atomic step, and the end of a scope is an explicit call.
- `FrameBuffer` and `inspect_submit`: a buffer holder and a view, without decisions of their own.
- The local socket protocol, node identity and wiring, command lines and the MCP bridge: plumbing around the parts above.
