/** The minute cap over whole runs: when it holds, and the two ways in which it does not. */
module RateLimitCap {
  import opened Bytes
  import opened WireTypes
  import opened RateLimit
  import opened RateLimitRuns
  import opened RateLimitClocks

  // ----- the minute cap -----

  /** Admissions of `peer` in the minute that starts at `from`. */
  function AdmittedIn(ops: seq<Op>, answers: seq<Answer>, peer: NodeId, from: Instant): nat
    requires |ops| == |answers|
  {
    if ops == [] then 0
    else
      Hit(ops[0], answers[0], peer, from) + AdmittedIn(ops[1..], answers[1..], peer, from)
  }

  function InWindow(times: seq<Instant>, from: Instant): nat {
    if times == [] then 0
    else InWindow(times[..|times| - 1], from) + if from <= times[|times| - 1] < from + WINDOW then 1 else 0
  }

  /** Any two attempts in one minute are within the window of each other, in whichever order they come. */
  lemma {:induction false} InWindowIsRecent(times: seq<Instant>, from: Instant, now: Instant)
    requires from <= now < from + WINDOW
    ensures InWindow(times, from) <= Recent(times, now)
    decreases |times|
  {
    if times != [] {
      InWindowIsRecent(times[..|times| - 1], from, now);
    }
  }

  lemma InWindowAppend(times: seq<Instant>, t: Instant, from: Instant)
    ensures InWindow(times + [t], from) == InWindow(times, from) + if from <= t < from + WINDOW then 1 else 0
  {
    assert (times + [t])[..|times|] == times;
  }

  function Hit(op: Op, answer: Answer, peer: NodeId, from: Instant): nat {
    if op.Try? && op.peer == peer && answer.Admitted? && from <= op.now < from + WINDOW then 1 else 0
  }

  lemma WindowGrows(times: seq<Instant>, now: Instant, from: Instant, seen: nat, cap: nat, admitted: bool)
    requires seen <= cap && seen <= InWindow(times, from)
    requires admitted ==> Recent(times, now) + 1 <= cap
    ensures var next := seen + if admitted && from <= now < from + WINDOW then 1 else 0;
            next <= cap && next <= InWindow(times + [now], from)
  {
    InWindowAppend(times, now, from);
    if from <= now < from + WINDOW {
      InWindowIsRecent(times, from, now);
    }
  }

  lemma LedgerTry(config: RateLimitConfig, l: Ledger, peer: NodeId, now: Instant)
    ensures var (next, answer) := LedgerDo(config, l, Try(peer, now));
            && next.attempts == l.attempts + [(peer, now)]
            && (answer.Admitted? ==> Recent(Times(l.attempts, peer), now) + 1 <= config.maxCallsPerMinute)
  {}

  lemma LedgerOther(config: RateLimitConfig, l: Ledger, op: Op, peer: NodeId, from: Instant)
    requires !op.Try?
    ensures var (next, answer) := LedgerDo(config, l, op);
            next.attempts == l.attempts && Hit(op, answer, peer, from) == 0
  {}

  lemma LedgerWindowStep(config: RateLimitConfig, l: Ledger, op: Op, peer: NodeId, from: Instant, seen: nat)
    requires seen <= config.maxCallsPerMinute && seen <= InWindow(Times(l.attempts, peer), from)
    ensures var (next, answer) := LedgerDo(config, l, op);
            var now := seen + Hit(op, answer, peer, from);
            now <= config.maxCallsPerMinute && now <= InWindow(Times(next.attempts, peer), from)
  {
    if op.Try? {
      var times := Times(l.attempts, peer);
      var (next, answer) := LedgerDo(config, l, op);
      LedgerTry(config, l, op.peer, op.now);
      TimesAppend(l.attempts, op.peer, op.now, peer);
      if op.peer == peer {
        assert Times(next.attempts, peer) == times + [op.now];
        WindowGrows(times, op.now, from, seen, config.maxCallsPerMinute, answer.Admitted?);
      } else {
        assert Times(next.attempts, peer) == times;
      }
    } else {
      LedgerOther(config, l, op, peer, from);
    }
  }

  /** The ledger keeps the cap in every minute, with any clocks. */
  lemma {:induction false} LedgerWindowBound(config: RateLimitConfig, l: Ledger, ops: seq<Op>,
                                             peer: NodeId, from: Instant, seen: nat)
    requires seen <= config.maxCallsPerMinute && seen <= InWindow(Times(l.attempts, peer), from)
    ensures seen + AdmittedIn(ops, LedgerAnswers(config, l, ops), peer, from) <= config.maxCallsPerMinute
    decreases |ops|
  {
    if ops != [] {
      var (next, answer) := LedgerDo(config, l, ops[0]);
      LedgerWindowStep(config, l, ops[0], peer, from, seen);
      LedgerWindowBound(config, next, ops[1..], peer, from, seen + Hit(ops[0], answer, peer, from));
      assert LedgerAnswers(config, l, ops)[1..] == LedgerAnswers(config, next, ops[1..]);
    }
  }

  /** No reading misses an attempt within the window. */
  predicate NothingMissed(log: seq<Reading>) {
    forall q :: 0 <= q < |log| ==> NoneReturns(log[..q], log[q].now)
  }

  lemma LimiterTry(config: RateLimitConfig, s: Node, log: seq<Reading>, peer: NodeId, now: Instant)
    requires Entry(s.counters, peer).attempts == Deque(log)
    requires NoneReturns(log, now) && |Pruned(Deque(log), now)| + 1 < U32_SIZE
    ensures Do(config, s, Try(peer, now)).1.Admitted? ==>
              Recent(AttemptTimes(log, 0), now) + 1 <= config.maxCallsPerMinute
  {
    CountAgainstHistory(log, now);
  }

  lemma LimiterWindowStep(config: RateLimitConfig, s: Node, log: seq<Reading>, op: Op, peer: NodeId, from: Instant,
                          seen: nat)
    requires Entry(s.counters, peer).attempts == Deque(log)
    requires seen <= config.maxCallsPerMinute && seen <= InWindow(AttemptTimes(log, 0), from)
    requires op.Try? && op.peer == peer ==> NoneReturns(log, op.now) && |Pruned(Deque(log), op.now)| + 1 < U32_SIZE
    ensures var now := seen + Hit(op, Do(config, s, op).1, peer, from);
            now <= config.maxCallsPerMinute && now <= InWindow(AttemptTimes(log + ReadingsOf(op, peer), 0), from)
  {
    if op.Try? && op.peer == peer {
      LimiterTry(config, s, log, peer, op.now);
      AttemptTimesAppend(log, Reading(op.now, true), 0);
      WindowGrows(AttemptTimes(log, 0), op.now, from, seen, config.maxCallsPerMinute, Do(config, s, op).1.Admitted?);
    } else if ReadingsOf(op, peer) == [] {
      assert log + [] == log;
    } else {
      AttemptTimesAppend(log, Reading(op.now, false), 0);
      assert AttemptTimes(log, 0) + [] == AttemptTimes(log, 0);
    }
  }

  lemma {:induction false} LimiterWindowBound(config: RateLimitConfig, s: Node, past: seq<Op>, ops: seq<Op>,
                                              peer: NodeId, from: Instant, seen: nat)
    requires Entry(s.counters, peer).attempts == Deque(Readings(past, peer))
    requires NothingMissed(Readings(past + ops, peer)) && Fits(Readings(past + ops, peer))
    requires seen <= config.maxCallsPerMinute && seen <= InWindow(AttemptTimes(Readings(past, peer), 0), from)
    ensures seen + AdmittedIn(ops, Answers(config, s, ops), peer, from) <= config.maxCallsPerMinute
    decreases |ops|
  {
    if ops != [] {
      var op, rest, log := ops[0], ops[1..], Readings(past, peer);
      assert [op] + rest == ops && past + [op] + rest == past + ops;
      if op.Try? && op.peer == peer {
        ReadingAt(past, op, rest, peer);
        var all := Readings(past + ops, peer);
        assert NoneReturns(all[..|log|], all[|log|].now);
      }
      LimiterWindowStep(config, s, log, op, peer, from, seen);
      StepReadings(past, op, peer);
      StepDeque(config, s, op, peer, log);
      var step := Do(config, s, op);
      LimiterWindowBound(config, step.0, past + [op], rest, peer, from, seen + Hit(op, step.1, peer, from));
      assert Answers(config, s, ops)[1..] == Answers(config, step.0, rest);
    }
  }

  /**
   Sliding-window safety: however attempts, refusals, releases, window queries, entry removals and
   other peers interleave, and with any clocks, a peer is not admitted more often than the cap in any
   minute [from, from + 60 s), as long as none of its readings misses an attempt it has dropped.
   */
  lemma NeverAboveCapInAnyMinute(config: RateLimitConfig, ops: seq<Op>, peer: NodeId, from: Instant)
    requires NothingMissed(Readings(ops, peer)) && Fits(Readings(ops, peer))
    ensures AdmittedIn(ops, Answers(config, EMPTY_NODE, ops), peer, from) <= config.maxCallsPerMinute
  {
    assert [] + ops == ops;
    LimiterWindowBound(config, EMPTY_NODE, [], ops, peer, from, 0);
  }

  /** In particular when an attempt once outside the window stays outside, as when readings never go backwards. */
  lemma SteadyNeverAboveCap(config: RateLimitConfig, ops: seq<Op>, peer: NodeId, from: Instant)
    requires OutStaysOut(Readings(ops, peer)) && Fits(Readings(ops, peer))
    ensures AdmittedIn(ops, Answers(config, EMPTY_NODE, ops), peer, from) <= config.maxCallsPerMinute
    ensures Ordered(Readings(ops, peer)) ==> OutStaysOut(Readings(ops, peer))
  {
    var log := Readings(ops, peer);
    forall q | 0 <= q < |log| ensures NoneReturns(log[..q], log[q].now) {
      OutMeansNoneReturns(log, q);
    }
    NeverAboveCapInAnyMinute(config, ops, peer, from);
  }

  // ----- exactly how many are admitted in a minute -----

  /** The q-th reading is an attempt of the minute that starts at `from`, and its count is within the cap. */
  predicate PassesCap(config: RateLimitConfig, log: seq<Reading>, q: nat, from: Instant) {
    && q < |log| && log[q].attempt && from <= log[q].now < from + WINDOW
    && (|Pruned(Deque(log[..q]), log[q].now)| + 1) % U32_SIZE <= config.maxCallsPerMinute
  }

  /** How many attempts of that minute pass the cap: a function of the peer's readings alone. */
  function PassingIn(config: RateLimitConfig, log: seq<Reading>, from: Instant): nat {
    if log == [] then 0
    else PassingIn(config, log[..|log| - 1], from) + if PassesCap(config, log, |log| - 1, from) then 1 else 0
  }

  /** Attempts of that minute refused for one of the other two caps. */
  function OtherwiseRefusedIn(ops: seq<Op>, answers: seq<Answer>, peer: NodeId, from: Instant): nat
    requires |ops| == |answers|
  {
    if ops == [] then 0
    else
      OtherwiseRefused(ops[0], answers[0], peer, from) + OtherwiseRefusedIn(ops[1..], answers[1..], peer, from)
  }

  function OtherwiseRefused(op: Op, answer: Answer, peer: NodeId, from: Instant): nat {
    if op.Try? && op.peer == peer && (answer == Refused(ConcurrentCalls) || answer == Refused(LiveFrames))
       && from <= op.now < from + WINDOW then 1 else 0
  }

  lemma PassingAppend(config: RateLimitConfig, log: seq<Reading>, r: Reading, from: Instant)
    ensures PassingIn(config, log + [r], from)
         == PassingIn(config, log, from) + if PassesCap(config, log + [r], |log|, from) then 1 else 0
  {
    assert (log + [r])[..|log|] == log;
  }

  lemma PassesLast(config: RateLimitConfig, log: seq<Reading>, r: Reading, from: Instant)
    ensures PassesCap(config, log + [r], |log|, from) <==>
            && r.attempt && from <= r.now < from + WINDOW
            && (|Pruned(Deque(log), r.now)| + 1) % U32_SIZE <= config.maxCallsPerMinute
  {
    assert (log + [r])[..|log|] == log;
  }

  lemma CapDecides(config: RateLimitConfig, s: Node, peer: NodeId, now: Instant)
    ensures Do(config, s, Try(peer, now)).1 == Refused(CallsPerMinute) <==>
            (|Pruned(Entry(s.counters, peer).attempts, now)| + 1) % U32_SIZE > config.maxCallsPerMinute
    ensures var answer := Do(config, s, Try(peer, now)).1; answer.Admitted? || answer.Refused?
  {}

  lemma NoReading(config: RateLimitConfig, s: Node, op: Op, peer: NodeId, from: Instant)
    requires !op.Try? || op.peer != peer
    ensures Hit(op, Do(config, s, op).1, peer, from) == 0 && OtherwiseRefused(op, Do(config, s, op).1, peer, from) == 0
    ensures ReadingsOf(op, peer) == [] || (|ReadingsOf(op, peer)| == 1 && !ReadingsOf(op, peer)[0].attempt)
  {}

  lemma OwnTry(config: RateLimitConfig, s: Node, peer: NodeId, now: Instant, from: Instant)
    ensures var answer := Do(config, s, Try(peer, now)).1;
            Hit(Try(peer, now), answer, peer, from) + OtherwiseRefused(Try(peer, now), answer, peer, from) ==
            if from <= now < from + WINDOW && answer != Refused(CallsPerMinute) then 1 else 0
  {
    var answer := Do(config, s, Try(peer, now)).1;
    assert answer.Admitted? || answer.Refused?;
  }

  lemma PassingTry(config: RateLimitConfig, log: seq<Reading>, now: Instant, from: Instant, refused: bool)
    requires refused <==> (|Pruned(Deque(log), now)| + 1) % U32_SIZE > config.maxCallsPerMinute
    ensures PassingIn(config, log + [Reading(now, true)], from)
         == PassingIn(config, log, from) + if from <= now < from + WINDOW && !refused then 1 else 0
  {
    PassingAppend(config, log, Reading(now, true), from);
    PassesLast(config, log, Reading(now, true), from);
  }

  lemma PassingQuery(config: RateLimitConfig, log: seq<Reading>, r: Reading, from: Instant)
    requires !r.attempt
    ensures PassingIn(config, log + [r], from) == PassingIn(config, log, from)
  {
    PassingAppend(config, log, r, from);
  }

  lemma PassingStep(config: RateLimitConfig, s: Node, log: seq<Reading>, op: Op, peer: NodeId, from: Instant)
    requires Entry(s.counters, peer).attempts == Deque(log)
    ensures PassingIn(config, log + ReadingsOf(op, peer), from)
         == PassingIn(config, log, from) + Hit(op, Do(config, s, op).1, peer, from)
            + OtherwiseRefused(op, Do(config, s, op).1, peer, from)
  {
    if op.Try? && op.peer == peer {
      CapDecides(config, s, peer, op.now);
      OwnTry(config, s, peer, op.now, from);
      PassingTry(config, log, op.now, from, Do(config, s, op).1 == Refused(CallsPerMinute));
    } else {
      NoReading(config, s, op, peer, from);
      if ReadingsOf(op, peer) == [] {
        assert log + [] == log;
      } else {
        assert ReadingsOf(op, peer) == [ReadingsOf(op, peer)[0]];
        PassingQuery(config, log, ReadingsOf(op, peer)[0], from);
      }
    }
  }

  lemma {:induction false} PassingRun(config: RateLimitConfig, s: Node, past: seq<Op>, ops: seq<Op>,
                                      peer: NodeId, from: Instant)
    requires Entry(s.counters, peer).attempts == Deque(Readings(past, peer))
    ensures PassingIn(config, Readings(past + ops, peer), from)
         == PassingIn(config, Readings(past, peer), from)
            + AdmittedIn(ops, Answers(config, s, ops), peer, from)
            + OtherwiseRefusedIn(ops, Answers(config, s, ops), peer, from)
    decreases |ops|
  {
    if ops == [] {
      assert past + ops == past;
    } else {
      var op, rest, log := ops[0], ops[1..], Readings(past, peer);
      assert past + [op] + rest == past + ops;
      var step := Do(config, s, op);
      PassingStep(config, s, log, op, peer, from);
      StepReadings(past, op, peer);
      StepDeque(config, s, op, peer, log);
      PassingRun(config, step.0, past + [op], rest, peer, from);
      assert Answers(config, s, ops)[1..] == Answers(config, step.0, rest);
    }
  }

  /**
   With any clocks, caps and interleavings: of the attempts of a minute, exactly those are admitted that
   find a count within the cap and are not refused for one of the other two caps.
   */
  lemma AdmittedInExactly(config: RateLimitConfig, ops: seq<Op>, peer: NodeId, from: Instant)
    ensures var answers := Answers(config, EMPTY_NODE, ops);
            PassingIn(config, Readings(ops, peer), from) ==
            AdmittedIn(ops, answers, peer, from) + OtherwiseRefusedIn(ops, answers, peer, from)
  {
    assert [] + ops == ops;
    PassingRun(config, EMPTY_NODE, [], ops, peer, from);
  }

  lemma {:induction false} HeldAtMostAll(permits: seq<Permit>, peer: NodeId)
    ensures Outstanding(permits, peer) <= |permits|
    decreases |permits|
  {
    if permits != [] {
      HeldAtMostAll(permits[..|permits| - 1], peer);
    }
  }

  lemma {:induction false} RoomForAll(config: RateLimitConfig, s: Node, ops: seq<Op>, peer: NodeId, from: Instant)
    requires PermitInv(config, s)
    requires |s.permits| + |ops| <= config.maxConcurrentCalls && |s.permits| + |ops| <= config.maxLiveFrames
    ensures OtherwiseRefusedIn(ops, Answers(config, s, ops), peer, from) == 0
    decreases |ops|
  {
    if ops != [] {
      var step := Do(config, s, ops[0]);
      if ops[0].Try? {
        HeldAtMostAll(s.permits, ops[0].peer);
        assert Entry(s.counters, ops[0].peer).inFlight == Outstanding(s.permits, ops[0].peer);
      }
      DoKeepsPermits(config, s, ops[0]);
      RoomForAll(config, step.0, ops[1..], peer, from);
      assert Answers(config, s, ops)[1..] == Answers(config, step.0, ops[1..]);
    }
  }

  /** While the deque fits, an attempt passes exactly when it finds fewer than `cap` attempts kept. */
  lemma PassesWhenFewKept(config: RateLimitConfig, log: seq<Reading>, q: nat, from: Instant)
    requires Fits(log) && q < |log|
    ensures PassesCap(config, log, q, from) <==>
            && log[q].attempt && from <= log[q].now < from + WINDOW
            && |Pruned(Deque(log[..q]), log[q].now)| < config.maxCallsPerMinute
  {}

  /**
   The cap is kept in a minute if and only if no more attempts than the cap find a count within it,
   besides those that the other two caps refuse.
   */
  lemma CapKeptExactly(config: RateLimitConfig, ops: seq<Op>, peer: NodeId, from: Instant)
    ensures var answers, cap := Answers(config, EMPTY_NODE, ops), config.maxCallsPerMinute;
            AdmittedIn(ops, answers, peer, from) <= cap <==>
            PassingIn(config, Readings(ops, peer), from) <= cap + OtherwiseRefusedIn(ops, answers, peer, from)
  {
    AdmittedInExactly(config, ops, peer, from);
  }

  /** In a run too short for the other caps to bind, the peer's readings alone decide. */
  lemma CapKeptByReadings(config: RateLimitConfig, ops: seq<Op>, peer: NodeId, from: Instant)
    requires |ops| <= config.maxConcurrentCalls && |ops| <= config.maxLiveFrames
    ensures AdmittedIn(ops, Answers(config, EMPTY_NODE, ops), peer, from)
         == PassingIn(config, Readings(ops, peer), from)
  {
    AdmittedInExactly(config, ops, peer, from);
    EmptyPermits(config);
    RoomForAll(config, EMPTY_NODE, ops, peer, from);
  }

  // The clock is read before the table is locked, so readings can arrive out of order.

  const SECOND: nat := 1_000_000_000

  const TWO_A_MINUTE: RateLimitConfig := RateLimitConfig(100, 2, 100)

  /** The cap is exceeded: a late reading has dropped two attempts that an earlier one then misses. */
  function OvertakenByLater(peer: NodeId): seq<Op> {
    [Try(peer, 0), Try(peer, SECOND), Try(peer, 61 * SECOND), Try(peer, 2 * SECOND)]
  }

  function Holding(peer: NodeId, attempts: seq<Instant>, permits: seq<Permit>): Node
    requires |permits| < U32_SIZE
  {
    Node(map[peer := PeerCounters(|permits|, attempts)], permits)
  }

  lemma AdmitsOneMore(peer: NodeId, s: Node, attempts: seq<Instant>, permits: seq<Permit>, now: Instant)
    requires |permits| < 100 && Entry(s.counters, peer) == PeerCounters(|permits|, attempts) && s.permits == permits
    requires s.counters == map[] || s.counters == map[peer := PeerCounters(|permits|, attempts)]
    requires |Pruned(attempts, now)| < 2
    ensures Do(TWO_A_MINUTE, s, Try(peer, now)) ==
            (Holding(peer, Pruned(attempts, now) + [now], permits + [Permit(peer, false)]), Admitted)
  {
    var next := PeerCounters(|permits| + 1, Pruned(attempts, now) + [now]);
    assert WithAttempt(Entry(s.counters, peer), now) == next.(inFlight := |permits|);
    assert s.counters[peer := next] == map[peer := next];
  }

  lemma TwoDropped(a: Instant, b: Instant, now: Instant)
    requires Age(now, a) >= WINDOW && Age(now, b) >= WINDOW
    ensures Pruned([a, b], now) == []
  {
    assert [a, b][1..] == [b] && [b][1..] == [];
    assert Pruned([b], now) == Pruned([], now) == [];
  }

  lemma OneKept(t: Instant, now: Instant)
    requires Age(now, t) < WINDOW
    ensures Pruned([t], now) == [t]
  {}

  lemma OvertakenAnswers(peer: NodeId)
    ensures Answers(TWO_A_MINUTE, EMPTY_NODE, OvertakenByLater(peer)) == [Admitted, Admitted, Admitted, Admitted]
  {
    var ops, p := OvertakenByLater(peer), Permit(peer, false);
    var t0, t1, t2, t3 := ops[0].now, ops[1].now, ops[2].now, ops[3].now;
    AdmitsOneMore(peer, EMPTY_NODE, [], [], t0);
    var s1 := Holding(peer, [t0], [p]);
    assert [] + [p] == [p] && Pruned([], t0) + [t0] == [t0];
    OneKept(t0, t1);
    AdmitsOneMore(peer, s1, [t0], [p], t1);
    var s2 := Holding(peer, [t0, t1], [p, p]);
    assert [p] + [p] == [p, p] && [t0] + [t1] == [t0, t1];
    TwoDropped(t0, t1, t2);
    AdmitsOneMore(peer, s2, [t0, t1], [p, p], t2);
    var s3 := Holding(peer, [t2], [p, p, p]);
    assert [p, p] + [p] == [p, p, p] && [] + [t2] == [t2];
    OneKept(t2, t3);
    AdmitsOneMore(peer, s3, [t2], [p, p, p], t3);
    FourAnswers(ops, s1, s2, s3);
  }

  lemma FourAnswers(ops: seq<Op>, s1: Node, s2: Node, s3: Node)
    requires |ops| == 4
    requires Do(TWO_A_MINUTE, EMPTY_NODE, ops[0]) == (s1, Admitted) && Do(TWO_A_MINUTE, s1, ops[1]) == (s2, Admitted)
    requires Do(TWO_A_MINUTE, s2, ops[2]) == (s3, Admitted) && Do(TWO_A_MINUTE, s3, ops[3]).1 == Admitted
    ensures Answers(TWO_A_MINUTE, EMPTY_NODE, ops) == [Admitted, Admitted, Admitted, Admitted]
  {
    assert ops[1..][1..] == ops[2..] && ops[2..][1..] == ops[3..] && ops[3..][1..] == [];
    assert Answers(TWO_A_MINUTE, s3, ops[3..]) == [Admitted];
    assert Answers(TWO_A_MINUTE, s2, ops[2..]) == [Admitted, Admitted];
    assert Answers(TWO_A_MINUTE, s1, ops[1..]) == [Admitted, Admitted, Admitted];
  }

  /** Three admissions in one minute where two are allowed. */
  lemma CapLeaksOutOfOrder(peer: NodeId)
    ensures var ops := OvertakenByLater(peer);
            && AdmittedIn(ops, Answers(TWO_A_MINUTE, EMPTY_NODE, ops), peer, 0) == 3 > TWO_A_MINUTE.maxCallsPerMinute
            && !NothingMissed(Readings(ops, peer))
  {
    var ops := OvertakenByLater(peer);
    OvertakenAnswers(peer);
    var yes := [Admitted, Admitted, Admitted, Admitted];
    assert ops[1..][1..] == ops[2..] && ops[2..][1..] == ops[3..] && ops[3..][1..] == [];
    assert yes[1..][1..] == yes[2..] && yes[2..][1..] == yes[3..] && yes[3..][1..] == [];
    assert AdmittedIn(ops[3..], yes[3..], peer, 0) == 1;
    assert AdmittedIn(ops[2..], yes[2..], peer, 0) == 1;
    assert AdmittedIn(ops[1..], yes[1..], peer, 0) == 2;
    if NothingMissed(Readings(ops, peer)) {
      var log := Readings(ops, peer);
      assert Readings(ops[3..], peer) == [Reading(2 * SECOND, true)];
      assert Readings(ops[2..], peer) == [Reading(61 * SECOND, true)] + Readings(ops[3..], peer);
      assert Readings(ops[1..], peer) == [Reading(SECOND, true)] + Readings(ops[2..], peer);
      OvertakenFits(log);
      NeverAboveCapInAnyMinute(TWO_A_MINUTE, ops, peer, 0);
    }
  }

  lemma {:induction false} AtMostAll(log: seq<Reading>, i: nat)
    requires i <= |log|
    ensures |AttemptTimes(log, i)| <= |log| - i
    decreases |log| - i
  {
    if i < |log| {
      AtMostAll(log, i + 1);
    }
  }

  /** Four readings are far from 2^32. */
  lemma OvertakenFits(log: seq<Reading>)
    requires |log| == 4
    ensures Fits(log)
  {
    forall q | 0 <= q < |log| ensures |Pruned(Deque(log[..q]), log[q].now)| + 1 < U32_SIZE {
      CountedExactly(log[..q], log[q].now);
      AtMostAll(log[..q], Cut(log[..q], log[q].now));
    }
  }

  /** A call is refused needlessly: an attempt that arrives late hides an old one behind it. */
  function OutOfOrder(peer: NodeId): seq<Op> {
    [Try(peer, 100 * SECOND), Try(peer, 10 * SECOND), Try(peer, 80 * SECOND)]
  }

  lemma OutOfOrderRefused(peer: NodeId)
    ensures Answers(TWO_A_MINUTE, EMPTY_NODE, OutOfOrder(peer))[2] == Refused(CallsPerMinute)
  {
    var ops := OutOfOrder(peer);
    var t0, t1, t2 := ops[0].now, ops[1].now, ops[2].now;
    var s1 := Node(map[peer := PeerCounters(1, [t0])], [Permit(peer, false)]);
    assert [] + [Permit(peer, false)] == s1.permits && Pruned([], t0) + [t0] == [t0];
    assert Do(TWO_A_MINUTE, EMPTY_NODE, ops[0]).0 == s1;
    var s2 := Node(map[peer := PeerCounters(2, [t0, t1])], [Permit(peer, false), Permit(peer, false)]);
    assert s1.permits + [Permit(peer, false)] == s2.permits && Pruned([t0], t1) + [t1] == [t0, t1];
    assert Do(TWO_A_MINUTE, s1, ops[1]).0 == s2;
    assert Pruned([t0, t1], t2) == [t0, t1];
    assert Do(TWO_A_MINUTE, s2, ops[2]).1 == Refused(CallsPerMinute);
    assert ops[1..][1..] == ops[2..];
    assert Answers(TWO_A_MINUTE, s2, ops[2..])[0] == Refused(CallsPerMinute);
    assert Answers(TWO_A_MINUTE, s1, ops[1..])[1] == Refused(CallsPerMinute);
  }

  lemma OneRecent(t: Instant, now: Instant)
    requires Age(now, t) < WINDOW
    ensures Recent([t], now) == 1
  {
    assert [t][..0] == [];
  }

  lemma OutOfOrderTimes(peer: NodeId)
    ensures var t0, t1, t2 := 100 * SECOND, 10 * SECOND, 80 * SECOND;
            && Times([(peer, t0)], peer) == [t0] && Recent([t0], t1) == 1
            && Times([(peer, t0), (peer, t1)], peer) == [t0, t1] && Recent([t0, t1], t2) == 1
  {
    var t0, t1, t2 := 100 * SECOND, 10 * SECOND, 80 * SECOND;
    TimesAppend([], peer, t0, peer);
    assert [] + [(peer, t0)] == [(peer, t0)];
    TimesAppend([(peer, t0)], peer, t1, peer);
    assert [(peer, t0)] + [(peer, t1)] == [(peer, t0), (peer, t1)];
    OneRecent(t0, t1);
    OneRecent(t0, t2);
    assert [t0, t1][..1] == [t0];
  }

  lemma TwoHeld(p: Permit)
    requires !p.released
    ensures Outstanding([p], p.peer) == 1 && Outstanding([p, p], p.peer) == 2
  {
    assert [p][..0] == [] && [p, p][..1] == [p];
  }

  lemma OutOfOrderAdmittedByLedger(peer: NodeId)
    ensures LedgerAnswers(TWO_A_MINUTE, EMPTY_LEDGER, OutOfOrder(peer))[2] == Admitted
  {
    var ops := OutOfOrder(peer);
    var t0, t1 := ops[0].now, ops[1].now;
    var p := Permit(peer, false);
    OutOfOrderTimes(peer);
    TwoHeld(p);
    var l1 := Ledger([(peer, t0)], [p]);
    assert LedgerDo(TWO_A_MINUTE, EMPTY_LEDGER, ops[0]).0 == l1;
    var l2 := Ledger([(peer, t0), (peer, t1)], [p, p]);
    assert LedgerDo(TWO_A_MINUTE, l1, ops[1]).0 == l2;
    assert LedgerDo(TWO_A_MINUTE, l2, ops[2]).1 == Admitted;
    ThirdAnswer(l1, l2, ops);
  }

  lemma ThirdAnswer(l1: Ledger, l2: Ledger, ops: seq<Op>)
    requires |ops| == 3
    requires LedgerDo(TWO_A_MINUTE, EMPTY_LEDGER, ops[0]).0 == l1 && LedgerDo(TWO_A_MINUTE, l1, ops[1]).0 == l2
    ensures LedgerAnswers(TWO_A_MINUTE, EMPTY_LEDGER, ops)[2] == LedgerDo(TWO_A_MINUTE, l2, ops[2]).1
  {
    assert ops[1..][1..] == ops[2..];
    var second := LedgerDo(TWO_A_MINUTE, l1, ops[1]).1;
    assert LedgerAnswers(TWO_A_MINUTE, l1, ops[1..]) == [second] + LedgerAnswers(TWO_A_MINUTE, l2, ops[2..]);
  }

  // ----- the 32-bit count -----

  /**
   On one deque the minute cap leaks exactly when the deque has reached 2^32 attempts and its length cut
   to 32 bits is back within the cap.
   */
  lemma CapLeaksExactlyOnWrap(config: RateLimitConfig, e: PeerCounters)
    ensures |e.attempts| > config.maxCallsPerMinute && Refusal(config, e) != Some(CallsPerMinute) <==>
            |e.attempts| >= U32_SIZE && |e.attempts| % U32_SIZE <= config.maxCallsPerMinute
  {}

  function Attempts(peer: NodeId, now: Instant, n: nat): seq<Op> {
    seq(n, i => Try(peer, now))
  }

  /** The other two caps leave room for one call more than the minute cap. */
  predicate RoomForOneMore(config: RateLimitConfig) {
    config.maxCallsPerMinute < config.maxConcurrentCalls && config.maxCallsPerMinute < config.maxLiveFrames
  }

  function HeldAfter(config: RateLimitConfig, m: nat): u32 {
    if m <= config.maxCallsPerMinute then m else config.maxCallsPerMinute
  }

  /** The node after `m` attempts at one moment. */
  function Flooded(config: RateLimitConfig, peer: NodeId, now: Instant, m: nat): Node {
    if m == 0 then EMPTY_NODE
    else Node(map[peer := PeerCounters(HeldAfter(config, m), seq(m, i => now))],
              seq(HeldAfter(config, m), i => Permit(peer, false)))
  }

  lemma FreshStay(m: nat, now: Instant)
    ensures Pruned(seq(m, i => now), now) == seq(m, i => now)
  {}

  lemma FloodStep(config: RateLimitConfig, peer: NodeId, now: Instant, m: nat)
    requires RoomForOneMore(config) && m < U32_SIZE
    ensures var d := Do(config, Flooded(config, peer, now, m), Try(peer, now));
            && (d.1.Admitted? <==> m < config.maxCallsPerMinute || m == U32_SIZE - 1)
            && (m < U32_SIZE - 1 ==> d.0 == Flooded(config, peer, now, m + 1))
  {
    var s := Flooded(config, peer, now, m);
    var held := HeldAfter(config, m);
    FreshStay(m, now);
    assert Entry(s.counters, peer) == PeerCounters(held, seq(m, i => now));
    assert seq(m, i => now) + [now] == seq(m + 1, i => now);
    assert s.permits == seq(held, i => Permit(peer, false));
    assert s.permits + [Permit(peer, false)] == seq(held + 1, i => Permit(peer, false));
  }

  lemma {:induction false} FloodRun(config: RateLimitConfig, peer: NodeId, now: Instant, m: nat)
    requires RoomForOneMore(config) && m < U32_SIZE
    ensures AdmittedIn(Attempts(peer, now, U32_SIZE - m),
                       Answers(config, Flooded(config, peer, now, m), Attempts(peer, now, U32_SIZE - m)), peer, now)
         == config.maxCallsPerMinute + 1 - HeldAfter(config, m)
    decreases U32_SIZE - m
  {
    var s, ops := Flooded(config, peer, now, m), Attempts(peer, now, U32_SIZE - m);
    var d := Do(config, s, ops[0]);
    FloodStep(config, peer, now, m);
    assert ops[1..] == Attempts(peer, now, U32_SIZE - m - 1);
    assert Answers(config, s, ops)[1..] == Answers(config, d.0, ops[1..]);
    if m < U32_SIZE - 1 {
      FloodRun(config, peer, now, m + 1);
    }
  }

  /** A run that exceeds the cap: after 2^32 - 1 attempts at one moment the next one is admitted once more. */
  lemma CapLeaksAfterWrap(config: RateLimitConfig, peer: NodeId, now: Instant)
    requires RoomForOneMore(config)
    ensures var ops := Attempts(peer, now, U32_SIZE);
            AdmittedIn(ops, Answers(config, EMPTY_NODE, ops), peer, now) == config.maxCallsPerMinute + 1
  {
    FloodRun(config, peer, now, 0);
  }
}
