/**
 The sliding window over whole runs and any clock readings: what the front-pruned deque holds, when
 what it counts is right, and what follows for the answers and for the minute cap.
 */
module RateLimitClocks {
  import opened Bytes
  import opened WireTypes
  import opened RateLimit
  import opened RateLimitRuns

  // ----- one peer's clock readings -----

  /** A reading that prunes the peer's deque; an attempt is then also recorded. */
  datatype Reading = Reading(now: Instant, attempt: bool)

  function ReadingsOf(op: Op, peer: NodeId): seq<Reading> {
    match op
    case Try(p, now) => if p == peer then [Reading(now, true)] else []
    case Window(p, now) => if p == peer then [Reading(now, false)] else []
    case DropPermit(_) => []
  }

  function Readings(ops: seq<Op>, peer: NodeId): seq<Reading> {
    if ops == [] then [] else ReadingsOf(ops[0], peer) + Readings(ops[1..], peer)
  }

  /** The e-th reading is an attempt, still within the window at `now`. */
  predicate Young(log: seq<Reading>, e: nat, now: Instant) {
    e < |log| && log[e].attempt && Age(now, log[e].now) < WINDOW
  }

  predicate Attempt(log: seq<Reading>, e: nat) {
    e < |log| && log[e].attempt
  }

  /** From `i` on, the first attempt within the window; the end if there is none. */
  function FirstYoung(log: seq<Reading>, i: nat, now: Instant): (r: nat)
    requires i <= |log|
    ensures i <= r <= |log|
    ensures forall h :: i <= h < r ==> !Young(log, h, now)
    ensures r < |log| ==> Young(log, r, now)
    decreases |log| - i
  {
    if i < |log| && !Young(log, i, now) then FirstYoung(log, i + 1, now) else i
  }

  /** The deque holds the attempts from here on. */
  function From(log: seq<Reading>): (r: nat)
    ensures r <= |log|
    ensures log != [] ==> r < |log|
  {
    if log == [] then 0
    else var before := log[..|log| - 1]; FirstYoung(before, From(before), log[|log| - 1].now)
  }

  /** When the attempts from the i-th reading on were made. */
  function AttemptTimes(log: seq<Reading>, i: nat): seq<Instant>
    requires i <= |log|
    decreases |log| - i
  {
    if i == |log| then [] else (if log[i].attempt then [log[i].now] else []) + AttemptTimes(log, i + 1)
  }

  function Deque(log: seq<Reading>): seq<Instant> {
    AttemptTimes(log, From(log))
  }

  lemma {:induction false} AttemptTimesAppend(log: seq<Reading>, r: Reading, i: nat)
    requires i <= |log|
    ensures AttemptTimes(log + [r], i) == AttemptTimes(log, i) + if r.attempt then [r.now] else []
    decreases |log| - i
  {
    if i < |log| {
      AttemptTimesAppend(log, r, i + 1);
    } else {
      assert AttemptTimes(log + [r], i + 1) == [];
    }
  }

  /** Pruning the deque's front moves on to the first attempt within the window. */
  lemma {:induction false} PrunedIsFirstYoung(log: seq<Reading>, i: nat, now: Instant)
    requires i <= |log|
    ensures Pruned(AttemptTimes(log, i), now) == AttemptTimes(log, FirstYoung(log, i, now))
    decreases |log| - i
  {
    if i < |log| {
      var times := AttemptTimes(log, i);
      if !log[i].attempt {
        assert times == AttemptTimes(log, i + 1);
        PrunedIsFirstYoung(log, i + 1, now);
      } else if !Young(log, i, now) {
        assert times[1..] == AttemptTimes(log, i + 1);
        PrunedIsFirstYoung(log, i + 1, now);
      }
    }
  }

  lemma DequeAppend(log: seq<Reading>, r: Reading)
    ensures Deque(log + [r]) == Pruned(Deque(log), r.now) + if r.attempt then [r.now] else []
  {
    assert (log + [r])[..|log|] == log;
    var cut := FirstYoung(log, From(log), r.now);
    PrunedIsFirstYoung(log, From(log), r.now);
    AttemptTimesAppend(log, r, cut);
  }

  // ----- the real deque is this one -----

  lemma TryDeque(config: RateLimitConfig, s: Node, p: NodeId, now: Instant, peer: NodeId)
    ensures Entry(Do(config, s, Try(p, now)).0.counters, peer).attempts
         == if p == peer then Pruned(Entry(s.counters, peer).attempts, now) + [now]
            else Entry(s.counters, peer).attempts
  {}

  lemma WindowDeque(config: RateLimitConfig, s: Node, p: NodeId, now: Instant, peer: NodeId)
    ensures Entry(Do(config, s, Window(p, now)).0.counters, peer).attempts
         == if p == peer then Pruned(Entry(s.counters, peer).attempts, now) else Entry(s.counters, peer).attempts
  {}

  lemma DropDeque(config: RateLimitConfig, s: Node, i: nat, peer: NodeId)
    ensures Entry(Do(config, s, DropPermit(i)).0.counters, peer).attempts == Entry(s.counters, peer).attempts
  {
    if i < |s.permits| {
      EntryAfterRelease(s.counters, s.permits[i].peer, peer);
    }
  }

  lemma StepDeque(config: RateLimitConfig, s: Node, op: Op, peer: NodeId, log: seq<Reading>)
    requires Entry(s.counters, peer).attempts == Deque(log)
    ensures Entry(Do(config, s, op).0.counters, peer).attempts == Deque(log + ReadingsOf(op, peer))
  {
    match op {
      case Try(p, now) => TryDeque(config, s, p, now, peer);
      case Window(p, now) =>
        WindowDeque(config, s, p, now, peer);
        assert Pruned(Deque(log), now) + [] == Pruned(Deque(log), now);
      case DropPermit(i) => DropDeque(config, s, i, peer);
    }
    if ReadingsOf(op, peer) == [] {
      assert log + [] == log;
    } else {
      DequeAppend(log, ReadingsOf(op, peer)[0]);
    }
  }

  lemma Regroup(log: seq<Reading>, ops: seq<Op>, peer: NodeId)
    requires ops != []
    ensures log + Readings(ops, peer) == log + ReadingsOf(ops[0], peer) + Readings(ops[1..], peer)
  {}

  lemma {:induction false} RunDeque(config: RateLimitConfig, s: Node, ops: seq<Op>, peer: NodeId, log: seq<Reading>)
    requires Entry(s.counters, peer).attempts == Deque(log)
    ensures Entry(After(config, s, ops).counters, peer).attempts == Deque(log + Readings(ops, peer))
    decreases |ops|
  {
    if ops == [] {
      assert log + Readings(ops, peer) == log;
    } else {
      var next := Do(config, s, ops[0]).0;
      StepDeque(config, s, ops[0], peer, log);
      RunDeque(config, next, ops[1..], peer, log + ReadingsOf(ops[0], peer));
      Regroup(log, ops, peer);
    }
  }

  /**
   What the limiter holds for a peer after any run, with any clocks, releases, entry removals and
   other peers: the end of its attempts that `From` names.
   */
  lemma DequeOfRun(config: RateLimitConfig, ops: seq<Op>, peer: NodeId)
    ensures Entry(After(config, EMPTY_NODE, ops).counters, peer).attempts == Deque(Readings(ops, peer))
  {
    RunDeque(config, EMPTY_NODE, ops, peer, []);
    assert [] + Readings(ops, peer) == Readings(ops, peer);
  }

  // ----- which attempts have been dropped -----

  /**
   Later readings, in order, that each find an attempt outside the window, one for every attempt up to
   the e-th reading.
   */
  predicate DropChain(log: seq<Reading>, e: nat, at: seq<nat>) {
    && e < |log| && |at| == e + 1
    && (forall h :: 0 <= h <= e ==> at[h] < |log|)
    && (forall g, h :: 0 <= g <= h <= e ==> at[g] <= at[h])
    && (forall h :: 0 <= h <= e && log[h].attempt ==> h < at[h] && Age(log[at[h]].now, log[h].now) >= WINDOW)
  }

  /** One more reading drops what it finds outside the window, from the first attempt not dropped yet. */
  lemma ChainGrows(log: seq<Reading>, c: nat, e: nat, start: seq<nat>, now: Instant) returns (at: seq<nat>)
    requires log != [] && c <= e < |log| - 1 && log[|log| - 1].now == now
    requires if c == 0 then start == [] else DropChain(log[..|log| - 1], c - 1, start)
    requires forall h :: c <= h <= e ==> !Young(log, h, now)
    ensures DropChain(log, e, at)
  {
    var n := |log| - 1;
    at := start + seq(e + 1 - c, i => n);
    forall h | 0 <= h <= e && log[h].attempt ensures h < at[h] && Age(log[at[h]].now, log[h].now) >= WINDOW {
      if h < c {
        assert at[h] == start[h] && log[..n][h] == log[h] && log[..n][start[h]] == log[start[h]];
      } else {
        assert at[h] == n && !Young(log, h, now);
      }
    }
  }

  lemma ChainLasts(log: seq<Reading>, n: nat, e: nat, at: seq<nat>)
    requires n <= |log| && DropChain(log[..n], e, at)
    ensures DropChain(log, e, at)
  {
    assert forall h :: 0 <= h < n ==> log[..n][h] == log[h];
  }

  lemma {:induction false} DroppedHasChain(log: seq<Reading>, e: nat) returns (at: seq<nat>)
    requires e < From(log)
    ensures DropChain(log, e, at)
    decreases |log|
  {
    var n := |log| - 1;
    var c := From(log[..n]);
    if e < c {
      at := DroppedHasChain(log[..n], e);
      ChainLasts(log, n, e, at);
    } else {
      var start: seq<nat> := [];
      if c > 0 {
        start := DroppedHasChain(log[..n], c - 1);
      }
      forall h | c <= h <= e ensures !Young(log, h, log[n].now) {
        assert !Young(log[..n], h, log[n].now);
      }
      at := ChainGrows(log, c, e, start, log[n].now);
    }
  }

  /** The part of a chain before its last reading is a chain of the earlier readings. */
  lemma ChainBefore(log: seq<Reading>, e: nat, at: seq<nat>, f: nat)
    requires DropChain(log, e, at) && f <= e && at[f] < |log| - 1 && log[f].attempt
    ensures DropChain(log[..|log| - 1], f, at[..f + 1])
  {
    var before, start := log[..|log| - 1], at[..f + 1];
    forall h | 0 <= h <= f ensures start[h] == at[h] <= at[f] && before[h] == log[h] && before[at[h]] == log[at[h]] {}
  }

  lemma {:induction false} ChainDrops(log: seq<Reading>, e: nat, at: seq<nat>)
    requires DropChain(log, e, at) && log[e].attempt
    ensures e < From(log)
    decreases |log|
  {
    var n := |log| - 1;
    var f := From(log);
    if f <= e {
      assert Young(log[..n], f, log[n].now);
      assert at[f] < n;
      ChainBefore(log, e, at, f);
      ChainDrops(log[..n], f, at[..f + 1]);
      assert false;
    }
  }

  /** An attempt has been dropped exactly when such readings have been made, for it and all before it, in order. */
  lemma DroppedExactly(log: seq<Reading>, e: nat)
    requires Attempt(log, e)
    ensures e < From(log) <==> exists at :: DropChain(log, e, at)
  {
    if e < From(log) {
      var at := DroppedHasChain(log, e);
    }
    if at :| DropChain(log, e, at) {
      ChainDrops(log, e, at);
    }
  }

  // ----- when the count is right -----

  /** Where a reading at `now` cuts the deque. */
  function Cut(log: seq<Reading>, now: Instant): (r: nat)
    ensures From(log) <= r <= |log|
  {
    FirstYoung(log, From(log), now)
  }

  /** The attempts counted at `now` are all the attempts within the window, and no others. */
  predicate CountsRight(log: seq<Reading>, now: Instant) {
    forall e :: 0 <= e < |log| && log[e].attempt ==> (e >= Cut(log, now) <==> Young(log, e, now))
  }

  /** No dropped attempt is within the window. */
  predicate NoneReturns(log: seq<Reading>, now: Instant) {
    forall e :: 0 <= e < From(log) ==> !Young(log, e, now)
  }

  /** No attempt outside the window stands behind one that is within it. */
  predicate OldOnesFirst(log: seq<Reading>, now: Instant) {
    forall e, f :: From(log) <= e < f < |log| && Young(log, e, now) && log[f].attempt ==> Young(log, f, now)
  }

  /**
   Against the full history: nothing within the window is missed if and only if no dropped attempt is
   within it; nothing else is counted if and only if, in the deque, the old ones come first.
   */
  lemma CountedExactly(log: seq<Reading>, now: Instant)
    ensures Pruned(Deque(log), now) == AttemptTimes(log, Cut(log, now))
    ensures (forall e :: 0 <= e < |log| && Young(log, e, now) ==> e >= Cut(log, now)) <==> NoneReturns(log, now)
    ensures (forall e :: Cut(log, now) <= e < |log| && log[e].attempt ==> Young(log, e, now)) <==>
            OldOnesFirst(log, now)
    ensures CountsRight(log, now) <==> NoneReturns(log, now) && OldOnesFirst(log, now)
  {
    PrunedIsFirstYoung(log, From(log), now);
    if OldOnesFirst(log, now) {
      var cut := Cut(log, now);
      assert forall e :: cut < e < |log| && log[e].attempt ==> Young(log, cut, now) && Young(log, e, now);
    }
  }

  /** Every reading is right for the attempts before it. */
  predicate AlwaysRight(log: seq<Reading>) {
    forall q :: 0 <= q < |log| ==> CountsRight(log[..q], log[q].now)
  }

  /** An attempt that one reading finds outside the window is outside it at every later reading. */
  predicate OutStaysOut(log: seq<Reading>) {
    forall e, p, q :: 0 <= e < p < q < |log| && log[e].attempt && !Young(log, e, log[p].now) ==>
      !Young(log, e, log[q].now)
  }

  /** No reading finds an attempt within the window and a later one outside it. */
  predicate LaterIsYounger(log: seq<Reading>) {
    forall e, f, q :: 0 <= e < f < q < |log| && Young(log, e, log[q].now) && log[f].attempt ==>
      Young(log, f, log[q].now)
  }

  lemma {:induction false} FromGrows(log: seq<Reading>, a: nat, b: nat)
    requires a <= b <= |log|
    ensures From(log[..a]) <= From(log[..b])
    decreases b
  {
    if a < b {
      FromGrows(log, a, b - 1);
      assert log[..b][..b - 1] == log[..b - 1];
    }
  }

  lemma CutIsFrom(log: seq<Reading>, p: nat)
    requires p < |log|
    ensures Cut(log[..p], log[p].now) == From(log[..p + 1])
  {
    assert log[..p + 1][..p] == log[..p];
  }

  /** What was dropped had left the window at some earlier reading. */
  lemma DroppedWasOld(log: seq<Reading>, q: nat, e: nat) returns (p: nat)
    requires q <= |log| && e < From(log[..q]) && log[e].attempt
    ensures e < p < q && !Young(log, e, log[p].now)
  {
    var at := DroppedHasChain(log[..q], e);
    p := at[e];
  }

  lemma RightMeansOut(log: seq<Reading>, e: nat, p: nat, q: nat)
    requires AlwaysRight(log) && e < p < q < |log| && log[e].attempt && !Young(log, e, log[p].now)
    ensures !Young(log, e, log[q].now)
  {
    assert CountsRight(log[..p], log[p].now) && CountsRight(log[..q], log[q].now);
    assert log[..p][e] == log[e] && log[..q][e] == log[e];
    CutIsFrom(log, p);
    FromGrows(log, p + 1, q);
  }

  lemma RightMeansSteady(log: seq<Reading>)
    requires AlwaysRight(log)
    ensures OutStaysOut(log) && LaterIsYounger(log)
  {
    forall e, p, q | 0 <= e < p < q < |log| && log[e].attempt && !Young(log, e, log[p].now)
      ensures !Young(log, e, log[q].now)
    {
      RightMeansOut(log, e, p, q);
    }
    forall e, f, q | 0 <= e < f < q < |log| && Young(log, e, log[q].now) && log[f].attempt
      ensures Young(log, f, log[q].now)
    {
      assert CountsRight(log[..q], log[q].now);
      assert log[..q][e] == log[e] && log[..q][f] == log[f];
    }
  }

  /** Then nothing dropped before a reading is within its window. */
  lemma OutMeansNoneReturns(log: seq<Reading>, q: nat)
    requires OutStaysOut(log) && q < |log|
    ensures NoneReturns(log[..q], log[q].now)
  {
    forall e | 0 <= e < From(log[..q]) ensures !Young(log[..q], e, log[q].now) {
      if log[e].attempt {
        var p := DroppedWasOld(log, q, e);
        assert !Young(log, e, log[q].now);
      }
    }
  }

  lemma SteadyMeansRight(log: seq<Reading>, q: nat)
    requires OutStaysOut(log) && LaterIsYounger(log) && q < |log|
    ensures CountsRight(log[..q], log[q].now)
  {
    var before, now := log[..q], log[q].now;
    CountedExactly(before, now);
    OutMeansNoneReturns(log, q);
    forall e, f | From(before) <= e < f < |before| && Young(before, e, now) && before[f].attempt
      ensures Young(before, f, now)
    {
      assert Young(log, e, log[q].now) && log[f].attempt;
    }
  }

  /**
   For any clocks: every reading counts exactly the attempts within the window if and only if no
   attempt returns to the window after a reading outside it, and none leaves it before an earlier one.
   */
  lemma AlwaysRightExactly(log: seq<Reading>)
    ensures AlwaysRight(log) <==> OutStaysOut(log) && LaterIsYounger(log)
  {
    if AlwaysRight(log) {
      RightMeansSteady(log);
    }
    if OutStaysOut(log) && LaterIsYounger(log) {
      forall q | 0 <= q < |log| ensures CountsRight(log[..q], log[q].now) {
        SteadyMeansRight(log, q);
      }
    }
  }

  predicate Ordered(log: seq<Reading>) {
    forall i, j :: 0 <= i < j < |log| ==> log[i].now <= log[j].now
  }

  /** In particular when readings never go backwards. */
  lemma OrderedIsRight(log: seq<Reading>)
    requires Ordered(log)
    ensures AlwaysRight(log)
  {
    AlwaysRightExactly(log);
  }

  // ----- counting -----

  lemma {:induction false} RecentAppend(a: seq<Instant>, b: seq<Instant>, now: Instant)
    ensures Recent(a + b, now) == Recent(a, now) + Recent(b, now)
    decreases |b|
  {
    if b == [] {
      assert a + b == a;
    } else {
      var n := |b| - 1;
      assert (a + b)[..|a + b| - 1] == a + b[..n];
      RecentAppend(a, b[..n], now);
    }
  }

  lemma RecentOfOne(t: Instant, now: Instant)
    ensures Recent([t], now) == if Age(now, t) < WINDOW then 1 else 0
  {
    assert [t][..0] == [];
  }

  lemma RecentCons(t: Instant, rest: seq<Instant>, now: Instant)
    ensures Recent([t] + rest, now) == Recent(rest, now) + if Age(now, t) < WINDOW then 1 else 0
  {
    RecentAppend([t], rest, now);
    RecentOfOne(t, now);
  }

  lemma TimesStep(log: seq<Reading>, i: nat)
    requires i < |log|
    ensures AttemptTimes(log, i) == (if log[i].attempt then [log[i].now] else []) + AttemptTimes(log, i + 1)
    ensures !log[i].attempt ==> AttemptTimes(log, i) == AttemptTimes(log, i + 1)
  {}

  lemma RecentStep(log: seq<Reading>, i: nat, now: Instant)
    requires i < |log|
    ensures Recent(AttemptTimes(log, i), now)
         == Recent(AttemptTimes(log, i + 1), now) + if Young(log, i, now) then 1 else 0
    ensures |AttemptTimes(log, i)| == |AttemptTimes(log, i + 1)| + if log[i].attempt then 1 else 0
  {
    TimesStep(log, i);
    if log[i].attempt {
      RecentCons(log[i].now, AttemptTimes(log, i + 1), now);
    }
  }

  /** From `i` on: as many attempts within the window as there are attempts, and no more, if all are. */
  lemma {:induction false} RecentFrom(log: seq<Reading>, i: nat, now: Instant)
    requires i <= |log|
    ensures Recent(AttemptTimes(log, i), now) <= |AttemptTimes(log, i)|
    ensures (forall e :: i <= e < |log| && log[e].attempt ==> Young(log, e, now)) ==>
              Recent(AttemptTimes(log, i), now) == |AttemptTimes(log, i)|
    decreases |log| - i
  {
    if i < |log| {
      RecentFrom(log, i + 1, now);
      RecentStep(log, i, now);
    }
  }

  lemma {:induction false} RecentSkips(log: seq<Reading>, i: nat, cut: nat, now: Instant)
    requires i <= cut <= |log| && forall e :: i <= e < cut ==> !Young(log, e, now)
    ensures Recent(AttemptTimes(log, i), now) == Recent(AttemptTimes(log, cut), now)
    decreases cut - i
  {
    if i < cut {
      RecentSkips(log, i + 1, cut, now);
      RecentStep(log, i, now);
    }
  }

  /** The count is never too low when nothing returns, and it is the ledger's when it is right. */
  lemma CountAgainstHistory(log: seq<Reading>, now: Instant)
    requires NoneReturns(log, now)
    ensures Recent(AttemptTimes(log, 0), now) <= |Pruned(Deque(log), now)|
    ensures CountsRight(log, now) ==> Recent(AttemptTimes(log, 0), now) == |Pruned(Deque(log), now)|
  {
    var cut := Cut(log, now);
    CountedExactly(log, now);
    RecentSkips(log, 0, cut, now);
    RecentFrom(log, cut, now);
  }

  // ----- the answers -----

  lemma TimesAppend(attempts: seq<(NodeId, Instant)>, peer: NodeId, now: Instant, q: NodeId)
    ensures Times(attempts + [(peer, now)], q) == Times(attempts, q) + if q == peer then [now] else []
  {
    assert (attempts + [(peer, now)])[..|attempts|] == attempts;
  }

  /** The deque and the full history lead to the same answer, the deque's count being cut to 32 bits. */
  predicate DecideAlike(config: RateLimitConfig, s: Node, l: Ledger, op: Op) {
    match op
    case Try(peer, now) =>
      (|Pruned(Entry(s.counters, peer).attempts, now)| + 1) % U32_SIZE > config.maxCallsPerMinute <==>
      Recent(Times(l.attempts, peer), now) + 1 > config.maxCallsPerMinute
    case Window(peer, now) =>
      |Pruned(Entry(s.counters, peer).attempts, now)| % U32_SIZE == Recent(Times(l.attempts, peer), now)
    case DropPermit(_) => true
  }

  predicate AllDecideAlike(config: RateLimitConfig, s: Node, l: Ledger, ops: seq<Op>)
    decreases |ops|
  {
    ops == [] ||
    (&& DecideAlike(config, s, l, ops[0])
     && AllDecideAlike(config, Do(config, s, ops[0]).0, LedgerDo(config, l, ops[0]).0, ops[1..]))
  }

  lemma ReleasedAgain(permits: seq<Permit>, i: nat)
    requires i < |permits| && permits[i].released
    ensures permits[i := permits[i].(released := true)] == permits
  {}

  lemma StepAnswers(config: RateLimitConfig, s: Node, l: Ledger, op: Op)
    requires s.permits == l.permits && PermitInv(config, s)
    ensures Do(config, s, op).1 == LedgerDo(config, l, op).1 <==> DecideAlike(config, s, l, op)
    ensures DecideAlike(config, s, l, op) ==> Do(config, s, op).0.permits == LedgerDo(config, l, op).0.permits
  {
    match op {
      case Try(peer, now) => assert Entry(s.counters, peer).inFlight == Outstanding(s.permits, peer);
      case Window(_, _) =>
      case DropPermit(i) =>
        if i < |s.permits| && s.permits[i].released {
          ReleasedAgain(s.permits, i);
        }
    }
  }

  lemma {:induction false} AnswersExactly(config: RateLimitConfig, s: Node, l: Ledger, ops: seq<Op>)
    requires s.permits == l.permits && PermitInv(config, s)
    ensures Answers(config, s, ops) == LedgerAnswers(config, l, ops) <==> AllDecideAlike(config, s, l, ops)
    decreases |ops|
  {
    if ops != [] {
      var d, e := Do(config, s, ops[0]), LedgerDo(config, l, ops[0]);
      StepAnswers(config, s, l, ops[0]);
      var a, b := Answers(config, s, ops), LedgerAnswers(config, l, ops);
      assert a[0] == d.1 && b[0] == e.1;
      if d.1 == e.1 {
        DoKeepsPermits(config, s, ops[0]);
        AnswersExactly(config, d.0, e.0, ops[1..]);
        assert a[1..] == Answers(config, d.0, ops[1..]) && b[1..] == LedgerAnswers(config, e.0, ops[1..]);
      }
    }
  }

  lemma EmptyPermits(config: RateLimitConfig)
    ensures PermitInv(config, EMPTY_NODE)
  {}

  /**
   With any clocks and any number of attempts: the limiter answers a whole run as the ledger does that
   forgets nothing if and only if at every step the counts lead to the same side of the cap, and every
   window query to the same number. Permits, the other caps and entry removal never make a difference.
   */
  lemma LimiterAnswersAsLedger(config: RateLimitConfig, ops: seq<Op>)
    ensures Answers(config, EMPTY_NODE, ops) == LedgerAnswers(config, EMPTY_LEDGER, ops) <==>
            AllDecideAlike(config, EMPTY_NODE, EMPTY_LEDGER, ops)
  {
    EmptyPermits(config);
    AnswersExactly(config, EMPTY_NODE, EMPTY_LEDGER, ops);
  }

  /** At no reading does the deque, a new attempt included, reach 2^32 entries. */
  predicate Fits(log: seq<Reading>) {
    forall q :: 0 <= q < |log| ==> |Pruned(Deque(log[..q]), log[q].now)| + 1 < U32_SIZE
  }

  /** Every peer's readings are right and its deque fits. */
  ghost predicate Sound(ops: seq<Op>) {
    forall peer: NodeId :: AlwaysRight(Readings(ops, peer)) && Fits(Readings(ops, peer))
  }

  lemma {:induction false} ReadingsAppend(a: seq<Op>, b: seq<Op>, peer: NodeId)
    ensures Readings(a + b, peer) == Readings(a, peer) + Readings(b, peer)
    decreases |a|
  {
    if a == [] {
      assert a + b == b;
    } else {
      assert (a + b)[1..] == a[1..] + b;
      ReadingsAppend(a[1..], b, peer);
    }
  }

  /** Node and ledger after the same operations, as far as one peer's attempts go. */
  predicate Recorded(s: Node, l: Ledger, past: seq<Op>, peer: NodeId) {
    && Entry(s.counters, peer).attempts == Deque(Readings(past, peer))
    && Times(l.attempts, peer) == AttemptTimes(Readings(past, peer), 0)
  }

  lemma StepReadings(past: seq<Op>, op: Op, peer: NodeId)
    ensures Readings(past + [op], peer) == Readings(past, peer) + ReadingsOf(op, peer)
  {
    ReadingsAppend(past, [op], peer);
    assert [op][1..] == [] && Readings([op], peer) == ReadingsOf(op, peer);
  }

  lemma StepTimes(config: RateLimitConfig, l: Ledger, op: Op, peer: NodeId, log: seq<Reading>)
    requires Times(l.attempts, peer) == AttemptTimes(log, 0)
    ensures Times(LedgerDo(config, l, op).0.attempts, peer) == AttemptTimes(log + ReadingsOf(op, peer), 0)
  {
    if op.Try? {
      assert LedgerDo(config, l, op).0.attempts == l.attempts + [(op.peer, op.now)];
      TimesAppend(l.attempts, op.peer, op.now, peer);
    }
    if ReadingsOf(op, peer) == [] {
      assert log + [] == log;
    } else {
      AttemptTimesAppend(log, ReadingsOf(op, peer)[0], 0);
    }
  }

  lemma StepRecorded(config: RateLimitConfig, s: Node, l: Ledger, past: seq<Op>, op: Op, peer: NodeId)
    requires Recorded(s, l, past, peer)
    ensures Recorded(Do(config, s, op).0, LedgerDo(config, l, op).0, past + [op], peer)
  {
    StepReadings(past, op, peer);
    StepDeque(config, s, op, peer, Readings(past, peer));
    StepTimes(config, l, op, peer, Readings(past, peer));
  }

  lemma ReadingAt(past: seq<Op>, op: Op, rest: seq<Op>, peer: NodeId)
    requires !op.DropPermit? && op.peer == peer
    ensures var all := Readings(past + ([op] + rest), peer);
            var q := |Readings(past, peer)|;
            q < |all| && all[..q] == Readings(past, peer) && all[q] == Reading(op.now, op.Try?)
  {
    ReadingsAppend(past, [op] + rest, peer);
    assert ([op] + rest)[0] == op && ([op] + rest)[1..] == rest;
  }

  lemma RightDecides(config: RateLimitConfig, s: Node, l: Ledger, op: Op, log: seq<Reading>)
    requires !op.DropPermit? && CountsRight(log, op.now) && |Pruned(Deque(log), op.now)| + 1 < U32_SIZE
    requires Entry(s.counters, op.peer).attempts == Deque(log) && Times(l.attempts, op.peer) == AttemptTimes(log, 0)
    ensures DecideAlike(config, s, l, op)
  {
    CountedExactly(log, op.now);
    CountAgainstHistory(log, op.now);
  }

  lemma SoundDecides(config: RateLimitConfig, s: Node, l: Ledger, past: seq<Op>, op: Op, rest: seq<Op>)
    requires Sound(past + ([op] + rest)) && !op.DropPermit? && Recorded(s, l, past, op.peer)
    ensures DecideAlike(config, s, l, op)
  {
    var all := Readings(past + ([op] + rest), op.peer);
    var log := Readings(past, op.peer);
    ReadingAt(past, op, rest, op.peer);
    assert AlwaysRight(all) && Fits(all);
    assert CountsRight(all[..|log|], all[|log|].now);
    RightDecides(config, s, l, op, log);
  }

  lemma {:induction false} SoundRun(config: RateLimitConfig, s: Node, l: Ledger, past: seq<Op>, ops: seq<Op>)
    requires Sound(past + ops) && forall peer: NodeId :: Recorded(s, l, past, peer)
    ensures AllDecideAlike(config, s, l, ops)
    decreases |ops|
  {
    if ops != [] {
      var op, rest := ops[0], ops[1..];
      assert [op] + rest == ops && past + [op] + rest == past + ops;
      if !op.DropPermit? {
        SoundDecides(config, s, l, past, op, rest);
      }
      forall peer: NodeId ensures Recorded(Do(config, s, op).0, LedgerDo(config, l, op).0, past + [op], peer) {
        StepRecorded(config, s, l, past, op, peer);
      }
      SoundRun(config, Do(config, s, op).0, LedgerDo(config, l, op).0, past + [op], rest);
    }
  }

  /** Whenever every reading is right and every deque fits, whatever the clocks did otherwise. */
  lemma SoundAnswersAsLedger(config: RateLimitConfig, ops: seq<Op>)
    requires Sound(ops)
    ensures Answers(config, EMPTY_NODE, ops) == LedgerAnswers(config, EMPTY_LEDGER, ops)
  {
    assert [] + ops == ops;
    forall peer: NodeId ensures Recorded(EMPTY_NODE, EMPTY_LEDGER, [], peer) {}
    SoundRun(config, EMPTY_NODE, EMPTY_LEDGER, [], ops);
    LimiterAnswersAsLedger(config, ops);
  }

  /** In particular when each peer's readings never go backwards and it never makes 2^32 attempts within one window. */
  lemma OrderedAnswersAsLedger(config: RateLimitConfig, ops: seq<Op>)
    requires forall peer: NodeId :: Ordered(Readings(ops, peer)) && Fits(Readings(ops, peer))
    ensures Answers(config, EMPTY_NODE, ops) == LedgerAnswers(config, EMPTY_LEDGER, ops)
  {
    forall peer: NodeId ensures AlwaysRight(Readings(ops, peer)) && Fits(Readings(ops, peer)) {
      OrderedIsRight(Readings(ops, peer));
    }
    SoundAnswersAsLedger(config, ops);
  }
}
