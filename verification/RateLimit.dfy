/** Per-peer rate limits: in-flight counters, a sliding window of attempts, and permits that give their slot back. */
module RateLimit {
  import opened Bytes
  import opened WireTypes

  type u32 = n: nat | n < U32_SIZE

  /** Nanoseconds on the monotonic clock. */
  type Instant = nat

  const WINDOW: nat := 60_000_000_000

  datatype RateLimitConfig = RateLimitConfig(maxConcurrentCalls: u32, maxCallsPerMinute: u32, maxLiveFrames: u32)

  datatype RateLimitExceeded = ConcurrentCalls | CallsPerMinute | LiveFrames

  datatype PeerCounters = PeerCounters(inFlight: u32, attempts: seq<Instant>)

  type Counters = map<NodeId, PeerCounters>

  const NO_COUNTERS: PeerCounters := PeerCounters(0, [])

  /** Elapsed time, zero when the clock went backwards. */
  function Age(now: Instant, t: Instant): nat {
    if now >= t then now - t else 0
  }

  function Pruned(attempts: seq<Instant>, now: Instant): seq<Instant> {
    if attempts != [] && Age(now, attempts[0]) >= WINDOW then Pruned(attempts[1..], now) else attempts
  }

  method PruneAttempts(attempts: seq<Instant>, now: Instant) returns (kept: seq<Instant>)
    ensures kept == Pruned(attempts, now)
  {
    kept := attempts;
    while kept != [] && Age(now, kept[0]) >= WINDOW
      invariant Pruned(kept, now) == Pruned(attempts, now)
      decreases |kept|
    {
      kept := kept[1..];
    }
  }

  // ----- what each operation does to the table -----

  function Entry(m: Counters, peer: NodeId): PeerCounters {
    if peer in m then m[peer] else NO_COUNTERS
  }

  function WithAttempt(e: PeerCounters, now: Instant): PeerCounters {
    e.(attempts := Pruned(e.attempts, now) + [now])
  }

  /** The refusal, if any, of an attempt already recorded in `e`; the count is cut to 32 bits. */
  function Refusal(config: RateLimitConfig, e: PeerCounters): Option<RateLimitExceeded> {
    if |e.attempts| % U32_SIZE > config.maxCallsPerMinute then Some(CallsPerMinute)
    else if e.inFlight >= config.maxConcurrentCalls then Some(ConcurrentCalls)
    else if e.inFlight >= config.maxLiveFrames then Some(LiveFrames)
    else None
  }

  function SaturatingInc(n: u32): u32 {
    if n == U32_SIZE - 1 then n else n + 1
  }

  function SaturatingDec(n: u32): u32 {
    if n == 0 then 0 else n - 1
  }

  function AfterTry(config: RateLimitConfig, m: Counters, peer: NodeId, now: Instant): Counters {
    var e := WithAttempt(Entry(m, peer), now);
    m[peer := if Refusal(config, e).Some? then e else e.(inFlight := SaturatingInc(e.inFlight))]
  }

  function TryRefusal(config: RateLimitConfig, m: Counters, peer: NodeId, now: Instant): Option<RateLimitExceeded> {
    Refusal(config, WithAttempt(Entry(m, peer), now))
  }

  function AfterRelease(m: Counters, peer: NodeId): Counters {
    if peer !in m then m
    else
      var e := m[peer].(inFlight := SaturatingDec(m[peer].inFlight));
      if e.inFlight == 0 && e.attempts == [] then m - {peer} else m[peer := e]
  }

  function AfterWindow(m: Counters, peer: NodeId, now: Instant): Counters {
    if peer !in m then m else m[peer := m[peer].(attempts := Pruned(m[peer].attempts, now))]
  }

  function WindowCount(m: Counters, peer: NodeId, now: Instant): u32 {
    if peer !in m then 0 else |Pruned(m[peer].attempts, now)| % U32_SIZE
  }

  class RateLimiter {
    const config: RateLimitConfig
    var inner: Counters

    constructor (config: RateLimitConfig)
      ensures this.config == config && inner == map[]
    {
      this.config := config;
      inner := map[];
    }

    method TryAdmitAt(peer: NodeId, now: Instant) returns (r: Result<RateLimitPermit, RateLimitExceeded>)
      modifies this
      ensures inner == AfterTry(config, old(inner), peer, now)
      ensures match TryRefusal(config, old(inner), peer, now)
              case Some(why) => r == Err(why)
              case None =>
                r.Ok? && fresh(r.value) && r.value.limiter == this && r.value.peer == peer && !r.value.released
    {
      var entry := if peer in inner then inner[peer] else NO_COUNTERS;
      var kept := PruneAttempts(entry.attempts, now);
      entry := entry.(attempts := kept + [now]);
      inner := inner[peer := entry];
      var attemptCount: u32 := |entry.attempts| % U32_SIZE;
      if attemptCount > config.maxCallsPerMinute {
        return Err(CallsPerMinute);
      }
      if entry.inFlight >= config.maxConcurrentCalls {
        return Err(ConcurrentCalls);
      }
      if entry.inFlight >= config.maxLiveFrames {
        return Err(LiveFrames);
      }
      inner := inner[peer := entry.(inFlight := SaturatingInc(entry.inFlight))];
      var permit := new RateLimitPermit(this, peer);
      r := Ok(permit);
    }

    method Release(peer: NodeId)
      modifies this
      ensures inner == AfterRelease(old(inner), peer)
    {
      if peer in inner {
        var entry := inner[peer].(inFlight := SaturatingDec(inner[peer].inFlight));
        inner := inner[peer := entry];
        if entry.inFlight == 0 && entry.attempts == [] {
          inner := inner - {peer};
        }
      }
    }

    method InFlight(peer: NodeId) returns (n: u32)
      ensures n == Entry(inner, peer).inFlight
    {
      n := if peer in inner then inner[peer].inFlight else 0;
    }

    method AttemptsInWindow(peer: NodeId, now: Instant) returns (n: u32)
      modifies this
      ensures inner == AfterWindow(old(inner), peer, now) && n == WindowCount(old(inner), peer, now)
    {
      if peer !in inner {
        return 0;
      }
      var kept := PruneAttempts(inner[peer].attempts, now);
      inner := inner[peer := inner[peer].(attempts := kept)];
      n := |kept| % U32_SIZE;
    }
  }

  /** One admitted slot, given back exactly once. */
  class RateLimitPermit {
    const limiter: RateLimiter
    const peer: NodeId
    var released: bool

    constructor (limiter: RateLimiter, peer: NodeId)
      ensures this.limiter == limiter && this.peer == peer && !released
    {
      this.limiter := limiter;
      this.peer := peer;
      released := false;
    }

    method ReleaseNow()
      modifies this, limiter
      ensures released
      ensures limiter.inner == if old(released) then old(limiter.inner) else AfterRelease(old(limiter.inner), peer)
    {
      if !released {
        released := true;
        limiter.Release(peer);
      }
    }

    method Drop()
      modifies this, limiter
      ensures released
      ensures limiter.inner == if old(released) then old(limiter.inner) else AfterRelease(old(limiter.inner), peer)
    {
      ReleaseNow();
    }

    /** An explicit release consumes the permit, so the drop follows at once; the slot is given back once. */
    method ReleaseEarly()
      modifies this, limiter
      ensures released
      ensures limiter.inner == if old(released) then old(limiter.inner) else AfterRelease(old(limiter.inner), peer)
    {
      ReleaseNow();
      Drop();
    }
  }

  // ----- whole runs, and the ledger that never forgets -----

  datatype Op = Try(peer: NodeId, now: Instant) | DropPermit(index: nat) | Window(peer: NodeId, now: Instant)

  datatype Answer = Admitted | Refused(why: RateLimitExceeded) | Dropped | Count(attempts: nat)

  datatype Permit = Permit(peer: NodeId, released: bool)

  /** The limiter's table with the permits it has handed out. */
  datatype Node = Node(counters: Counters, permits: seq<Permit>)

  const EMPTY_NODE: Node := Node(map[], [])

  function Do(config: RateLimitConfig, s: Node, op: Op): (Node, Answer) {
    match op
    case Try(peer, now) =>
      var after := AfterTry(config, s.counters, peer, now);
      (match TryRefusal(config, s.counters, peer, now)
       case Some(why) => (Node(after, s.permits), Refused(why))
       case None => (Node(after, s.permits + [Permit(peer, false)]), Admitted))
    case DropPermit(i) =>
      if i < |s.permits| && !s.permits[i].released then
        (Node(AfterRelease(s.counters, s.permits[i].peer), s.permits[i := s.permits[i].(released := true)]), Dropped)
      else (s, Dropped)
    case Window(peer, now) =>
      (Node(AfterWindow(s.counters, peer, now), s.permits), Count(WindowCount(s.counters, peer, now)))
  }

  function After(config: RateLimitConfig, s: Node, ops: seq<Op>): Node
    decreases |ops|
  {
    if ops == [] then s else After(config, Do(config, s, ops[0]).0, ops[1..])
  }

  function Answers(config: RateLimitConfig, s: Node, ops: seq<Op>): (r: seq<Answer>)
    ensures |r| == |ops|
    decreases |ops|
  {
    if ops == [] then []
    else var step := Do(config, s, ops[0]); [step.1] + Answers(config, step.0, ops[1..])
  }

  /** Every attempt ever made, refused ones included, and every permit ever handed out. */
  datatype Ledger = Ledger(attempts: seq<(NodeId, Instant)>, permits: seq<Permit>)

  const EMPTY_LEDGER: Ledger := Ledger([], [])

  /** All attempts of one peer, oldest first. */
  function Times(attempts: seq<(NodeId, Instant)>, peer: NodeId): seq<Instant> {
    if attempts == [] then []
    else
      var (p, t) := attempts[|attempts| - 1];
      Times(attempts[..|attempts| - 1], peer) + if p == peer then [t] else []
  }

  /** How many of `times` are younger than the window. */
  function Recent(times: seq<Instant>, now: Instant): nat {
    if times == [] then 0
    else
      Recent(times[..|times| - 1], now) + if Age(now, times[|times| - 1]) < WINDOW then 1 else 0
  }

  function Outstanding(permits: seq<Permit>, peer: NodeId): nat {
    if permits == [] then 0
    else
      var p := permits[|permits| - 1];
      Outstanding(permits[..|permits| - 1], peer) + if p.peer == peer && !p.released then 1 else 0
  }

  function LedgerDo(config: RateLimitConfig, l: Ledger, op: Op): (Ledger, Answer) {
    match op
    case Try(peer, now) =>
      var attempts := l.attempts + [(peer, now)];
      var held := Outstanding(l.permits, peer);
      if Recent(Times(l.attempts, peer), now) + 1 > config.maxCallsPerMinute then
        (Ledger(attempts, l.permits), Refused(CallsPerMinute))
      else if held >= config.maxConcurrentCalls then (Ledger(attempts, l.permits), Refused(ConcurrentCalls))
      else if held >= config.maxLiveFrames then (Ledger(attempts, l.permits), Refused(LiveFrames))
      else (Ledger(attempts, l.permits + [Permit(peer, false)]), Admitted)
    case DropPermit(i) =>
      if i < |l.permits| then (l.(permits := l.permits[i := l.permits[i].(released := true)]), Dropped)
      else (l, Dropped)
    case Window(peer, now) => (l, Count(Recent(Times(l.attempts, peer), now)))
  }

  function LedgerAnswers(config: RateLimitConfig, l: Ledger, ops: seq<Op>): (r: seq<Answer>)
    ensures |r| == |ops|
    decreases |ops|
  {
    if ops == [] then []
    else var step := LedgerDo(config, l, ops[0]); [step.1] + LedgerAnswers(config, step.0, ops[1..])
  }
}
