/** The limiter over whole runs: permits are conserved and peers do not interfere, whatever the clocks do. */
module RateLimitRuns {
  import opened WireTypes
  import opened RateLimit

  // ----- permits are conserved, whatever the clocks do -----

  ghost predicate PermitInv(config: RateLimitConfig, s: Node) {
    forall peer: NodeId ::
      && Entry(s.counters, peer).inFlight == Outstanding(s.permits, peer)
      && Outstanding(s.permits, peer) <= config.maxConcurrentCalls
      && Outstanding(s.permits, peer) <= config.maxLiveFrames
  }

  lemma OutstandingAppend(permits: seq<Permit>, p: Permit, peer: NodeId)
    ensures Outstanding(permits + [p], peer)
         == Outstanding(permits, peer) + if p.peer == peer && !p.released then 1 else 0
  {
    assert (permits + [p])[..|permits|] == permits;
  }

  lemma {:induction false} OutstandingRelease(permits: seq<Permit>, i: nat, peer: NodeId)
    requires i < |permits| && !permits[i].released
    ensures Outstanding(permits[i := permits[i].(released := true)], peer)
         == Outstanding(permits, peer) - if permits[i].peer == peer then 1 else 0
    decreases |permits|
  {
    var n := |permits| - 1;
    var updated := permits[i := permits[i].(released := true)];
    if i == n {
      assert updated[..n] == permits[..n];
    } else {
      assert updated[..n] == permits[..n][i := permits[..n][i].(released := true)];
      OutstandingRelease(permits[..n], i, peer);
    }
  }

  /** A removed entry reads like a default one, so releasing only ever lowers the peer's own counter. */
  lemma EntryAfterRelease(m: Counters, peer: NodeId, q: NodeId)
    ensures Entry(AfterRelease(m, peer), q)
         == if q == peer then Entry(m, q).(inFlight := SaturatingDec(Entry(m, q).inFlight)) else Entry(m, q)
  {}

  lemma DoKeepsPermits(config: RateLimitConfig, s: Node, op: Op)
    requires PermitInv(config, s)
    ensures PermitInv(config, Do(config, s, op).0)
  {
    var (next, answer) := Do(config, s, op);
    forall peer: NodeId
      ensures Entry(next.counters, peer).inFlight == Outstanding(next.permits, peer)
      ensures Outstanding(next.permits, peer) <= config.maxConcurrentCalls
      ensures Outstanding(next.permits, peer) <= config.maxLiveFrames
    {
      assert Entry(s.counters, peer).inFlight == Outstanding(s.permits, peer);
      match op {
        case Try(p, _) =>
          if answer.Admitted? {
            OutstandingAppend(s.permits, Permit(p, false), peer);
          }
        case DropPermit(i) =>
          if i < |s.permits| && !s.permits[i].released {
            OutstandingRelease(s.permits, i, peer);
            EntryAfterRelease(s.counters, s.permits[i].peer, peer);
          }
        case Window(_, _) =>
      }
    }
  }

  lemma {:induction false} RunKeepsPermits(config: RateLimitConfig, s: Node, ops: seq<Op>)
    requires PermitInv(config, s)
    ensures PermitInv(config, After(config, s, ops))
    decreases |ops|
  {
    if ops != [] {
      DoKeepsPermits(config, s, ops[0]);
      RunKeepsPermits(config, Do(config, s, ops[0]).0, ops[1..]);
    }
  }

  /**
   Permit conservation. After any run, with any clocks and any number of releases of any permit, a
   peer's counter is the number of its permits not yet given back and exceeds neither cap; the next
   admission and the next release then change it by exactly one, so neither ever saturates.
   */
  lemma PermitsConserved(config: RateLimitConfig, ops: seq<Op>, peer: NodeId, now: Instant, i: nat)
    ensures var s := After(config, EMPTY_NODE, ops);
            var n := Entry(s.counters, peer).inFlight;
            && n == Outstanding(s.permits, peer)
            && n <= config.maxConcurrentCalls && n <= config.maxLiveFrames
            && (TryRefusal(config, s.counters, peer, now).None? ==>
                  Entry(AfterTry(config, s.counters, peer, now), peer).inFlight == n + 1)
            && (i < |s.permits| && !s.permits[i].released && s.permits[i].peer == peer ==>
                  n > 0 && Entry(AfterRelease(s.counters, peer), peer).inFlight == n - 1)
  {
    RunKeepsPermits(config, EMPTY_NODE, ops);
    var s := After(config, EMPTY_NODE, ops);
    assert Entry(s.counters, peer).inFlight == Outstanding(s.permits, peer);
    if i < |s.permits| && !s.permits[i].released && s.permits[i].peer == peer {
      OutstandingRelease(s.permits, i, peer);
      EntryAfterRelease(s.counters, peer, peer);
    }
  }

  /** The window is a minute; an attempt from the future is never outside it. */
  lemma OutsideWindow(now: Instant, t: Instant)
    ensures Age(now, t) >= WINDOW <==> now >= t + 60_000_000_000
  {}

  /** The table knows how many attempts a peer still has in it, and this one, cut to 32 bits. */
  function Counted(m: Counters, peer: NodeId, now: Instant): nat {
    (|Pruned(Entry(m, peer).attempts, now)| + 1) % 0x1_0000_0000
  }

  /**
   After any run, with any clocks, an attempt is refused exactly when it is counted above the cap per minute,
   or the peer holds one of its two caps in permits not yet given back; the refusals are told in this order,
   and every attempt stays in the table, refused or not.
   */
  lemma RefusedExactly(config: RateLimitConfig, ops: seq<Op>, peer: NodeId, now: Instant)
    ensures var s := After(config, EMPTY_NODE, ops);
            var over := Counted(s.counters, peer, now) > config.maxCallsPerMinute;
            var held := Outstanding(s.permits, peer);
            var (next, answer) := Do(config, s, Try(peer, now));
            && (answer == Refused(CallsPerMinute) <==> over)
            && (answer == Refused(ConcurrentCalls) <==> !over && held == config.maxConcurrentCalls)
            && (answer == Refused(LiveFrames) <==>
                  !over && held < config.maxConcurrentCalls && held == config.maxLiveFrames)
            && (answer == Admitted <==> !over && held < config.maxConcurrentCalls && held < config.maxLiveFrames)
            && next.permits == (if answer == Admitted then s.permits + [Permit(peer, false)] else s.permits)
            && peer in next.counters
            && next.counters[peer].attempts == Pruned(Entry(s.counters, peer).attempts, now) + [now]
            && forall q :: q != peer ==> (q in next.counters <==> q in s.counters)
                                         && Entry(next.counters, q) == Entry(s.counters, q)
  {
    RunKeepsPermits(config, EMPTY_NODE, ops);
    var s := After(config, EMPTY_NODE, ops);
    assert Entry(s.counters, peer).inFlight == Outstanding(s.permits, peer);
  }

  /** A release takes an entry out of the table exactly when nothing is left in it; asking for a count never does. */
  lemma TableEntriesExactly(m: Counters, peer: NodeId, q: NodeId, now: Instant)
    ensures q in AfterRelease(m, peer) <==>
              q in m && !(q == peer && m[q].inFlight <= 1 && m[q].attempts == [])
    ensures q in AfterRelease(m, peer) && q != peer ==> AfterRelease(m, peer)[q] == m[q]
    ensures q in AfterRelease(m, peer) && q == peer ==>
              && AfterRelease(m, peer)[q].attempts == m[q].attempts
              && AfterRelease(m, peer)[q].inFlight == if m[q].inFlight == 0 then 0 else m[q].inFlight - 1
    ensures q in AfterWindow(m, peer, now) <==> q in m
    ensures q in m ==> AfterWindow(m, peer, now)[q].inFlight == m[q].inFlight
    ensures q in m && q != peer ==> AfterWindow(m, peer, now)[q] == m[q]
  {}

  // ----- peers do not interfere -----

  datatype TableOp = TryAt(peer: NodeId, now: Instant) | ReleaseOf(peer: NodeId) | WindowAt(peer: NodeId, now: Instant)

  function TableDo(config: RateLimitConfig, m: Counters, op: TableOp): (Counters, Answer) {
    match op
    case TryAt(peer, now) =>
      (AfterTry(config, m, peer, now),
       match TryRefusal(config, m, peer, now) case Some(why) => Refused(why) case None => Admitted)
    case ReleaseOf(peer) => (AfterRelease(m, peer), Dropped)
    case WindowAt(peer, now) => (AfterWindow(m, peer, now), Count(WindowCount(m, peer, now)))
  }

  /** The answers one peer gets in a run of the shared table. */
  function PeerAnswers(config: RateLimitConfig, m: Counters, ops: seq<TableOp>, peer: NodeId): seq<Answer>
    decreases |ops|
  {
    if ops == [] then []
    else
      var step := TableDo(config, m, ops[0]);
      (if ops[0].peer == peer then [step.1] else []) + PeerAnswers(config, step.0, ops[1..], peer)
  }

  function OwnOps(ops: seq<TableOp>, peer: NodeId): seq<TableOp> {
    if ops == [] then []
    else (if ops[0].peer == peer then [ops[0]] else []) + OwnOps(ops[1..], peer)
  }

  lemma TableDoIsLocal(config: RateLimitConfig, m: Counters, alone: Counters, op: TableOp, peer: NodeId)
    requires Entry(m, peer) == Entry(alone, peer)
    ensures var step := TableDo(config, m, op);
            if op.peer != peer then Entry(step.0, peer) == Entry(alone, peer)
            else
              && step.1 == TableDo(config, alone, op).1
              && Entry(step.0, peer) == Entry(TableDo(config, alone, op).0, peer)
  {
    if op.ReleaseOf? {
      EntryAfterRelease(m, op.peer, peer);
      EntryAfterRelease(alone, op.peer, peer);
    }
  }

  /**
   Non-interference: in any interleaving with other peers, and from any table in which the peer's
   entry reads the same, present or absent, a peer gets the answers it would get alone.
   */
  lemma {:induction false} PeersAreIndependent(config: RateLimitConfig, m: Counters, alone: Counters,
                                               ops: seq<TableOp>, peer: NodeId)
    requires Entry(m, peer) == Entry(alone, peer)
    ensures PeerAnswers(config, m, ops, peer) == PeerAnswers(config, alone, OwnOps(ops, peer), peer)
    decreases |ops|
  {
    if ops != [] {
      TableDoIsLocal(config, m, alone, ops[0], peer);
      var next := TableDo(config, m, ops[0]).0;
      if ops[0].peer == peer {
        assert OwnOps(ops, peer)[1..] == OwnOps(ops[1..], peer);
        PeersAreIndependent(config, next, TableDo(config, alone, ops[0]).0, ops[1..], peer);
      } else {
        assert OwnOps(ops, peer) == OwnOps(ops[1..], peer);
        PeersAreIndependent(config, next, alone, ops[1..], peer);
      }
    }
  }
}
