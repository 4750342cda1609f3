/**
 An admitted call on the callee's side of a QUIC connection: the handler's opening messages, then a
 biased select until the call ends. What the network does is a script of when each arm would be ready.
 */
module QuicHandler {
  import opened Bytes
  import opened WireTypes
  import opened CallErrors
  import opened CallState
  import opened ChannelCall
  import opened NetworkWaits
  import opened Timing

  // ----- one select -----

  /** When each arm would become ready during one turn, in milliseconds since Submit was received. */
  datatype Surroundings = Surroundings(
    shutdown: Option<nat>,
    closed: Option<(nat, CloseCode)>,
    read: Option<(nat, Result<Message, FrameIoError>)>,
    write: Writing)

  datatype Arm =
    | Shutdown
    | Deadline
    | ConnClosed(close: CloseCode)
    | ReadDone(read: Result<Message, FrameIoError>)
    | ReadTimedOut

  function ReadAt(now: nat, budget: nat, s: Surroundings): (nat, Arm) {
    match s.read
    case Some((t, r)) =>
      if Later(now, t) <= now + budget then (Later(now, t), ReadDone(r)) else (now + budget, ReadTimedOut)
    case None => (now + budget, ReadTimedOut)
  }

  /** The biased select: shutdown, deadline, close, read; a silent handler never reads. */
  function Select(now: nat, due: nat, budget: nat, ignorePeer: bool, s: Surroundings): (nat, Arm) {
    var timer := (Later(now, due), Deadline);
    var far := Later(now, due) + 1;
    var shutdown := if s.shutdown.Some? then (Later(now, s.shutdown.value), Shutdown) else (far, Shutdown);
    var closed := if s.closed.Some? then (Later(now, s.closed.value.0), ConnClosed(s.closed.value.1)) else timer;
    var read := if ignorePeer then timer else ReadAt(now, budget, s);
    First(First(First(shutdown, timer), closed), read)
  }

  // ----- the loop -----

  /** When and how the call ended. */
  datatype LoopEnd = LoopEnd(at: nat, result: Result<Outcome, CallError>)

  datatype Turn = Ends(end: LoopEnd) | Continues(state: CalleeState, now: nat)

  function EndOf(step: Result<Step<CalleeState>, Illegal>): Result<Outcome, CallError> {
    if step.Ok? && step.value.state.Terminal? then Ok(step.value.state.outcome) else Err(IllegalTransition)
  }

  /** The deadline's own message is written under the budget, and how that ends is ignored. */
  function DeadlineEnd(state: CalleeState, at: nat, budget: nat, write: Writing): LoopEnd {
    var step := CalleeStep(state, Event.Timeout);
    LoopEnd(if step.Ok? && step.value.emit.Some? then at + AwaitWrite(budget, write).0 else at, EndOf(step))
  }

  function ReadTurn(state: CalleeState, at: nat, budget: nat, read: Result<Message, FrameIoError>, write: Writing):
    Turn
  {
    match read
    case Err(e) =>
      if e.UnexpectedEnd? || e.Read? || e.Write? then
        var end := EndOf(CalleeStep(state, ConnLost(Normal)));
        Ends(LoopEnd(at, end))
      else Ends(LoopEnd(at, Err(Frame(e))))
    case Ok(m) =>
      match CalleeStep(state, Recv(m))
      case Err(_) => Ends(LoopEnd(at, Err(IllegalTransition)))
      case Ok(step) =>
        if step.emit.None? then Continues(step.state, at)
        else
          var (took, written) := AwaitWrite(budget, write);
          match written
          case Err(e) => Ends(LoopEnd(at + took, Err(e)))
          case Ok(_) => Continues(step.state, at + took)
  }

  function OneTurn(state: CalleeState, now: nat, due: nat, budget: nat, ignorePeer: bool, s: Surroundings): Turn {
    var (at, arm) := Select(now, due, budget, ignorePeer, s);
    match arm
    case Shutdown => Ends(LoopEnd(at, Err(Cancelled)))
    case Deadline => Ends(DeadlineEnd(state, at, budget, s.write))
    case ConnClosed(code) => Ends(LoopEnd(at, EndOf(CalleeStep(state, ConnLost(code)))))
    case ReadTimedOut => Continues(state, at)
    case ReadDone(read) => ReadTurn(state, at, budget, read, s.write)
  }

  const AT_ONCE: Writing := Writing(0, Ok(()))

  /** When the script is used up nothing else happens, the deadline fires and its message is written at once. */
  function Turns(state: CalleeState, now: nat, due: nat, budget: nat, ignorePeer: bool, script: seq<Surroundings>):
    LoopEnd
    decreases |script|
  {
    if state.Terminal? then LoopEnd(now, Ok(state.outcome))
    else if script == [] then DeadlineEnd(state, Later(now, due), budget, AT_ONCE)
    else
      match OneTurn(state, now, due, budget, ignorePeer, script[0])
      case Ends(end) => end
      case Continues(state', now') => Turns(state', now', due, budget, ignorePeer, script[1..])
  }

  // ----- the whole call -----

  /** `shutdownAfter` and `closedAfter` can end the last wait, once the outcome is settled. */
  datatype HandlerNetwork = HandlerNetwork(
    openingWrites: (Writing, Writing), script: seq<Surroundings>, shutdownAfter: Option<nat>, closedAfter: Option<nat>)

  /** After a handler message: the machine's state, the time taken, and the error if the call ends here. */
  function EmitStep(state: CalleeState, m: Message, budget: nat, write: Writing):
    (Result<CalleeState, CallError>, nat)
  {
    match CalleeStep(state, Send(m))
    case Err(_) => (Err(IllegalTransition), 0)
    case Ok(step) =>
      var (took, written) := AwaitWrite(budget, write);
      (match written case Ok(_) => Ok(step.state) case Err(e) => Err(e), took)
  }

  /** The handler's opening messages: where the machine stands and when, or the error that ends the call. */
  function Opening(behavior: CalleeBehavior, budget: nat, writes: (Writing, Writing)):
    (Result<CalleeState, CallError>, nat)
  {
    var messages := OpeningMessages(behavior);
    var (first, took) := EmitStep(Offered, messages[0], budget, writes.0);
    if first.Err? || |messages| == 1 then (first, took)
    else var (second, more) := EmitStep(first.value, messages[1], budget, writes.1); (second, took + more)
  }

  /** When and how the outcome of an admitted call is settled. */
  function Handled(behavior: CalleeBehavior, deadline: Deadline, net: HandlerNetwork): LoopEnd {
    var budget := CallerBudget(deadline);
    var (started, at) := Opening(behavior, budget, net.openingWrites);
    match started
    case Err(e) => LoopEnd(at, Err(e))
    case Ok(state) => Turns(state, at, CalleeBudget(deadline), budget, behavior == SilentHang, net.script)
  }

  /** The end of the wait for the caller to see the outcome: a shutdown, the connection's end, or the grace. */
  function LastWait(at: nat, net: HandlerNetwork): nat {
    var over := at + GRACE_MS;
    var shutdown := if net.shutdownAfter.Some? then Later(at, net.shutdownAfter.value) else over;
    var closed := if net.closedAfter.Some? then Later(at, net.closedAfter.value) else over;
    First(First((shutdown, ()), (closed, ())), (over, ())).0
  }

  /** When the handler returns: an error at once, an outcome after the last wait. */
  function Answered(behavior: CalleeBehavior, deadline: Deadline, net: HandlerNetwork): LoopEnd {
    var end := Handled(behavior, deadline, net);
    if end.result.Ok? then LoopEnd(LastWait(end.at, net), end.result) else end
  }

  /**
   The state moves on whenever the message is legal, whether or not it can then be written; the result is
   Ok exactly for a legal message written within the budget, and otherwise names the one thing that went
   wrong; an illegal message takes no time and no call ever waits longer than the budget.
   */
  method EmitCallee(start: CalleeState, m: Message, budget: nat, write: Writing)
    returns (r: Result<(), CallError>, state: CalleeState, took: nat)
    ensures CalleeStep(start, Send(m)).Ok? ==> state == CalleeStep(start, Send(m)).value.state
    ensures CalleeStep(start, Send(m)).Err? ==> state == start
    ensures took == if CalleeStep(start, Send(m)).Err? then 0 else if write.takes < budget then write.takes else budget
    ensures r.Ok? <==> CalleeStep(start, Send(m)).Ok? && write.takes <= budget && write.result.Ok?
    ensures r == Err(IllegalTransition) <==> CalleeStep(start, Send(m)).Err?
    ensures r == Err(NetworkTimeout) <==> CalleeStep(start, Send(m)).Ok? && write.takes > budget
    ensures forall e :: r == Err(Frame(e)) <==>
              CalleeStep(start, Send(m)).Ok? && write.takes <= budget && write.result == Err(e)
  {
    state, took := start, 0;
    var step := CalleeStep(state, Send(m));
    if step.Err? {
      return Err(IllegalTransition), state, took;
    }
    state := step.value.state;
    var waited := AwaitWrite(budget, write);
    took := waited.0;
    if waited.1.Err? {
      return Err(waited.1.error), state, took;
    }
    r := Ok(());
  }

  /** A write that the transport takes within the budget. */
  predicate Written(w: Writing, budget: nat) {
    w.takes <= budget && w.result.Ok?
  }

  function WriteFailure(w: Writing, budget: nat): Result<CalleeState, CallError> {
    if w.takes > budget then Err(NetworkTimeout)
    else match w.result case Ok(_) => Err(IllegalTransition) case Err(e) => Err(Frame(e))
  }

  function Min(a: nat, b: nat): nat {
    if a < b then a else b
  }

  /**
   Every behaviour sends Accepted first; the stub then completes the call and the third asks for input. The
   first write that fails ends the call with its failure, and no write is waited for longer than the budget.
   */
  lemma OpeningsExactly(behavior: CalleeBehavior, budget: nat, writes: (Writing, Writing))
    ensures Opening(behavior, budget, writes) ==
            if !Written(writes.0, budget) then (WriteFailure(writes.0, budget), Min(writes.0.takes, budget))
            else if behavior == HangAfterAccept || behavior == SilentHang then
              (Ok(CalleeState.Working), writes.0.takes)
            else if !Written(writes.1, budget) then
              (WriteFailure(writes.1, budget), writes.0.takes + Min(writes.1.takes, budget))
            else if behavior == StubComplete then
              (Ok(CalleeState.Terminal(Outcome.Completed)), writes.0.takes + writes.1.takes)
            else (Ok(NeedInputSent), writes.0.takes + writes.1.takes)
  {}

  /** The handler's opening messages, up to the first that fails. */
  method EmitOpening(behavior: CalleeBehavior, budget: nat, writes: (Writing, Writing))
    returns (r: Result<CalleeState, CallError>, at: nat)
    ensures (r, at) == Opening(behavior, budget, writes)
    ensures Written(writes.0, budget) && (behavior == HangAfterAccept || behavior == SilentHang) ==>
              r == Ok(CalleeState.Working) && at == writes.0.takes
    ensures Written(writes.0, budget) && Written(writes.1, budget) ==>
              && (behavior == StubComplete ==>
                    r == Ok(CalleeState.Terminal(Outcome.Completed)) && at == writes.0.takes + writes.1.takes)
              && (behavior == NeedInputHang ==> r == Ok(NeedInputSent) && at == writes.0.takes + writes.1.takes)
  {
    OpeningsExactly(behavior, budget, writes);
    var messages := OpeningMessages(behavior);
    var emitted, state, took := EmitCallee(Offered, messages[0], budget, writes.0);
    at := took;
    assert EmitStep(Offered, messages[0], budget, writes.0)
        == (match emitted case Ok(_) => Ok(state) case Err(e) => Err(e), took);
    if emitted.Err? {
      return Err(emitted.error), at;
    }
    if |messages| > 1 {
      ghost var before := state;
      emitted, state, took := EmitCallee(state, messages[1], budget, writes.1);
      at := at + took;
      assert EmitStep(before, messages[1], budget, writes.1)
          == (match emitted case Ok(_) => Ok(state) case Err(e) => Err(e), took);
      if emitted.Err? {
        return Err(emitted.error), at;
      }
    }
    r := Ok(state);
  }

  method WaitTerminal(start: CalleeState, from: nat, due: nat, budget: nat, ignorePeer: bool, script: seq<Surroundings>)
    returns (r: Result<Outcome, CallError>, at: nat)
    ensures LoopEnd(at, r) == Turns(start, from, due, budget, ignorePeer, script)
  {
    var state, now := start, from;
    var i := 0;
    while i < |script|
      invariant i <= |script|
      invariant Turns(state, now, due, budget, ignorePeer, script[i..])
             == Turns(start, from, due, budget, ignorePeer, script)
    {
      if state.Terminal? {
        return Ok(state.outcome), now;
      }
      var (woke, arm) := Select(now, due, budget, ignorePeer, script[i]);
      match arm {
        case Shutdown => return Err(Cancelled), woke;
        case Deadline =>
          var end := DeadlineEnd(state, woke, budget, script[i].write);
          return end.result, end.at;
        case ConnClosed(code) => return EndOf(CalleeStep(state, ConnLost(code))), woke;
        case ReadTimedOut => now := woke;
        case ReadDone(read) =>
          var turn := ReadTurn(state, woke, budget, read, script[i].write);
          if turn.Ends? {
            return turn.end.result, turn.end.at;
          }
          state, now := turn.state, turn.now;
      }
      i := i + 1;
    }
    if state.Terminal? {
      return Ok(state.outcome), now;
    }
    var end := DeadlineEnd(state, Later(now, due), budget, AT_ONCE);
    r, at := end.result, end.at;
  }

  // ----- the select and the time it takes -----

  function ClosedAt(s: Surroundings): Option<nat> {
    if s.closed.Some? then Some(s.closed.value.0) else None
  }

  function ReadyReadAt(s: Surroundings): Option<nat> {
    if s.read.Some? then Some(s.read.value.0) else None
  }

  /**
   The select wakes as soon as anything is ready and not before, and then runs the first ready arm:
   shutdown, deadline, close, read. The read's own budget never runs out first.
   */
  lemma SelectIsBiased(now: nat, due: nat, budget: nat, ignorePeer: bool, s: Surroundings)
    requires due <= budget
    ensures var (at, arm) := Select(now, due, budget, ignorePeer, s);
            && at >= now
            && (at > now ==>
                  && !Ready(s.shutdown, at - 1) && at - 1 < due && !Ready(ClosedAt(s), at - 1)
                  && !(!ignorePeer && Ready(ReadyReadAt(s), at - 1)))
            && (arm.Shutdown? <==> Ready(s.shutdown, at))
            && (arm.Deadline? <==> !Ready(s.shutdown, at) && at >= due)
            && (arm.ConnClosed? <==> !Ready(s.shutdown, at) && at < due && Ready(ClosedAt(s), at))
            && (arm.ReadDone? <==>
                  && !Ready(s.shutdown, at) && at < due && !Ready(ClosedAt(s), at)
                  && !ignorePeer && Ready(ReadyReadAt(s), at))
            && !arm.ReadTimedOut?
            && (arm.ConnClosed? ==> arm.close == s.closed.value.1)
            && (arm.ReadDone? ==> arm.read == s.read.value.1)
  {}

  predicate AnyReady(at: nat, due: nat, ignorePeer: bool, s: Surroundings) {
    Ready(s.shutdown, at) || at >= due || Ready(ClosedAt(s), at) || (!ignorePeer && Ready(ReadyReadAt(s), at))
  }

  /** The moment at which a turn wakes: the earliest at which anything is ready, or the deadline due. */
  predicate WakesAt(at: nat, now: nat, due: nat, ignorePeer: bool, s: Surroundings) {
    at >= now && AnyReady(at, due, ignorePeer, s) && (at > now ==> !AnyReady(at - 1, due, ignorePeer, s))
  }

  lemma WakesOnce(at: nat, now: nat, due: nat, budget: nat, ignorePeer: bool, s: Surroundings)
    requires due <= budget
    ensures WakesAt(at, now, due, ignorePeer, s) <==> at == Select(now, due, budget, ignorePeer, s).0
  {
    SelectIsBiased(now, due, budget, ignorePeer, s);
  }

  /** The failures of a read that mean the stream has ended. */
  predicate IsStreamEnd(e: FrameIoError) {
    match e
    case UnexpectedEnd | Read(_) | Write => true
    case Codec(_) => false
  }

  /** A write: the error that ends the call, or the state to go on in. */
  predicate WriteEnds(turn: Turn, state: CalleeState, at: nat, budget: nat, write: Writing) {
    if write.takes > budget then turn == Ends(LoopEnd(at + budget, Err(NetworkTimeout)))
    else
      match write.result
      case Err(e) => turn == Ends(LoopEnd(at + write.takes, Err(Frame(e))))
      case Ok(_) => turn == Continues(state, at + write.takes)
  }

  /** A read: Cancel is answered, input is taken when it was asked for, and a stream that ends loses the peer. */
  lemma ReadTurnExactly(state: CalleeState, at: nat, budget: nat, read: Result<Message, FrameIoError>, write: Writing)
    requires !state.Terminal?
    ensures var turn := ReadTurn(state, at, budget, read, write);
            match read
            case Err(e) => turn == Ends(LoopEnd(at, if IsStreamEnd(e) then Ok(PeerLost) else Err(Frame(e))))
            case Ok(m) =>
              if m == Cancel then WriteEnds(turn, CalleeState.Terminal(Outcome.Canceled), at, budget, write)
              else if m.Input? && state.NeedInputSent? then turn == Continues(CalleeState.Working, at)
              else turn == Ends(LoopEnd(at, Err(IllegalTransition)))
  {
    if read.Ok? {
      CalleeByMessage(state, read.value);
    }
  }

  /**
   What every turn comes to, by what is ready when it wakes. The first of these that is ready decides:
   a shutdown is an error; the deadline fails the call and is told to the peer; a close ends the call in its
   own outcome; and otherwise something was read.
   */
  lemma TurnExactly(state: CalleeState, at: nat, now: nat, due: nat, budget: nat, ignorePeer: bool, s: Surroundings)
    requires !state.Terminal? && due <= budget && WakesAt(at, now, due, ignorePeer, s)
    ensures var turn := OneTurn(state, now, due, budget, ignorePeer, s);
            if Ready(s.shutdown, at) then turn == Ends(LoopEnd(at, Err(Cancelled)))
            else if at >= due then
              turn == Ends(LoopEnd(at + Min(s.write.takes, budget), Ok(Outcome.Failed(DeadlineExceeded))))
            else if Ready(ClosedAt(s), at) then
              var code := s.closed.value.1;
              turn == Ends(LoopEnd(at, Ok(if code == Normal then PeerLost else Closed(code))))
            else
              && !ignorePeer && Ready(ReadyReadAt(s), at)
              && turn == ReadTurn(state, at, budget, s.read.value.1, s.write)
  {
    WakesOnce(at, now, due, budget, ignorePeer, s);
    SelectIsBiased(now, due, budget, ignorePeer, s);
  }

  lemma TurnIsTimely(state: CalleeState, now: nat, due: nat, budget: nat, ignorePeer: bool, s: Surroundings)
    requires due <= budget && !state.Terminal?
    ensures match OneTurn(state, now, due, budget, ignorePeer, s)
            case Ends(end) => end.at <= Later(now, due) + budget
            case Continues(state', now') => now' <= Later(now, due) + budget && (now' > due ==> state'.Terminal?)
  {
    SelectIsBiased(now, due, budget, ignorePeer, s);
  }

  lemma {:induction false} TurnsAreTimely(state: CalleeState, now: nat, due: nat, budget: nat, ignorePeer: bool,
                                          script: seq<Surroundings>)
    requires due <= budget
    ensures Turns(state, now, due, budget, ignorePeer, script).at <= Later(now, due) + budget
    decreases |script|
  {
    if !state.Terminal? && script != [] {
      TurnIsTimely(state, now, due, budget, ignorePeer, script[0]);
      var turn := OneTurn(state, now, due, budget, ignorePeer, script[0]);
      if turn.Continues? {
        TurnsAreTimely(turn.state, turn.now, due, budget, ignorePeer, script[1..]);
      }
    }
  }

  /** How many budgets an admitted call can take: one for each opening message, and one for the last message. */
  function Budgets(behavior: CalleeBehavior): nat {
    match behavior
    case StubComplete => 2
    case HangAfterAccept => 2
    case NeedInputHang => 3
    case SilentHang => 2
  }

  /**
   Real-time bound of the callee: its writes hold its loop as the caller's do. The outcome of an admitted
   call is settled within two or three of the caller's budgets, and the handler returns within the grace
   after that.
   */
  lemma CalleeReturnsInTime(behavior: CalleeBehavior, deadline: Deadline, net: HandlerNetwork)
    ensures Handled(behavior, deadline, net).at <= Budgets(behavior) * CallerBudget(deadline)
    ensures Handled(behavior, deadline, net).at <= Answered(behavior, deadline, net).at
         <= Handled(behavior, deadline, net).at + GRACE_MS
  {
    var budget := CallerBudget(deadline);
    BudgetsDifferByGrace(deadline);
    var (started, at) := Opening(behavior, budget, net.openingWrites);
    if started.Ok? {
      TurnsAreTimely(started.value, at, CalleeBudget(deadline), budget, behavior == SilentHang, net.script);
    }
  }

  /** The stub, the default behaviour, completes the call when both of its messages are written in time. */
  lemma StubCompletes(deadline: Deadline, net: HandlerNetwork)
    ensures Handled(StubComplete, deadline, net).result == Ok(Outcome.Completed) <==>
            && net.openingWrites.0.takes <= deadline + 5_000 && net.openingWrites.0.result.Ok?
            && net.openingWrites.1.takes <= deadline + 5_000 && net.openingWrites.1.result.Ok?
    ensures var end := Handled(StubComplete, deadline, net);
            end.result.Ok? ==> end.at == net.openingWrites.0.takes + net.openingWrites.1.takes
  {
    BudgetsDifferByGrace(deadline);
    OpeningsExactly(StubComplete, CallerBudget(deadline), net.openingWrites);
  }

  lemma HandledFrom(behavior: CalleeBehavior, deadline: Deadline, net: HandlerNetwork, state: CalleeState, at: nat)
    requires Opening(behavior, deadline + 5_000, net.openingWrites) == (Ok(state), at)
    ensures Handled(behavior, deadline, net)
         == Turns(state, at, deadline, deadline + 5_000, behavior == SilentHang, net.script)
  {
    BudgetsDifferByGrace(deadline);
  }

  lemma QuietLoop(state: CalleeState, at: nat, due: nat, budget: nat, ignorePeer: bool)
    requires !state.Terminal?
    ensures Turns(state, at, due, budget, ignorePeer, [])
         == LoopEnd(if at > due then at else due, Ok(Outcome.Failed(DeadlineExceeded)))
  {}

  function HangingState(behavior: CalleeBehavior): CalleeState {
    if behavior == NeedInputHang then NeedInputSent else CalleeState.Working
  }

  function OpeningTime(behavior: CalleeBehavior, writes: (Writing, Writing)): nat {
    writes.0.takes + if behavior == NeedInputHang then writes.1.takes else 0
  }

  predicate HangsInTime(behavior: CalleeBehavior, budget: nat, writes: (Writing, Writing)) {
    behavior != StubComplete && Written(writes.0, budget) && (behavior == NeedInputHang ==> Written(writes.1, budget))
  }

  lemma HangingOpening(behavior: CalleeBehavior, budget: nat, writes: (Writing, Writing))
    requires HangsInTime(behavior, budget, writes)
    ensures Opening(behavior, budget, writes) == (Ok(HangingState(behavior)), OpeningTime(behavior, writes))
  {
    OpeningsExactly(behavior, budget, writes);
  }

  /** The others start their loop where their opening leaves them. */
  lemma HangingBehaviors(behavior: CalleeBehavior, deadline: Deadline, net: HandlerNetwork)
    requires HangsInTime(behavior, deadline + 5_000, net.openingWrites)
    ensures Handled(behavior, deadline, net)
         == Turns(HangingState(behavior), OpeningTime(behavior, net.openingWrites), deadline, deadline + 5_000,
                  behavior == SilentHang, net.script)
  {
    HangingOpening(behavior, deadline + 5_000, net.openingWrites);
    HandledFrom(behavior, deadline, net, HangingState(behavior), OpeningTime(behavior, net.openingWrites));
  }

  /** When nothing happens they wait for the deadline, and fail. */
  lemma NothingHappens(behavior: CalleeBehavior, deadline: Deadline, net: HandlerNetwork)
    requires HangsInTime(behavior, deadline + 5_000, net.openingWrites) && net.script == []
    ensures Handled(behavior, deadline, net).result == Ok(Outcome.Failed(DeadlineExceeded))
    ensures var at := OpeningTime(behavior, net.openingWrites);
            Handled(behavior, deadline, net).at == if at > deadline then at else deadline
  {
    var at := OpeningTime(behavior, net.openingWrites);
    HangingBehaviors(behavior, deadline, net);
    QuietLoop(HangingState(behavior), at, deadline, deadline + 5_000, behavior == SilentHang);
  }

  /** What ends the last wait has happened, or its five seconds are over. */
  predicate WaitIsOver(t: nat, at: nat, net: HandlerNetwork) {
    Ready(net.shutdownAfter, t) || Ready(net.closedAfter, t) || t >= at + 5_000
  }

  /** The last wait ends at the first moment from the outcome on at which it is over. */
  lemma LastWaitExactly(at: nat, net: HandlerNetwork)
    ensures var over := LastWait(at, net);
            over >= at && WaitIsOver(over, at, net) && (over > at ==> !WaitIsOver(over - 1, at, net))
  {}

  /** The handler returns an error at once, and an outcome unchanged when the last wait is over. */
  lemma AnsweredExactly(behavior: CalleeBehavior, deadline: Deadline, net: HandlerNetwork)
    ensures var end := Handled(behavior, deadline, net);
            var answered := Answered(behavior, deadline, net);
            && answered.result == end.result
            && (end.result.Err? ==> answered.at == end.at)
            && (end.result.Ok? ==>
                  && answered.at >= end.at && WaitIsOver(answered.at, end.at, net)
                  && (answered.at > end.at ==> !WaitIsOver(answered.at - 1, end.at, net)))
  {
    LastWaitExactly(Handled(behavior, deadline, net).at, net);
  }

  /** The bound is reached, for every deadline and every behaviour. */
  lemma CalleeBoundIsReached(behavior: CalleeBehavior, deadline: Deadline)
    ensures exists net :: Handled(behavior, deadline, net).at == Budgets(behavior) * CallerBudget(deadline)
  {
    var budget := CallerBudget(deadline);
    BudgetsDifferByGrace(deadline);
    var slow := Writing(budget, Ok(()));
    var quiet := Surroundings(None, None, None, slow);
    var net := HandlerNetwork((slow, slow), [quiet], None, None);
    var (started, at) := Opening(behavior, budget, net.openingWrites);
    assert started.Ok? && Select(at, deadline, budget, behavior == SilentHang, quiet) == (at, Deadline);
    assert Handled(behavior, deadline, net).at == Budgets(behavior) * budget;
  }

  // ----- exactly when the deadline is met -----

  /** The message that running this arm writes, if any. */
  function WrittenBy(state: CalleeState, arm: Arm): Option<Message> {
    match arm
    case Deadline =>
      (match CalleeStep(state, Event.Timeout) case Ok(step) => step.emit case Err(_) => None)
    case ReadDone(Ok(m)) =>
      (match CalleeStep(state, Recv(m)) case Ok(step) => step.emit case Err(_) => None)
    case _ => None
  }

  /** Some turn writes a message, and that write is over only after the deadline. */
  predicate WriteOverruns(state: CalleeState, now: nat, due: nat, budget: nat, ignorePeer: bool,
                          script: seq<Surroundings>)
    decreases |script|
  {
    && !state.Terminal? && script != []
    && (var (at, arm) := Select(now, due, budget, ignorePeer, script[0]);
        || (WrittenBy(state, arm).Some? && at + AwaitWrite(budget, script[0].write).0 > due)
        || match OneTurn(state, now, due, budget, ignorePeer, script[0])
           case Ends(_) => false
           case Continues(state', now') => WriteOverruns(state', now', due, budget, ignorePeer, script[1..]))
  }

  function TurnAt(turn: Turn): nat {
    match turn case Ends(end) => end.at case Continues(_, now) => now
  }

  /** One turn from before the deadline: it passes it exactly when it writes a message and the write does. */
  lemma TurnOverruns(state: CalleeState, now: nat, due: nat, budget: nat, ignorePeer: bool, s: Surroundings)
    requires now <= due <= budget
    ensures var (at, arm) := Select(now, due, budget, ignorePeer, s);
            TurnAt(OneTurn(state, now, due, budget, ignorePeer, s)) > due <==>
              WrittenBy(state, arm).Some? && at + AwaitWrite(budget, s.write).0 > due
  {
    SelectIsBiased(now, due, budget, ignorePeer, s);
  }

  lemma TurnNotBefore(state: CalleeState, now: nat, due: nat, budget: nat, ignorePeer: bool, s: Surroundings)
    requires due <= budget
    ensures now <= TurnAt(OneTurn(state, now, due, budget, ignorePeer, s))
  {
    SelectIsBiased(now, due, budget, ignorePeer, s);
  }

  lemma {:induction false} TurnsNotBefore(state: CalleeState, now: nat, due: nat, budget: nat, ignorePeer: bool,
                                          script: seq<Surroundings>)
    requires due <= budget
    ensures Turns(state, now, due, budget, ignorePeer, script).at >= now
    decreases |script|
  {
    if !state.Terminal? && script != [] {
      TurnNotBefore(state, now, due, budget, ignorePeer, script[0]);
      var turn := OneTurn(state, now, due, budget, ignorePeer, script[0]);
      if turn.Continues? {
        TurnsNotBefore(turn.state, turn.now, due, budget, ignorePeer, script[1..]);
      }
    }
  }

  lemma {:induction false} TurnsOverrunExactly(state: CalleeState, now: nat, due: nat, budget: nat, ignorePeer: bool,
                                               script: seq<Surroundings>)
    requires now <= due <= budget
    ensures Turns(state, now, due, budget, ignorePeer, script).at > due <==>
            WriteOverruns(state, now, due, budget, ignorePeer, script)
    decreases |script|
  {
    if !state.Terminal? && script != [] {
      TurnOverruns(state, now, due, budget, ignorePeer, script[0]);
      var turn := OneTurn(state, now, due, budget, ignorePeer, script[0]);
      if turn.Continues? {
        if turn.now > due {
          TurnsNotBefore(turn.state, turn.now, due, budget, ignorePeer, script[1..]);
        } else {
          TurnsOverrunExactly(turn.state, turn.now, due, budget, ignorePeer, script[1..]);
        }
      }
    }
  }

  /**
   The outcome of an admitted call is settled after its deadline exactly when the opening messages take
   longer than that, or a message the loop writes is written past it.
   */
  lemma DeadlineMissedExactly(behavior: CalleeBehavior, deadline: Deadline, net: HandlerNetwork)
    ensures var budget := CallerBudget(deadline);
            var (started, at) := Opening(behavior, budget, net.openingWrites);
            Handled(behavior, deadline, net).at > deadline <==>
              || at > deadline
              || (started.Ok? && WriteOverruns(started.value, at, deadline, budget, behavior == SilentHang, net.script))
  {
    var budget, silent := CallerBudget(deadline), behavior == SilentHang;
    BudgetsDifferByGrace(deadline);
    var (started, at) := Opening(behavior, budget, net.openingWrites);
    if started.Ok? {
      if at > deadline {
        TurnsNotBefore(started.value, at, deadline, budget, silent, net.script);
      } else {
        TurnsOverrunExactly(started.value, at, deadline, budget, silent, net.script);
      }
    }
  }

  /** Every write that the callee may have to wait for is done at once. */
  predicate Quick(net: HandlerNetwork) {
    && net.openingWrites.0.takes == 0 && net.openingWrites.1.takes == 0
    && forall i :: 0 <= i < |net.script| ==> net.script[i].write.takes == 0
  }

  lemma {:induction false} QuickNeverOverruns(state: CalleeState, now: nat, due: nat, budget: nat, ignorePeer: bool,
                                              script: seq<Surroundings>)
    requires now <= due <= budget && forall i :: 0 <= i < |script| ==> script[i].write.takes == 0
    ensures !WriteOverruns(state, now, due, budget, ignorePeer, script)
    decreases |script|
  {
    if !state.Terminal? && script != [] {
      SelectIsBiased(now, due, budget, ignorePeer, script[0]);
      var turn := OneTurn(state, now, due, budget, ignorePeer, script[0]);
      if turn.Continues? {
        QuickNeverOverruns(turn.state, turn.now, due, budget, ignorePeer, script[1..]);
      }
    }
  }

  /** In particular a callee whose writes are all done at once never misses it, whatever the peer does and whenever. */
  lemma QuickCalleeEndsByDeadline(behavior: CalleeBehavior, deadline: Deadline, net: HandlerNetwork)
    requires Quick(net)
    ensures Handled(behavior, deadline, net).at <= deadline
  {
    var budget := CallerBudget(deadline);
    BudgetsDifferByGrace(deadline);
    DeadlineMissedExactly(behavior, deadline, net);
    var (started, at) := Opening(behavior, budget, net.openingWrites);
    if started.Ok? {
      QuickNeverOverruns(started.value, at, deadline, budget, behavior == SilentHang, net.script);
    }
  }

  // ----- the same machine as the channel driver -----

  /** What the channel driver would have woken up for; `None` for a shutdown, an abnormal close or a network failure. */
  function WakeOf(state: CalleeState, budget: nat, arm: Arm, s: Surroundings): Option<CalleeWake> {
    match arm
    case Deadline => Some(DeadlineFired)
    case ConnClosed(code) => if code == Normal then Some(CalleeWake.InboxClosed) else None
    case ReadDone(Ok(m)) =>
      if WrittenBy(state, arm).Some? && AwaitWrite(budget, s.write).1.Err? then None else Some(CalleeWake.Inbox(m))
    case ReadDone(Err(e)) => if e.Codec? then None else Some(CalleeWake.InboxClosed)
    case Shutdown | ReadTimedOut => None
  }

  /** All the wake-ups of the loop, until it returns. */
  function LoopWakes(state: CalleeState, now: nat, due: nat, budget: nat, ignorePeer: bool, script: seq<Surroundings>):
    Option<seq<CalleeWake>>
    decreases |script|
  {
    if state.Terminal? then Some([])
    else if script == [] then Some([DeadlineFired])
    else
      match WakeOf(state, budget, Select(now, due, budget, ignorePeer, script[0]).1, script[0])
      case None => None
      case Some(wake) =>
        match OneTurn(state, now, due, budget, ignorePeer, script[0])
        case Ends(_) => Some([wake])
        case Continues(state', now') =>
          match LoopWakes(state', now', due, budget, ignorePeer, script[1..])
          case None => None
          case Some(later) => Some([wake] + later)
  }

  predicate SameEnd(turn: Turn, side: Side<CalleeState>) {
    match turn
    case Ends(end) => side == Returned(end.result)
    case Continues(state, _) => side == CalleeSettles(state)
  }

  lemma TurnFollowsDriver(state: CalleeState, now: nat, due: nat, budget: nat, ignorePeer: bool, s: Surroundings)
    requires !state.Terminal? && WakeOf(state, budget, Select(now, due, budget, ignorePeer, s).1, s).Some?
    ensures var wake := WakeOf(state, budget, Select(now, due, budget, ignorePeer, s).1, s).value;
            SameEnd(OneTurn(state, now, due, budget, ignorePeer, s), CalleeTurn(state, wake).side)
  {}

  lemma DeadlineFollowsDriver(state: CalleeState, at: nat, budget: nat, write: Writing)
    requires !state.Terminal?
    ensures CalleeTurn(state, DeadlineFired).side == Returned(DeadlineEnd(state, at, budget, write).result)
  {}

  /** The first wake-up of the driver, then the others. */
  lemma DriverStep(state: CalleeState, sent: seq<Message>, wake: CalleeWake, later: seq<CalleeWake>)
    ensures CalleeTurns(ChannelCall.Turn(Running(state), sent), [wake] + later)
         == (var t := CalleeTurn(state, wake); CalleeTurns(ChannelCall.Turn(t.side, sent + t.out), later))
  {
    assert ([wake] + later)[1..] == later;
  }

  lemma {:induction false} LoopFollowsDriver(state: CalleeState, now: nat, due: nat, budget: nat, ignorePeer: bool,
                                             script: seq<Surroundings>, sent: seq<Message>)
    requires LoopWakes(state, now, due, budget, ignorePeer, script).Some?
    ensures CalleeTurns(ChannelCall.Turn(CalleeSettles(state), sent),
                        LoopWakes(state, now, due, budget, ignorePeer, script).value).side
         == Returned(Turns(state, now, due, budget, ignorePeer, script).result)
    decreases |script|
  {
    if !state.Terminal? {
      if script == [] {
        DeadlineFollowsDriver(state, Later(now, due), budget, AT_ONCE);
        DriverStep(state, sent, DeadlineFired, []);
        assert [DeadlineFired] + [] == [DeadlineFired];
      } else {
        var wake := WakeOf(state, budget, Select(now, due, budget, ignorePeer, script[0]).1, script[0]).value;
        var turn := OneTurn(state, now, due, budget, ignorePeer, script[0]);
        TurnFollowsDriver(state, now, due, budget, ignorePeer, script[0]);
        if turn.Ends? {
          DriverStep(state, sent, wake, []);
          assert [wake] + [] == [wake];
        } else {
          var later := LoopWakes(turn.state, turn.now, due, budget, ignorePeer, script[1..]).value;
          DriverStep(state, sent, wake, later);
          LoopFollowsDriver(turn.state, turn.now, due, budget, ignorePeer, script[1..],
                            sent + CalleeTurn(state, wake).out);
        }
      }
    }
  }

  /** The opening messages are written. */
  predicate Opens(behavior: CalleeBehavior, budget: nat, writes: (Writing, Writing)) {
    AwaitWrite(budget, writes.0).1.Ok? && (|OpeningMessages(behavior)| > 1 ==> AwaitWrite(budget, writes.1).1.Ok?)
  }

  lemma OpeningFollowsDriver(behavior: CalleeBehavior, budget: nat, writes: (Writing, Writing))
    requires Opens(behavior, budget, writes)
    ensures var state := Opening(behavior, budget, writes).0;
            && state.Ok?
            && CalleeTurns(ChannelCall.Turn(Running(Offered), []), OpeningWakes(behavior, (true, true)))
            == ChannelCall.Turn(CalleeSettles(state.value), OpeningMessages(behavior))
  {
    var m := OpeningMessages(behavior);
    if |m| == 1 {
      DriverStep(Offered, [], Handler(m[0], true), []);
      assert [Handler(m[0], true)] + [] == [Handler(m[0], true)] && [] + [m[0]] == m;
    } else {
      DriverStep(Offered, [], Handler(m[0], true), [Handler(m[1], true)]);
      DriverStep(CalleeState.Working, [m[0]], Handler(m[1], true), []);
      assert [] + [m[0]] == [m[0]] && [m[0]] + [m[1]] == m;
      assert [Handler(m[0], true)] + [Handler(m[1], true)] == [Handler(m[0], true), Handler(m[1], true)];
      assert [Handler(m[1], true)] + [] == [Handler(m[1], true)];
    }
  }

  lemma CalleeFollowsTurns(behavior: CalleeBehavior, deadline: Deadline, net: HandlerNetwork, wakes: seq<CalleeWake>)
    requires Opens(behavior, CallerBudget(deadline), net.openingWrites)
    requires Wakes(behavior, deadline, net) == Some(wakes)
    ensures CalleeTurns(ChannelCall.Turn(Running(Offered), []), OpeningWakes(behavior, (true, true)) + wakes).side
         == Returned(Handled(behavior, deadline, net).result)
  {
    var budget, silent := CallerBudget(deadline), behavior == SilentHang;
    OpeningFollowsDriver(behavior, budget, net.openingWrites);
    var (started, at) := Opening(behavior, budget, net.openingWrites);
    CalleeTurnsSplit(ChannelCall.Turn(Running(Offered), []), OpeningWakes(behavior, (true, true)), wakes);
    LoopFollowsDriver(started.value, at, CalleeBudget(deadline), budget, silent, net.script, OpeningMessages(behavior));
  }

  /** The wake-ups after the opening messages. */
  function Wakes(behavior: CalleeBehavior, deadline: Deadline, net: HandlerNetwork): Option<seq<CalleeWake>>
    requires Opens(behavior, CallerBudget(deadline), net.openingWrites)
  {
    var budget := CallerBudget(deadline);
    var (started, at) := Opening(behavior, budget, net.openingWrites);
    if started.Err? then None
    else LoopWakes(started.value, at, CalleeBudget(deadline), budget, behavior == SilentHang, net.script)
  }

  lemma {:induction false} HeardByOthers(behavior: CalleeBehavior, wakes: seq<CalleeWake>)
    requires behavior != SilentHang || forall i :: 0 <= i < |wakes| ==> !wakes[i].Inbox? && !wakes[i].InboxClosed?
    ensures Heard(behavior, wakes) == wakes
    decreases |wakes|
  {
    if wakes != [] {
      HeardByOthers(behavior, wakes[1..]);
    }
  }

  /** A silent handler never reads: its loop wakes once, for the deadline or for the end of the connection. */
  lemma SilentWakes(state: CalleeState, now: nat, due: nat, budget: nat, script: seq<Surroundings>)
    requires due <= budget && !state.Terminal? && LoopWakes(state, now, due, budget, true, script).Some?
    ensures var wakes := LoopWakes(state, now, due, budget, true, script).value;
            wakes == [DeadlineFired] || wakes == [CalleeWake.InboxClosed]
  {
    if script != [] {
      SelectIsBiased(now, due, budget, true, script[0]);
    }
  }

  lemma SilentHearsNoClose()
    ensures Heard(SilentHang, [CalleeWake.InboxClosed]) == []
  {
    assert [CalleeWake.InboxClosed][1..] == [];
  }

  /** What a silent channel driver makes of the one wake-up. */
  lemma SilentDriver(submit: Message, wakes: seq<CalleeWake>)
    requires submit.Submit? && wakes == [CalleeWake.InboxClosed]
    ensures CalleeRun(Some(submit), OpeningWakes(SilentHang, (true, true)) + Heard(SilentHang, wakes)).side
         == Running(CalleeState.Working)
  {
    var opening := OpeningWakes(SilentHang, (true, true));
    SilentHearsNoClose();
    assert opening + [] == opening;
    DriverStep(Offered, [], opening[0], []);
    assert [opening[0]] + [] == opening;
  }

  /**
   Refinement: as long as the network delivers, the QUIC callee ends as the channel driver does on the
   same events, except for one: a silent handler notices on QUIC that its connection ends, while on the
   channel it waits for its deadline.
   */
  lemma CalleeFollowsDriver(behavior: CalleeBehavior, deadline: Deadline, net: HandlerNetwork, submit: Message,
                            wakes: seq<CalleeWake>)
    requires submit.Submit? && Opens(behavior, CallerBudget(deadline), net.openingWrites)
    requires Wakes(behavior, deadline, net) == Some(wakes)
    ensures var heard := OpeningWakes(behavior, (true, true)) + Heard(behavior, wakes);
            CalleeRun(Some(submit), heard).side == Returned(Handled(behavior, deadline, net).result) <==>
              !(behavior == SilentHang && CalleeWake.InboxClosed in wakes)
  {
    BudgetsDifferByGrace(deadline);
    CalleeFollowsTurns(behavior, deadline, net, wakes);
    if behavior != SilentHang {
      HeardByOthers(behavior, wakes);
    } else {
      var budget := CallerBudget(deadline);
      var (started, at) := Opening(behavior, budget, net.openingWrites);
      SilentWakes(started.value, at, CalleeBudget(deadline), budget, net.script);
      if wakes == [DeadlineFired] {
        HeardByOthers(behavior, wakes);
      } else {
        SilentDriver(submit, wakes);
      }
    }
  }
}
