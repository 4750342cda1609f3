/**
 The caller on a QUIC connection: a biased select whose Submit and Cancel writes hold the loop, and
 the audit record of every way out. What the network does is a script of when each arm would be ready.
 */
module QuicCaller {
  import opened Bytes
  import opened WireTypes
  import opened CallErrors
  import opened CallState
  import opened Timing
  import opened NetworkWaits
  import opened CallRecords
  import ChannelCall

  // ----- one select -----

  /** The cancel arm resolves to a request, or to nothing once the sender of the request was dropped without one. */
  datatype CancelEnd = Requested | SenderGone

  /** When each arm would become ready during one turn, in milliseconds on the call's clock. */
  datatype Surroundings = Surroundings(
    shutdown: Option<nat>,
    closed: Option<(nat, CloseCode)>,
    cancel: Option<(nat, CancelEnd)>,
    read: Option<(nat, Result<Message, FrameIoError>)>,
    cancelWrite: Writing)

  datatype Arm =
    | Shutdown
    | CallTimer
    | ConnClosed(close: CloseCode)
    | CancelDone(end: CancelEnd)
    | ReadDone(read: Result<Message, CallError>)

  function ReadAt(now: nat, budget: nat, s: Surroundings): (nat, Arm) {
    match s.read
    case Some((t, r)) =>
      if Later(now, t) <= now + budget then
        (Later(now, t), ReadDone(match r case Ok(m) => Ok(m) case Err(e) => Err(CallError.Frame(e))))
      else (now + budget, ReadDone(Err(NetworkTimeout)))
    case None => (now + budget, ReadDone(Err(NetworkTimeout)))
  }

  /** The biased select: shutdown, timer, close, cancel, read. */
  function Select(now: nat, due: nat, budget: nat, cancellable: bool, s: Surroundings): (nat, Arm) {
    var timer := (Later(now, due), CallTimer);
    var far := Later(now, due) + 1;
    var shutdown := if s.shutdown.Some? then (Later(now, s.shutdown.value), Shutdown) else (far, Shutdown);
    var closed := if s.closed.Some? then (Later(now, s.closed.value.0), ConnClosed(s.closed.value.1)) else timer;
    var cancel :=
      if cancellable && s.cancel.Some? then (Later(now, s.cancel.value.0), CancelDone(s.cancel.value.1)) else timer;
    First(First(First(First(shutdown, timer), closed), cancel), ReadAt(now, budget, s))
  }

  // ----- the loop -----

  /** When and how the loop returned, and whether it did so on a rate-limit close. */
  datatype LoopEnd = LoopEnd(at: nat, result: Result<Outcome, CallError>, rateLimited: bool)

  function TimerEnd(at: nat, state: CallerState): LoopEnd {
    match CallerStep(state, Event.Timeout)
    case Ok(step) =>
      LoopEnd(at, Ok(if step.state.Terminal? then step.state.outcome else Closed(CloseCode.Timeout)), false)
    case Err(_) => LoopEnd(at, Err(IllegalTransition), false)
  }

  /** What one turn of the loop does: it returns, or goes round again. */
  datatype Turn = Ends(end: LoopEnd) | Continues(state: CallerState, now: nat, cancellable: bool)

  function CancelTurn(state: CallerState, at: nat, budget: nat, write: Writing): Turn {
    match CallerStep(state, Send(Cancel))
    case Err(_) => Ends(LoopEnd(at, Err(IllegalTransition), false))
    case Ok(step) =>
      var (took, written) := AwaitWrite(budget, write);
      match written
      case Err(e) => Ends(LoopEnd(at + took, Err(e), false))
      case Ok(_) => Continues(step.state, at + took, false)
  }

  function CloseTurn(state: CallerState, at: nat, code: CloseCode): Turn {
    var step := CallerStep(state, ConnLost(code));
    var ended := step.Ok? && step.value.state.Terminal?;
    Ends(LoopEnd(at, if ended then Ok(step.value.state.outcome) else Err(IllegalTransition),
                 code == CloseCode.RateLimited))
  }

  function ReadTurn(state: CallerState, at: nat, cancellable: bool, read: Result<Message, CallError>): Turn {
    match read
    case Err(e) =>
      Ends(LoopEnd(at, if e == NetworkTimeout then Ok(Closed(CloseCode.Timeout)) else Err(e), false))
    case Ok(m) =>
      match CallerStep(state, Recv(m))
      case Err(_) => Ends(LoopEnd(at, Err(IllegalTransition), false))
      case Ok(step) => Continues(step.state, at, cancellable)
  }

  function OneTurn(state: CallerState, now: nat, budget: nat, cancellable: bool, s: Surroundings): Turn {
    var (at, arm) := Select(now, budget, budget, cancellable, s);
    match arm
    case Shutdown => Ends(LoopEnd(at, Err(Cancelled), false))
    case CallTimer => Ends(TimerEnd(at, state))
    case ConnClosed(code) => CloseTurn(state, at, code)
    case CancelDone(Requested) => CancelTurn(state, at, budget, s.cancelWrite)
    case CancelDone(SenderGone) => Continues(state, at, cancellable)
    case ReadDone(read) => ReadTurn(state, at, cancellable, read)
  }

  /** When the script is used up nothing else happens and the timer fires. */
  function Turns(state: CallerState, now: nat, budget: nat, cancellable: bool, script: seq<Surroundings>): LoopEnd
    decreases |script|
  {
    if state.Terminal? then LoopEnd(now, Ok(state.outcome), false)
    else if script == [] then TimerEnd(Later(now, budget), state)
    else
      match OneTurn(state, now, budget, cancellable, script[0])
      case Ends(end) => end
      case Continues(state', now', cancellable') => Turns(state', now', budget, cancellable', script[1..])
  }

  /** The network during one outgoing call, after the stream is open. */
  datatype Network = Network(
    submitWrite: Writing, closeReason: Option<CloseCode>, cancellable: bool, script: seq<Surroundings>)

  /** How the call ended, when, and which task id the record then carries. */
  datatype CallEnd = CallEnd(at: nat, result: Result<Outcome, CallError>, task: Option<TaskId>)

  function LoopCall(submit: Message, net: Network): CallEnd
    requires submit.Submit?
  {
    var budget := CallerBudget(submit.deadline);
    var (took, written) := AwaitWrite(budget, net.submitWrite);
    var limited := net.closeReason == Some(CloseCode.RateLimited);
    match written
    case Err(e) => CallEnd(took, Err(if limited then Connection else e), None)
    case Ok(_) =>
      if limited then CallEnd(took, Ok(Closed(CloseCode.RateLimited)), None)
      else
        var end := Turns(Submitted, took, budget, net.cancellable, net.script);
        CallEnd(end.at, end.result, if end.rateLimited then None else Some(submit.task))
  }

  method CallerLoop(submit: Message, net: Network, record: CallRecordGuard)
    returns (r: Result<Outcome, CallError>, at: nat)
    requires submit.Submit? && record.task == None
    modifies record`task, record`outcome
    ensures var end := LoopCall(submit, net); r == end.result && at == end.at && record.task == end.task
  {
    var budget := CallerBudget(submit.deadline);
    var state := Dialing;
    var dialed := CallerStep(state, Send(submit));
    state := dialed.value.state;
    var (took, written) := AwaitWrite(budget, net.submitWrite);
    at := took;
    if written.Err? {
      if net.closeReason == Some(CloseCode.RateLimited) {
        record.ClearTask();
        record.SetOutcome(Closed(CloseCode.RateLimited));
        return Err(Connection), at;
      }
      return Err(written.error), at;
    }
    if net.closeReason == Some(CloseCode.RateLimited) {
      record.ClearTask();
      record.SetOutcome(Closed(CloseCode.RateLimited));
      return Ok(Closed(CloseCode.RateLimited)), at;
    }
    record.SetTask(submit.task);
    r, at := SelectLoop(state, took, budget, net.cancellable, net.script, record);
  }

  method SelectLoop(start: CallerState, from: nat, budget: nat, mayCancel: bool, script: seq<Surroundings>,
                    record: CallRecordGuard)
    returns (r: Result<Outcome, CallError>, at: nat)
    modifies record`task
    ensures var end := Turns(start, from, budget, mayCancel, script);
            && r == end.result && at == end.at
            && record.task == if end.rateLimited then None else old(record.task)
  {
    var state, now, cancellable := start, from, mayCancel;
    var i := 0;
    while i < |script|
      invariant i <= |script|
      invariant record.task == old(record.task)
      invariant Turns(state, now, budget, cancellable, script[i..]) == Turns(start, from, budget, mayCancel, script)
    {
      if state.Terminal? {
        return Ok(state.outcome), now;
      }
      var turn := TakeTurn(state, now, budget, cancellable, script[i], record);
      match turn {
        case Ends(end) => return end.result, end.at;
        case Continues(state', now', cancellable') => state, now, cancellable := state', now', cancellable';
      }
      i := i + 1;
    }
    if state.Terminal? {
      return Ok(state.outcome), now;
    }
    var end := TimerEnd(Later(now, budget), state);
    r, at := end.result, end.at;
  }

  /** One select of the loop; a rate-limit close takes the task id off the record. */
  method TakeTurn(start: CallerState, now: nat, budget: nat, cancellable: bool, s: Surroundings,
                  record: CallRecordGuard)
    returns (turn: Turn)
    modifies record`task
    ensures turn == OneTurn(start, now, budget, cancellable, s)
    ensures record.task == if turn.Ends? && turn.end.rateLimited then None else old(record.task)
  {
    var state := start;
    var (at, arm) := Select(now, budget, budget, cancellable, s);
    match arm {
      case Shutdown => turn := Ends(LoopEnd(at, Err(Cancelled), false));
      case CallTimer => turn := Ends(TimerEnd(at, state));
      case ConnClosed(code) =>
        if code == CloseCode.RateLimited {
          record.ClearTask();
        }
        turn := CloseTurn(state, at, code);
      case CancelDone(SenderGone) => turn := Continues(state, at, cancellable);
      case CancelDone(Requested) =>
        var step := CallerStep(state, Send(Cancel));
        if step.Err? {
          return Ends(LoopEnd(at, Err(IllegalTransition), false));
        }
        state := step.value.state;
        var (took, written) := AwaitWrite(budget, s.cancelWrite);
        if written.Err? {
          return Ends(LoopEnd(at + took, Err(written.error), false));
        }
        turn := Continues(state, at + took, false);
      case ReadDone(read) =>
        if read.Err? {
          var timedOut := read.error == NetworkTimeout;
          return Ends(LoopEnd(at, if timedOut then Ok(Closed(CloseCode.Timeout)) else Err(read.error), false));
        }
        var step := CallerStep(state, Recv(read.value));
        if step.Err? {
          return Ends(LoopEnd(at, Err(IllegalTransition), false));
        }
        state := step.value.state;
        turn := Continues(state, at, cancellable);
    }
  }

  // ----- the whole outgoing call and its record -----

  datatype Opening = Opened | OpenFailed(closed: Option<CloseCode>) | OpenTimedOut(closed: Option<CloseCode>)

  function CallResult(submit: Message, opening: Opening, net: Network): Result<Outcome, CallError> {
    if !submit.Submit? then Err(IllegalTransition)
    else
      match opening
      case OpenFailed(Some(_)) => Err(Connection)
      case OpenTimedOut(Some(_)) => Err(NetworkTimeout)
      case OpenFailed(None) | OpenTimedOut(None) => Err(StreamSetup)
      case Opened => LoopCall(submit, net).result
  }

  /** The one record an outgoing call leaves. */
  function CallerRecord(peer: NodeId, submit: Message, opening: Opening, net: Network): CallRecord {
    var task := if submit.Submit? && opening.Opened? then LoopCall(submit, net).task else None;
    var outcome :=
      match opening
      case OpenFailed(Some(code)) => if submit.Submit? then Closed(code) else Closed(ProtocolViolation)
      case OpenTimedOut(Some(code)) => if submit.Submit? then Closed(code) else Closed(ProtocolViolation)
      case _ => ResultOutcome(CallResult(submit, opening, net));
    CallRecord(task, Outbound, peer, NotReached, outcome)
  }

  method RunCaller(peer: NodeId, submit: Message, opening: Opening, net: Network, sink: RecordSink)
    returns (r: Result<Outcome, CallError>)
    modifies sink
    ensures r == CallResult(submit, opening, net)
    ensures sink.records == old(sink.records) + [CallerRecord(peer, submit, opening, net)]
  {
    var record := new CallRecordGuard(sink, Outbound, peer, NotReached);
    r := RunCallerGuarded(submit, opening, net, record);
    record.Drop();
  }

  method RunCallerGuarded(submit: Message, opening: Opening, net: Network, record: CallRecordGuard)
    returns (r: Result<Outcome, CallError>)
    requires record.task == None && record.authorization == NotReached && record.direction == Outbound
    modifies record`task, record`outcome
    ensures r == CallResult(submit, opening, net)
    ensures record.Record() == CallerRecord(record.peer, submit, opening, net)
  {
    if !submit.Submit? {
      record.SetOutcome(Closed(ProtocolViolation));
      return Err(IllegalTransition);
    }
    match opening {
      case OpenFailed(Some(code)) =>
        record.SetOutcome(Closed(code));
        return Err(Connection);
      case OpenTimedOut(Some(code)) =>
        record.SetOutcome(Closed(code));
        return Err(NetworkTimeout);
      case OpenFailed(None) =>
        record.SetOutcome(OutcomeFromCallError(StreamSetup));
        return Err(StreamSetup);
      case OpenTimedOut(None) =>
        record.SetOutcome(OutcomeFromCallError(StreamSetup));
        return Err(StreamSetup);
      case Opened =>
        var at;
        r, at := CallerLoop(submit, net, record);
        record.ObserveResult(r);
    }
  }

  // ----- the same machine as the channel driver -----

  /** What the channel driver would have woken up for; `None` for a shutdown, an abnormal close or a network failure. */
  function WakeOf(state: CallerState, budget: nat, arm: Arm, s: Surroundings): Option<ChannelCall.CallerWake> {
    match arm
    case Shutdown => None
    case CallTimer => Some(ChannelCall.TimerFired)
    case ConnClosed(code) => if code == CloseCode.Normal then Some(ChannelCall.CallerWake.InboxClosed) else None
    case CancelDone(SenderGone) => Some(ChannelCall.CallerWake.SenderGone)
    case CancelDone(Requested) =>
      if CallerStep(state, Send(Cancel)).Ok? && AwaitWrite(budget, s.cancelWrite).1.Err? then None
      else Some(ChannelCall.Request(Cancel))
    case ReadDone(read) => if read.Ok? then Some(ChannelCall.CallerWake.Inbox(read.value)) else None
  }

  /** All the wake-ups of the loop, until it returns. */
  function LoopWakes(state: CallerState, now: nat, budget: nat, cancellable: bool, script: seq<Surroundings>):
    Option<seq<ChannelCall.CallerWake>>
    decreases |script|
  {
    if state.Terminal? then Some([])
    else if script == [] then Some([ChannelCall.TimerFired])
    else
      match WakeOf(state, budget, Select(now, budget, budget, cancellable, script[0]).1, script[0])
      case None => None
      case Some(wake) =>
        match OneTurn(state, now, budget, cancellable, script[0])
        case Ends(_) => Some([wake])
        case Continues(state', now', cancellable') =>
          match LoopWakes(state', now', budget, cancellable', script[1..])
          case None => None
          case Some(later) => Some([wake] + later)
  }

  predicate SameEnd(turn: Turn, side: ChannelCall.Side<CallerState>) {
    match turn
    case Ends(end) => side == ChannelCall.Returned(end.result)
    case Continues(state, _, _) => side == ChannelCall.CallerSettles(state)
  }

  lemma TurnFollowsDriver(state: CallerState, now: nat, budget: nat, cancellable: bool, s: Surroundings)
    requires !state.Terminal? && WakeOf(state, budget, Select(now, budget, budget, cancellable, s).1, s).Some?
    ensures var wake := WakeOf(state, budget, Select(now, budget, budget, cancellable, s).1, s).value;
            SameEnd(OneTurn(state, now, budget, cancellable, s), ChannelCall.CallerTurn(state, wake).side)
  {}

  lemma TimerFollowsDriver(state: CallerState, at: nat)
    requires !state.Terminal?
    ensures ChannelCall.CallerTurn(state, ChannelCall.TimerFired).side
         == ChannelCall.Returned(TimerEnd(at, state).result)
  {}

  /** The first wake-up of the driver, then the others. */
  lemma DriverStep(state: CallerState, sent: seq<Message>, wake: ChannelCall.CallerWake,
                   later: seq<ChannelCall.CallerWake>)
    ensures ChannelCall.CallerTurns(ChannelCall.Turn(ChannelCall.Running(state), sent), [wake] + later)
         == (var t := ChannelCall.CallerTurn(state, wake);
             ChannelCall.CallerTurns(ChannelCall.Turn(t.side, sent + t.out), later))
  {
    assert ([wake] + later)[1..] == later;
  }

  /**
   Refinement: as long as the network delivers, the QUIC caller ends exactly as the channel driver
   does on the same events.
   */
  lemma {:induction false} CallerFollowsDriver(state: CallerState, now: nat, budget: nat, cancellable: bool,
                                               script: seq<Surroundings>, sent: seq<Message>)
    requires LoopWakes(state, now, budget, cancellable, script).Some?
    ensures ChannelCall.CallerTurns(ChannelCall.Turn(ChannelCall.CallerSettles(state), sent),
                                    LoopWakes(state, now, budget, cancellable, script).value).side
         == ChannelCall.Returned(Turns(state, now, budget, cancellable, script).result)
    decreases |script|
  {
    if !state.Terminal? {
      if script == [] {
        TimerFollowsDriver(state, Later(now, budget));
        DriverStep(state, sent, ChannelCall.TimerFired, []);
        assert [ChannelCall.TimerFired] + [] == [ChannelCall.TimerFired];
      } else {
        var wake := WakeOf(state, budget, Select(now, budget, budget, cancellable, script[0]).1, script[0]).value;
        var turn := OneTurn(state, now, budget, cancellable, script[0]);
        TurnFollowsDriver(state, now, budget, cancellable, script[0]);
        if turn.Ends? {
          DriverStep(state, sent, wake, []);
          assert [wake] + [] == [wake];
        } else {
          var later := LoopWakes(turn.state, turn.now, budget, turn.cancellable, script[1..]).value;
          DriverStep(state, sent, wake, later);
          CallerFollowsDriver(turn.state, turn.now, budget, turn.cancellable, script[1..],
                              sent + ChannelCall.CallerTurn(state, wake).out);
        }
      }
    }
  }

  // ----- the real-time bound -----

  function ClosedAt(s: Surroundings): Option<nat> {
    if s.closed.Some? then Some(s.closed.value.0) else None
  }

  function CancelAt(s: Surroundings): Option<nat> {
    if s.cancel.Some? then Some(s.cancel.value.0) else None
  }

  function ReadyReadAt(s: Surroundings): Option<nat> {
    if s.read.Some? then Some(s.read.value.0) else None
  }

  /**
   The select wakes as soon as anything is ready and not before, and then runs the first ready arm:
   shutdown, timer, close, cancel, read.
   */
  lemma SelectIsBiased(now: nat, budget: nat, cancellable: bool, s: Surroundings)
    ensures var (at, arm) := Select(now, budget, budget, cancellable, s);
            && at >= now
            && (at > now ==>
                  && !Ready(s.shutdown, at - 1) && at - 1 < budget && !Ready(ClosedAt(s), at - 1)
                  && !(cancellable && Ready(CancelAt(s), at - 1)) && !Ready(ReadyReadAt(s), at - 1))
            && (arm.Shutdown? <==> Ready(s.shutdown, at))
            && (arm.CallTimer? <==> !Ready(s.shutdown, at) && at >= budget)
            && (arm.ConnClosed? <==> !Ready(s.shutdown, at) && at < budget && Ready(ClosedAt(s), at))
            && (arm.CancelDone? <==>
                  && !Ready(s.shutdown, at) && at < budget && !Ready(ClosedAt(s), at)
                  && cancellable && Ready(CancelAt(s), at))
            && (arm.ConnClosed? ==> arm.close == s.closed.value.1)
            && (arm.CancelDone? ==> arm.end == s.cancel.value.1)
            && (arm.ReadDone? ==> s.read.Some? && s.read.value.0 <= at && ReadGives(s.read.value.1, arm.read))
  {}

  /** A read that ended is passed on, its failure as the frame's. */
  predicate ReadGives(read: Result<Message, FrameIoError>, seen: Result<Message, CallError>) {
    match read
    case Ok(m) => seen == Ok(m)
    case Err(e) => seen == Err(CallError.Frame(e))
  }

  /** The moment at which a turn wakes: the earliest at which anything is ready, or the timer due. */
  predicate WakesAt(at: nat, now: nat, budget: nat, cancellable: bool, s: Surroundings) {
    && at >= now && AnyReady(at, budget, cancellable, s) && (at > now ==> !AnyReady(at - 1, budget, cancellable, s))
  }

  predicate AnyReady(at: nat, budget: nat, cancellable: bool, s: Surroundings) {
    || Ready(s.shutdown, at) || at >= budget || Ready(ClosedAt(s), at)
    || (cancellable && Ready(CancelAt(s), at)) || Ready(ReadyReadAt(s), at)
  }

  lemma WakesOnce(at: nat, now: nat, budget: nat, cancellable: bool, s: Surroundings)
    ensures WakesAt(at, now, budget, cancellable, s) <==> at == Select(now, budget, budget, cancellable, s).0
  {
    SelectIsBiased(now, budget, cancellable, s);
  }

  /**
   What every turn comes to, by what is ready when it wakes. The first of these that is ready decides:
   a shutdown is an error; the timer a timeout; a close ends the call in its own outcome; a cancel request is
   written, once, and ends the call if that is illegal or fails; and a message is followed or refused.
   */
  lemma TurnExactly(state: CallerState, at: nat, now: nat, budget: nat, cancellable: bool, s: Surroundings)
    requires !state.Terminal? && !state.Dialing? && WakesAt(at, now, budget, cancellable, s)
    ensures var turn := OneTurn(state, now, budget, cancellable, s);
            if Ready(s.shutdown, at) then turn == Ends(LoopEnd(at, Err(Cancelled), false))
            else if at >= budget then turn == Ends(LoopEnd(at, Ok(Closed(CloseCode.Timeout)), false))
            else if Ready(ClosedAt(s), at) then
              var code := s.closed.value.1;
              turn == Ends(LoopEnd(at, Ok(if code == Normal then PeerLost else Closed(code)), code == RateLimited))
            else if cancellable && Ready(CancelAt(s), at) then
              if s.cancel.value.1 == SenderGone then turn == Continues(state, at, true)
              else if state.Canceling? then turn == Ends(LoopEnd(at, Err(IllegalTransition), false))
              else if s.cancelWrite.takes > budget then turn == Ends(LoopEnd(at + budget, Err(NetworkTimeout), false))
              else
                match s.cancelWrite.result
                case Ok(_) => turn == Continues(Canceling, at + s.cancelWrite.takes, false)
                case Err(e) => turn == Ends(LoopEnd(at + s.cancelWrite.takes, Err(Frame(e)), false))
            else
              match s.read.value.1
              case Err(e) => turn == Ends(LoopEnd(at, Err(Frame(e)), false))
              case Ok(m) =>
                match CallerStep(state, Recv(m))
                case Err(_) => turn == Ends(LoopEnd(at, Err(IllegalTransition), false))
                case Ok(step) => turn == Continues(step.state, at, cancellable)
  {
    WakesOnce(at, now, budget, cancellable, s);
    SelectIsBiased(now, budget, cancellable, s);
    ReadNeverTimesOut(now, budget, cancellable, s);
  }

  /** The read's own timeout never wins: the call timer, polled first, is due by then. */
  lemma ReadNeverTimesOut(now: nat, budget: nat, cancellable: bool, s: Surroundings)
    ensures Select(now, budget, budget, cancellable, s).1 != ReadDone(Err(NetworkTimeout))
  {}

  /** A turn is over when the timer is due, and an arm after the timer only ever runs before that. */
  lemma SelectIsTimely(now: nat, budget: nat, cancellable: bool, s: Surroundings)
    ensures var (at, arm) := Select(now, budget, budget, cancellable, s);
            && now <= at <= Later(now, budget)
            && (!arm.Shutdown? && !arm.CallTimer? ==> at < budget)
            && (arm == CancelDone(Requested) ==> cancellable)
  {}

  lemma TurnIsTimely(state: CallerState, now: nat, budget: nat, cancellable: bool, s: Surroundings)
    requires budget > 0 && now < 2 * budget && (cancellable ==> now <= budget)
    ensures match OneTurn(state, now, budget, cancellable, s)
            case Ends(end) => end.at < 2 * budget
            case Continues(_, now', cancellable') => now' < 2 * budget && (cancellable' ==> now' <= budget)
  {
    SelectIsTimely(now, budget, cancellable, s);
  }

  lemma {:induction false} TurnsAreTimely(state: CallerState, now: nat, budget: nat, cancellable: bool,
                                          script: seq<Surroundings>)
    requires budget > 0 && now < 2 * budget && (cancellable ==> now <= budget)
    ensures Turns(state, now, budget, cancellable, script).at < 2 * budget
    decreases |script|
  {
    if !state.Terminal? && script != [] {
      TurnIsTimely(state, now, budget, cancellable, script[0]);
      var turn := OneTurn(state, now, budget, cancellable, script[0]);
      if turn.Continues? {
        TurnsAreTimely(turn.state, turn.now, budget, turn.cancellable, script[1..]);
      }
    }
  }

  /**
   Real-time bound: whatever the peer, the transport and the cancel request do, and for however many
   messages, an outgoing call returns in less than twice its budget.
   */
  lemma CallerReturnsInTime(submit: Message, net: Network)
    requires submit.Submit?
    ensures LoopCall(submit, net).at < 2 * CallerBudget(submit.deadline)
    ensures CallerBudget(submit.deadline) == submit.deadline + GRACE_MS
  {
    var budget := CallerBudget(submit.deadline);
    BudgetsDifferByGrace(submit.deadline);
    var (took, written) := AwaitWrite(budget, net.submitWrite);
    if written.Ok? {
      TurnsAreTimely(Submitted, took, budget, net.cancellable, net.script);
    }
  }

  /** The bound is tight: a cancel request in the last millisecond and a stuck write miss it by one. */
  lemma BoundIsTight(submit: Message)
    requires submit.Submit?
    ensures exists net :: LoopCall(submit, net).at == 2 * CallerBudget(submit.deadline) - 1
  {
    var budget := CallerBudget(submit.deadline);
    BudgetsDifferByGrace(submit.deadline);
    var stuck := Writing(budget + 1, Ok(()));
    var late := Surroundings(None, None, Some((budget - 1, Requested)), None, stuck);
    var net := Network(Writing(0, Ok(())), None, true, [late]);
    assert Select(0, budget, budget, true, late) == (budget - 1, CancelDone(Requested));
    assert LoopCall(submit, net).at == 2 * budget - 1;
  }

  /** The cancel arm is ready at once, with nothing, and neither a shutdown nor a close comes. */
  predicate OnlySenderGone(s: Surroundings, now: nat) {
    s.cancel.Some? && s.cancel.value.1 == SenderGone && s.cancel.value.0 <= now && s.shutdown.None? && s.closed.None?
  }

  /**
   A cancel request whose sender was dropped takes its arm before the read. For as long as that arm stays
   ready nothing is read, whatever has arrived, and the call ends in its timer.
   */
  lemma {:induction false} GoneSenderStarvesRead(state: CallerState, now: nat, budget: nat, script: seq<Surroundings>)
    requires !state.Terminal? && now < budget
    requires forall i :: 0 <= i < |script| ==> OnlySenderGone(script[i], now)
    ensures Turns(state, now, budget, true, script) == LoopEnd(budget, Ok(Closed(CloseCode.Timeout)), false)
    decreases |script|
  {
    if script != [] {
      assert OnlySenderGone(script[0], now);
      assert OneTurn(state, now, budget, true, script[0]) == Continues(state, now, true);
      GoneSenderStarvesRead(state, now, budget, script[1..]);
    }
  }

  // ----- exactly when one budget is enough -----

  /** Some turn sends Cancel, and that write is over only after the budget. */
  predicate CancelOverruns(state: CallerState, now: nat, budget: nat, cancellable: bool, script: seq<Surroundings>)
    decreases |script|
  {
    && !state.Terminal? && script != []
    && (var (at, arm) := Select(now, budget, budget, cancellable, script[0]);
        || (&& arm == CancelDone(Requested) && CallerStep(state, Send(Cancel)).Ok?
            && at + AwaitWrite(budget, script[0].cancelWrite).0 > budget)
        || match OneTurn(state, now, budget, cancellable, script[0])
           case Ends(_) => false
           case Continues(state', now', cancellable') =>
             CancelOverruns(state', now', budget, cancellable', script[1..]))
  }

  /** One turn: it takes the loop past the budget exactly when it sends Cancel and that write does. */
  lemma TurnOverruns(state: CallerState, now: nat, budget: nat, cancellable: bool, s: Surroundings)
    requires now <= budget
    ensures var (at, arm) := Select(now, budget, budget, cancellable, s);
            var turn := OneTurn(state, now, budget, cancellable, s);
            && now <= (if turn.Ends? then turn.end.at else turn.now)
            && ((if turn.Ends? then turn.end.at else turn.now) > budget <==>
                  && arm == CancelDone(Requested) && CallerStep(state, Send(Cancel)).Ok?
                  && at + AwaitWrite(budget, s.cancelWrite).0 > budget)
            && (turn.Continues? && turn.cancellable ==> cancellable)
  {
    SelectIsTimely(now, budget, cancellable, s);
  }

  lemma TurnNotBefore(state: CallerState, now: nat, budget: nat, cancellable: bool, s: Surroundings)
    ensures var turn := OneTurn(state, now, budget, cancellable, s);
            now <= if turn.Ends? then turn.end.at else turn.now
  {
    SelectIsTimely(now, budget, cancellable, s);
  }

  lemma {:induction false} TurnsNotBefore(state: CallerState, now: nat, budget: nat, cancellable: bool,
                                          script: seq<Surroundings>)
    ensures Turns(state, now, budget, cancellable, script).at >= now
    decreases |script|
  {
    if !state.Terminal? && script != [] {
      TurnNotBefore(state, now, budget, cancellable, script[0]);
      var turn := OneTurn(state, now, budget, cancellable, script[0]);
      if turn.Continues? {
        TurnsNotBefore(turn.state, turn.now, budget, turn.cancellable, script[1..]);
      }
    }
  }

  lemma {:induction false} TurnsOverrunExactly(state: CallerState, now: nat, budget: nat, cancellable: bool,
                                               script: seq<Surroundings>)
    requires now <= budget
    ensures Turns(state, now, budget, cancellable, script).at > budget <==>
            CancelOverruns(state, now, budget, cancellable, script)
    ensures CancelOverruns(state, now, budget, cancellable, script) ==> cancellable
    decreases |script|
  {
    if !state.Terminal? && script != [] {
      SelectIsTimely(now, budget, cancellable, script[0]);
      TurnOverruns(state, now, budget, cancellable, script[0]);
      var turn := OneTurn(state, now, budget, cancellable, script[0]);
      if turn.Continues? {
        if turn.now > budget {
          TurnsNotBefore(turn.state, turn.now, budget, turn.cancellable, script[1..]);
        } else {
          TurnsOverrunExactly(turn.state, turn.now, budget, turn.cancellable, script[1..]);
        }
      }
    }
  }

  /**
   An outgoing call takes longer than its budget exactly when the loop is reached and a Cancel it sends
   is written past the budget; a call that cannot be cancelled never does.
   */
  lemma OneBudgetExactly(submit: Message, net: Network)
    requires submit.Submit?
    ensures var budget := CallerBudget(submit.deadline);
            var (took, written) := AwaitWrite(budget, net.submitWrite);
            && (LoopCall(submit, net).at > budget <==>
                  && written.Ok? && net.closeReason != Some(CloseCode.RateLimited)
                  && CancelOverruns(Submitted, took, budget, net.cancellable, net.script))
            && (!net.cancellable ==> LoopCall(submit, net).at <= budget)
  {
    var budget := CallerBudget(submit.deadline);
    var (took, _) := AwaitWrite(budget, net.submitWrite);
    TurnsOverrunExactly(Submitted, took, budget, net.cancellable, net.script);
  }

  // ----- the shape of the record -----

  /** A state that is not the end of a closed connection. */
  predicate NotClosed(state: CallerState) {
    state.Terminal? ==> !state.outcome.Closed?
  }

  predicate EndShape(turn: Turn) {
    match turn
    case Ends(end) => ResultOutcome(end.result) == Closed(CloseCode.RateLimited) <==> end.rateLimited
    case Continues(state, _, _) => NotClosed(state)
  }

  lemma CancelTurnShape(state: CallerState, at: nat, budget: nat, write: Writing)
    ensures EndShape(CancelTurn(state, at, budget, write))
  {
    var (_, written) := AwaitWrite(budget, write);
    if written.Err? {
      ErrorOutcomesExplained(written.error);
    }
  }

  lemma ReadTurnShape(state: CallerState, at: nat, cancellable: bool, read: Result<Message, CallError>)
    ensures EndShape(ReadTurn(state, at, cancellable, read))
  {
    if read.Err? {
      ErrorOutcomesExplained(read.error);
    }
  }

  lemma RateLimitedTurn(state: CallerState, now: nat, budget: nat, cancellable: bool, s: Surroundings)
    requires !state.Terminal?
    ensures EndShape(OneTurn(state, now, budget, cancellable, s))
  {
    var (at, arm) := Select(now, budget, budget, cancellable, s);
    match arm {
      case CancelDone(Requested) => CancelTurnShape(state, at, budget, s.cancelWrite);
      case ReadDone(read) => ReadTurnShape(state, at, cancellable, read);
      case _ =>
    }
  }

  lemma {:induction false} RateLimitedTurns(state: CallerState, now: nat, budget: nat, cancellable: bool,
                                            script: seq<Surroundings>)
    requires NotClosed(state)
    ensures var end := Turns(state, now, budget, cancellable, script);
            ResultOutcome(end.result) == Closed(CloseCode.RateLimited) <==> end.rateLimited
    decreases |script|
  {
    if !state.Terminal? && script != [] {
      RateLimitedTurn(state, now, budget, cancellable, script[0]);
      var turn := OneTurn(state, now, budget, cancellable, script[0]);
      if turn.Continues? {
        RateLimitedTurns(turn.state, turn.now, budget, turn.cancellable, script[1..]);
      }
    }
  }

  /** The Submit is written, and nothing says yet that the peer limits its rate. */
  predicate Placed(submit: Message, opening: Opening, net: Network) {
    && submit.Submit? && opening.Opened?
    && net.submitWrite.takes <= CallerBudget(submit.deadline) && net.submitWrite.result.Ok?
    && net.closeReason != Some(CloseCode.RateLimited)
  }

  /**
   Audit shape of an outgoing call: the record never claims a local authorization; it carries the Submit's
   own task id exactly when the Submit was written on an open stream and the call then ended in anything
   but a rate-limit close; otherwise it carries none.
   */
  lemma OutboundRecordShape(peer: NodeId, submit: Message, opening: Opening, net: Network)
    ensures var record := CallerRecord(peer, submit, opening, net);
            && record.direction == Outbound && record.peer == peer && record.authorization == NotReached
            && (record.task.Some? <==>
                  Placed(submit, opening, net) && record.outcome != Closed(CloseCode.RateLimited))
            && (record.task.Some? ==> record.task == Some(submit.task))
            && (opening.Opened? ==> record.outcome == ResultOutcome(CallResult(submit, opening, net)))
  {
    if submit.Submit? {
      var (took, _) := AwaitWrite(CallerBudget(submit.deadline), net.submitWrite);
      RateLimitedTurns(Submitted, took, CallerBudget(submit.deadline), net.cancellable, net.script);
    }
  }

  /** The result and the outcome recorded of every call that ends before its loop. */
  lemma UnplacedCalls(peer: NodeId, submit: Message, opening: Opening, net: Network)
    requires !Placed(submit, opening, net)
    ensures var r := CallResult(submit, opening, net);
            var o := CallerRecord(peer, submit, opening, net).outcome;
            var limited := net.closeReason == Some(CloseCode.RateLimited);
            if !submit.Submit? then r == Err(IllegalTransition) && o == Closed(ProtocolViolation)
            else
              match opening
              case OpenFailed(Some(code)) => r == Err(Connection) && o == Closed(code)
              case OpenTimedOut(Some(code)) => r == Err(NetworkTimeout) && o == Closed(code)
              case OpenFailed(None) | OpenTimedOut(None) => r == Err(StreamSetup) && o == PeerLost
              case Opened =>
                if net.submitWrite.takes > submit.deadline + 5_000 then
                  if limited then r == Err(Connection) && o == PeerLost
                  else r == Err(NetworkTimeout) && o == Closed(CloseCode.Timeout)
                else
                  match net.submitWrite.result
                  case Ok(_) => r == Ok(Closed(CloseCode.RateLimited)) && o == Closed(CloseCode.RateLimited)
                  case Err(e) =>
                    if limited then r == Err(Connection) && o == PeerLost
                    else r == Err(Frame(e)) && o == OutcomeFromCallError(Frame(e))
  {
    if submit.Submit? {
      BudgetsDifferByGrace(submit.deadline);
    }
  }

  /** And when such a call is over, once its stream is open. */
  lemma UnplacedTime(submit: Message, net: Network)
    requires submit.Submit? && !Placed(submit, Opened, net)
    ensures LoopCall(submit, net).at ==
            if net.submitWrite.takes < submit.deadline + 5_000 then net.submitWrite.takes else submit.deadline + 5_000
  {
    BudgetsDifferByGrace(submit.deadline);
  }

  /**
   The caller is told what the record says: they differ exactly when opening the stream failed on a
   connection that was closed, where only the record keeps the close code.
   */
  lemma RecordAgreesWithResult(peer: NodeId, submit: Message, opening: Opening, net: Network)
    ensures CallerRecord(peer, submit, opening, net).outcome == ResultOutcome(CallResult(submit, opening, net)) <==>
            !(submit.Submit?
              && match opening
                 case OpenFailed(Some(_)) => true
                 case OpenTimedOut(Some(code)) => code != CloseCode.Timeout
                 case _ => false)
    ensures CallResult(submit, opening, net).Ok? ==>
              CallerRecord(peer, submit, opening, net).outcome == CallResult(submit, opening, net).value
  {}

  lemma PlacedCallTakesTurns(submit: Message, net: Network)
    requires Placed(submit, Opened, net)
    ensures var end := Turns(Submitted, net.submitWrite.takes, submit.deadline + 5_000, net.cancellable, net.script);
            LoopCall(submit, net).at == end.at && CallResult(submit, Opened, net) == end.result
  {
    BudgetsDifferByGrace(submit.deadline);
  }

  /** The loop is the channel driver's, from the Submit on, and starts when the Submit is written. */
  lemma PlacedCallFollowsDriver(submit: Message, net: Network, wakes: seq<ChannelCall.CallerWake>)
    requires Placed(submit, Opened, net)
    requires LoopWakes(Submitted, net.submitWrite.takes, submit.deadline + 5_000, net.cancellable, net.script)
          == Some(wakes)
    ensures ChannelCall.CallerRun(submit, wakes).side == ChannelCall.Returned(CallResult(submit, Opened, net))
  {
    PlacedCallTakesTurns(submit, net);
    CallerFollowsDriver(Submitted, net.submitWrite.takes, submit.deadline + 5_000, net.cancellable, net.script,
                        [submit]);
  }

  /**
   The close that the source prefers for the record is only kept when the write itself went through:
   a write that fails because of the rate limit is recorded as a lost peer.
   */
  lemma RateLimitDuringSubmit(peer: NodeId, submit: Message, net: Network)
    requires submit.Submit? && net.closeReason == Some(CloseCode.RateLimited)
    ensures var record := CallerRecord(peer, submit, Opened, net);
            var written := AwaitWrite(CallerBudget(submit.deadline), net.submitWrite).1;
            && record.task == None
            && record.outcome == if written.Ok? then Closed(CloseCode.RateLimited) else PeerLost
  {}
}
