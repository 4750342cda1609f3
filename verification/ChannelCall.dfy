/**
 A call between the two channel drivers: each driver is a loop that reacts to one wake-up at a
 time, and the two meet over two reliable first-in first-out queues.
 */
module ChannelCall {
  import opened Bytes
  import opened WireTypes
  import opened CallErrors
  import opened CallState

  /** A driver before it starts, while it runs, and once it has returned. */
  datatype Side<+S> = Idle | Running(state: S) | Returned(result: Result<Outcome, CallError>)

  /** What one turn of a driver's loop leaves behind: its new phase and the messages it sent. */
  datatype Turn<+S> = Turn(side: Side<S>, out: seq<Message>)

  // ----- the caller's driver -----

  /**
   Which arm of the caller's select ran. `SenderGone` is the cancel arm once the sender of the request was
   dropped without one: it does nothing, and stays in place before the inbox.
   */
  datatype CallerWake = TimerFired | Request(msg: Message) | SenderGone | Inbox(msg: Message) | InboxClosed

  function CallerEvent(wake: CallerWake): Event
    requires !wake.SenderGone?
  {
    match wake
    case TimerFired => Event.Timeout
    case Request(m) => Send(m)
    case Inbox(m) => Recv(m)
    case InboxClosed => ConnLost(Normal)
  }

  function CallerSettles(state: CallerState): Side<CallerState> {
    if state.Terminal? then Returned(Ok(state.outcome)) else Running(state)
  }

  function CallerTurn(state: CallerState, wake: CallerWake): Turn<CallerState> {
    if wake.SenderGone? then Turn(CallerSettles(state), [])
    else
      match CallerStep(state, CallerEvent(wake))
      case Err(_) => Turn(Returned(Err(IllegalTransition)), [])
      case Ok(step) => Turn(CallerSettles(step.state), if wake.Request? then [wake.msg] else [])
  }

  /** All the turns a caller takes on `wakes`, until it returns. */
  function CallerTurns(t: Turn<CallerState>, wakes: seq<CallerWake>): Turn<CallerState>
    decreases |wakes|
  {
    if wakes == [] || !t.side.Running? then t
    else
      var n := CallerTurn(t.side.state, wakes[0]);
      CallerTurns(Turn(n.side, t.out + n.out), wakes[1..])
  }

  function CallerRun(submit: Message, wakes: seq<CallerWake>): Turn<CallerState> {
    if !submit.Submit? then Turn(Returned(Err(IllegalTransition)), [])
    else CallerTurns(Turn(Running(Submitted), [submit]), wakes)
  }

  method DriveCaller(submit: Message, wakes: seq<CallerWake>) returns (side: Side<CallerState>, sent: seq<Message>)
    ensures Turn(side, sent) == CallerRun(submit, wakes)
    ensures submit.Submit? ==> sent != [] && sent[0] == submit
    ensures !submit.Submit? ==> side == Returned(Err(IllegalTransition)) && sent == []
  {
    if !submit.Submit? {
      return Returned(Err(IllegalTransition)), [];
    }
    var state: CallerState := Submitted;
    sent := [submit];
    var i := 0;
    while i < |wakes|
      invariant i <= |wakes|
      invariant CallerTurns(Turn(CallerSettles(state), sent), wakes[i..]) == CallerRun(submit, wakes)
      invariant sent != [] && sent[0] == submit
    {
      if state.Terminal? {
        return Returned(Ok(state.outcome)), sent;
      }
      assert sent + [] == sent;
      if !wakes[i].SenderGone? {
        match CallerStep(state, CallerEvent(wakes[i])) {
          case Err(_) => return Returned(Err(IllegalTransition)), sent;
          case Ok(step) =>
            state := step.state;
            if wakes[i].Request? {
              sent := sent + [wakes[i].msg];
            }
        }
      }
      i := i + 1;
    }
    side := CallerSettles(state);
  }

  // ----- the callee's driver -----

  /** `delivered` says whether the caller still held its end of the channel when the handler sent. */
  datatype CalleeWake =
    | DeadlineFired
    | Handler(msg: Message, delivered: bool)
    | Inbox(msg: Message)
    | InboxClosed

  function CalleeEvent(wake: CalleeWake): Event {
    match wake
    case DeadlineFired => Event.Timeout
    case Handler(m, _) => Send(m)
    case Inbox(m) => Recv(m)
    case InboxClosed => ConnLost(Normal)
  }

  function CalleeSettles(state: CalleeState): Side<CalleeState> {
    if state.Terminal? then Returned(Ok(state.outcome)) else Running(state)
  }

  function Emitted(wake: CalleeWake, step: Step<CalleeState>): seq<Message> {
    if wake.Handler? then [wake.msg]
    else match step.emit case Some(m) => [m] case None => []
  }

  /** A handler's send to a caller that is gone ends the driver; answers to a caller that is gone are dropped. */
  function CalleeTurn(state: CalleeState, wake: CalleeWake): Turn<CalleeState> {
    match CalleeStep(state, CalleeEvent(wake))
    case Err(_) => Turn(Returned(Err(IllegalTransition)), [])
    case Ok(step) =>
      Turn(if wake.Handler? && !wake.delivered then Returned(Err(Connection)) else CalleeSettles(step.state),
           Emitted(wake, step))
  }

  function CalleeTurns(t: Turn<CalleeState>, wakes: seq<CalleeWake>): Turn<CalleeState>
    decreases |wakes|
  {
    if wakes == [] || !t.side.Running? then t
    else
      var n := CalleeTurn(t.side.state, wakes[0]);
      CalleeTurns(Turn(n.side, t.out + n.out), wakes[1..])
  }

  /** The first message read must be a Submit; `None` is a channel closed before it. */
  function CalleeAnswers(first: Option<Message>): Side<CalleeState> {
    match first
    case None => Returned(Err(Connection))
    case Some(m) => if m.Submit? then Running(Offered) else Returned(Err(IllegalTransition))
  }

  datatype CalleeBehavior = StubComplete | HangAfterAccept | NeedInputHang | SilentHang

  function OpeningMessages(behavior: CalleeBehavior): seq<Message> {
    match behavior
    case StubComplete => [Accepted, Message.Completed([])]
    case HangAfterAccept => [Accepted]
    case NeedInputHang => [Accepted, NeedInput]
    case SilentHang => [Accepted]
  }

  /** A driver's handler sends first; `delivered[k]` is the fate of its k-th send. */
  function OpeningWakes(behavior: CalleeBehavior, delivered: (bool, bool)): seq<CalleeWake> {
    var m := OpeningMessages(behavior);
    if |m| == 1 then [Handler(m[0], delivered.0)] else [Handler(m[0], delivered.0), Handler(m[1], delivered.1)]
  }

  /** A silent handler never polls its inbox. */
  function Heard(behavior: CalleeBehavior, wakes: seq<CalleeWake>): seq<CalleeWake> {
    if wakes == [] then []
    else if behavior == SilentHang && (wakes[0].Inbox? || wakes[0].InboxClosed?) then Heard(behavior, wakes[1..])
    else [wakes[0]] + Heard(behavior, wakes[1..])
  }

  /** A silent handler hears neither messages nor the end of its inbox, but all else in order; others hear all. */
  lemma {:induction false} HeardExactly(behavior: CalleeBehavior, a: seq<CalleeWake>, b: seq<CalleeWake>, w: CalleeWake)
    ensures Heard(behavior, a + b) == Heard(behavior, a) + Heard(behavior, b)
    ensures Heard(behavior, [w]) == if behavior == SilentHang && (w.Inbox? || w.InboxClosed?) then [] else [w]
    decreases |a|
  {
    assert [w][1..] == [];
    if a == [] {
      assert a + b == b;
    } else {
      assert (a + b)[1..] == a[1..] + b;
      HeardExactly(behavior, a[1..], b, w);
    }
  }

  function CalleeRun(first: Option<Message>, wakes: seq<CalleeWake>): Turn<CalleeState> {
    CalleeTurns(Turn(CalleeAnswers(first), []), wakes)
  }

  lemma {:induction false} CalleeTurnsSplit(t: Turn<CalleeState>, a: seq<CalleeWake>, b: seq<CalleeWake>)
    ensures CalleeTurns(t, a + b) == CalleeTurns(CalleeTurns(t, a), b)
    decreases |a|
  {
    if a == [] {
      assert a + b == b;
    } else if t.side.Running? {
      var n := CalleeTurn(t.side.state, a[0]);
      assert (a + b)[1..] == a[1..] + b;
      CalleeTurnsSplit(Turn(n.side, t.out + n.out), a[1..], b);
    }
  }

  lemma OneSend(state: CalleeState, sent: seq<Message>, m: Message, delivered: bool, later: seq<CalleeWake>)
    requires !state.Terminal? && CalleeStep(state, Send(m)).Ok?
    ensures CalleeTurns(Turn(Running(state), sent), [Handler(m, delivered)] + later)
         == if !delivered then Turn(Returned(Err(Connection)), sent + [m])
            else CalleeTurns(Turn(CalleeSettles(CalleeStep(state, Send(m)).value.state), sent + [m]), later)
  {
    assert ([Handler(m, delivered)] + later)[1..] == later;
  }

  /** What the opening sends of each behaviour come to. */
  lemma OpeningExactly(behavior: CalleeBehavior, delivered: (bool, bool))
    ensures CalleeTurns(Turn(Running(Offered), []), OpeningWakes(behavior, delivered)) ==
            if !delivered.0 then Turn(Returned(Err(Connection)), [Accepted])
            else
              match behavior
              case StubComplete =>
                Turn(if delivered.1 then Returned(Ok(Outcome.Completed)) else Returned(Err(Connection)),
                     [Accepted, Message.Completed([])])
              case NeedInputHang =>
                Turn(if delivered.1 then Running(NeedInputSent) else Returned(Err(Connection)), [Accepted, NeedInput])
              case _ => Turn(Running(CalleeState.Working), [Accepted])
  {
    var wakes := OpeningWakes(behavior, delivered);
    OneSend(Offered, [], Accepted, delivered.0, wakes[1..]);
    assert wakes == [wakes[0]] + wakes[1..] && [] + [Accepted] == [Accepted];
    if |wakes| == 2 && delivered.0 {
      var m := OpeningMessages(behavior)[1];
      OneSend(CalleeState.Working, [Accepted], m, delivered.1, []);
      assert wakes[1..] == [Handler(m, delivered.1)] + [] && [Accepted] + [m] == [Accepted, m];
    }
  }

  /** Sends the messages one by one, up to the first that fails. */
  method SendEach(behavior: CalleeBehavior, delivered: (bool, bool))
    returns (side: Side<CalleeState>, sent: seq<Message>)
    ensures Turn(side, sent) == CalleeTurns(Turn(Running(Offered), []), OpeningWakes(behavior, delivered))
    ensures side.Running? ==> !side.state.Terminal?
  {
    ghost var opening := OpeningWakes(behavior, delivered);
    var state: CalleeState := Offered;
    sent := [];
    var messages := OpeningMessages(behavior);
    var k := 0;
    while k < |messages|
      invariant k <= |messages| == |opening|
      invariant CalleeTurns(Turn(CalleeSettles(state), sent), opening[k..])
             == CalleeTurns(Turn(Running(Offered), []), opening)
      invariant k < |messages| ==> !state.Terminal?
    {
      match CalleeStep(state, Send(messages[k])) {
        case Err(_) =>
          assert sent + [] == sent;
          return Returned(Err(IllegalTransition)), sent;
        case Ok(step) =>
          state := step.state;
          sent := sent + [messages[k]];
          if !(if k == 0 then delivered.0 else delivered.1) {
            return Returned(Err(Connection)), sent;
          }
      }
      k := k + 1;
    }
    side := CalleeSettles(state);
  }

  /** The handler's opening sends. */
  method SendOpening(behavior: CalleeBehavior, delivered: (bool, bool))
    returns (side: Side<CalleeState>, sent: seq<Message>)
    ensures Turn(side, sent) == CalleeTurns(Turn(Running(Offered), []), OpeningWakes(behavior, delivered))
    ensures side.Running? ==> !side.state.Terminal?
    ensures !delivered.0 ==> side == Returned(Err(Connection)) && sent == [Accepted]
    ensures delivered.0 && (behavior == HangAfterAccept || behavior == SilentHang) ==>
              side == Running(CalleeState.Working) && sent == [Accepted]
    ensures delivered.0 && behavior == StubComplete ==>
              && sent == [Accepted, Message.Completed([])]
              && side == if delivered.1 then Returned(Ok(Outcome.Completed)) else Returned(Err(Connection))
    ensures delivered.0 && behavior == NeedInputHang ==>
              && sent == [Accepted, NeedInput]
              && side == if delivered.1 then Running(NeedInputSent) else Returned(Err(Connection))
  {
    side, sent := SendEach(behavior, delivered);
    OpeningExactly(behavior, delivered);
  }

  method DriveCallee(first: Option<Message>, behavior: CalleeBehavior, delivered: (bool, bool), wakes: seq<CalleeWake>)
    returns (side: Side<CalleeState>, sent: seq<Message>)
    ensures Turn(side, sent) == CalleeRun(first, OpeningWakes(behavior, delivered) + Heard(behavior, wakes))
    ensures first == None ==> side == Returned(Err(Connection)) && sent == []
    ensures first.Some? && !first.value.Submit? ==> side == Returned(Err(IllegalTransition)) && sent == []
  {
    ghost var opening := OpeningWakes(behavior, delivered);
    side, sent := CalleeAnswers(first), [];
    CalleeTurnsSplit(Turn(side, sent), opening, Heard(behavior, wakes));
    if !side.Running? {
      return;
    }
    side, sent := SendOpening(behavior, delivered);
    ghost var begun := Turn(side, sent);
    if !side.Running? {
      return;
    }
    var state := side.state;
    var i := 0;
    while i < |wakes|
      invariant i <= |wakes|
      invariant CalleeTurns(Turn(CalleeSettles(state), sent), Heard(behavior, wakes[i..]))
             == CalleeTurns(begun, Heard(behavior, wakes))
    {
      if state.Terminal? {
        return Returned(Ok(state.outcome)), sent;
      }
      var wake := wakes[i];
      if !(behavior == SilentHang && (wake.Inbox? || wake.InboxClosed?)) {
        assert Heard(behavior, wakes[i..])[1..] == Heard(behavior, wakes[i + 1..]);
        match CalleeStep(state, CalleeEvent(wake)) {
          case Err(_) =>
            assert sent + [] == sent;
            return Returned(Err(IllegalTransition)), sent;
          case Ok(step) =>
            state := step.state;
            sent := sent + Emitted(wake, step);
            if wake.Handler? && !wake.delivered {
              return Returned(Err(Connection)), sent;
            }
        }
      }
      i := i + 1;
    }
    side := CalleeSettles(state);
  }

  // ----- both drivers and the two queues -----

  /** The logs `callerSent`, `calleeSent`, `callerRead` and `calleeRead` only grow; nothing decides on them. */
  datatype System = System(
    caller: Side<CallerState>, callee: Side<CalleeState>,
    toCallee: seq<Message>, toCaller: seq<Message>,
    callerSent: seq<Message>, calleeSent: seq<Message>,
    callerRead: seq<Message>, calleeRead: seq<Message>)

  const INITIAL: System := System(Idle, Idle, [], [], [], [], [], [])

  datatype Action =
    | PlaceCall(submit: Message)
    | AnswerCall
    | CallerActs(callerWake: CallerWake)
    | CalleeActs(calleeWake: CalleeWake)

  /** A driver that returned has dropped its receiver, so nothing reaches it any more. */
  function Deliver<S>(queue: seq<Message>, receiver: Side<S>, out: seq<Message>): seq<Message> {
    if receiver.Returned? then queue else queue + out
  }

  predicate CallerMay(s: System, wake: CallerWake) {
    && s.caller.Running?
    && match wake
       case TimerFired => true
       case Request(m) => CallerStep(s.caller.state, Send(m)).Ok?
       case SenderGone => true
       case Inbox(m) => s.toCaller != [] && s.toCaller[0] == m
       case InboxClosed => s.toCaller == [] && s.callee.Returned?
  }

  predicate CalleeMay(s: System, wake: CalleeWake) {
    && s.callee.Running?
    && match wake
       case DeadlineFired => true
       case Handler(m, delivered) => CalleeStep(s.callee.state, Send(m)).Ok? && delivered == !s.caller.Returned?
       case Inbox(m) => s.toCallee != [] && s.toCallee[0] == m
       case InboxClosed => s.toCallee == [] && s.caller.Returned?
  }

  function Taken<T>(yes: bool, queue: seq<T>): seq<T>
    requires yes ==> queue != []
  {
    if yes then queue[1..] else queue
  }

  /** One step of the composed system, or `None` when the action cannot happen there. */
  function Next(s: System, a: Action): Option<System> {
    match a
    case PlaceCall(m) =>
      if s.caller.Idle? && m.Submit? then
        Some(s.(caller := Running(Submitted), toCallee := [m], callerSent := [m]))
      else None
    case AnswerCall =>
      if !s.callee.Idle? then None
      else if s.toCallee != [] then
        Some(s.(callee := CalleeAnswers(Some(s.toCallee[0])), toCallee := s.toCallee[1..]))
      else if s.caller.Returned? then Some(s.(callee := CalleeAnswers(None)))
      else None
    case CallerActs(wake) =>
      if !CallerMay(s, wake) then None
      else
        var t := CallerTurn(s.caller.state, wake);
        Some(s.(caller := t.side,
                toCaller := Taken(wake.Inbox?, s.toCaller),
                callerRead := if wake.Inbox? then s.callerRead + [wake.msg] else s.callerRead,
                toCallee := Deliver(s.toCallee, s.callee, t.out),
                callerSent := s.callerSent + t.out))
    case CalleeActs(wake) =>
      if !CalleeMay(s, wake) then None
      else
        var t := CalleeTurn(s.callee.state, wake);
        Some(s.(callee := t.side,
                toCallee := Taken(wake.Inbox?, s.toCallee),
                calleeRead := if wake.Inbox? then s.calleeRead + [wake.msg] else s.calleeRead,
                toCaller := Deliver(s.toCaller, s.caller, t.out),
                calleeSent := s.calleeSent + t.out))
  }

  /** Every finite run from a state; `None` when some action of it cannot happen. */
  function Run(s: System, actions: seq<Action>): Option<System>
    decreases |actions|
  {
    if actions == [] then Some(s)
    else
      match Next(s, actions[0])
      case None => None
      case Some(n) => Run(n, actions[1..])
  }

  /** Which actions can happen: a timer or a legal send at any time, and otherwise what the queue holds. */
  lemma ActionsExactly(s: System, a: Action)
    ensures Next(s, a).Some? <==>
              match a
              case PlaceCall(m) => s.caller.Idle? && m.Submit?
              case AnswerCall => s.callee.Idle? && (s.toCallee != [] || s.caller.Returned?)
              case CallerActs(wake) =>
                && s.caller.Running?
                && (wake.Request? ==> CallerStep(s.caller.state, Send(wake.msg)).Ok?)
                && (wake.Inbox? ==> s.toCaller != [] && s.toCaller[0] == wake.msg)
                && (wake.InboxClosed? ==> s.toCaller == [] && s.callee.Returned?)
              case CalleeActs(wake) =>
                && s.callee.Running?
                && (wake.Handler? ==> CalleeStep(s.callee.state, Send(wake.msg)).Ok?)
                && (wake.Handler? ==> (wake.delivered <==> !s.caller.Returned?))
                && (wake.Inbox? ==> s.toCallee != [] && s.toCallee[0] == wake.msg)
                && (wake.InboxClosed? ==> s.toCallee == [] && s.caller.Returned?)
  {}

  /** What is sent goes to the end of the other side's queue, and nowhere once that side has returned. */
  lemma SendsExactly(s: System, a: Action)
    requires Next(s, a).Some? && (a.CallerActs? || a.CalleeActs?)
    ensures var n := Next(s, a).value;
            && s.callerSent <= n.callerSent && s.calleeSent <= n.calleeSent
            && (a.CallerActs? ==>
                  && n.calleeSent == s.calleeSent && n.callee == s.callee
                  && n.toCallee == s.toCallee + if s.callee.Returned? then [] else n.callerSent[|s.callerSent|..])
            && (a.CalleeActs? ==>
                  && n.callerSent == s.callerSent && n.caller == s.caller
                  && n.toCaller == s.toCaller + if s.caller.Returned? then [] else n.calleeSent[|s.calleeSent|..])
  {}

  /** The caller's part of a run. */
  function CallerWakes(actions: seq<Action>): seq<CallerWake> {
    if actions == [] then []
    else (if actions[0].CallerActs? then [actions[0].callerWake] else []) + CallerWakes(actions[1..])
  }

  function CalleeWakes(actions: seq<Action>): seq<CalleeWake> {
    if actions == [] then []
    else (if actions[0].CalleeActs? then [actions[0].calleeWake] else []) + CalleeWakes(actions[1..])
  }

  /**
   The composed system is made of the two drivers: once a call is placed, whatever interleaving
   follows, the caller's phase and messages are those its loop produces on its own wake-ups.
   */
  lemma {:induction false} CallerPartIsItsDriver(s: System, actions: seq<Action>)
    requires !s.caller.Idle? && Run(s, actions).Some?
    ensures var end := Run(s, actions).value;
            Turn(end.caller, end.callerSent) == CallerTurns(Turn(s.caller, s.callerSent), CallerWakes(actions))
    decreases |actions|
  {
    if actions != [] {
      var next := Next(s, actions[0]).value;
      CallerPartIsItsDriver(next, actions[1..]);
      if actions[0].CallerActs? {
        assert CallerWakes(actions)[1..] == CallerWakes(actions[1..]);
      } else {
        assert CallerWakes(actions) == CallerWakes(actions[1..]);
      }
    }
  }

  /** Likewise for the callee, once it has read a first message. */
  lemma {:induction false} CalleePartIsItsDriver(s: System, actions: seq<Action>)
    requires !s.callee.Idle? && Run(s, actions).Some?
    ensures var end := Run(s, actions).value;
            Turn(end.callee, end.calleeSent) == CalleeTurns(Turn(s.callee, s.calleeSent), CalleeWakes(actions))
    decreases |actions|
  {
    if actions != [] {
      var next := Next(s, actions[0]).value;
      CalleePartIsItsDriver(next, actions[1..]);
      if actions[0].CalleeActs? {
        assert CalleeWakes(actions)[1..] == CalleeWakes(actions[1..]);
      } else {
        assert CalleeWakes(actions) == CalleeWakes(actions[1..]);
      }
    }
  }

  /** The caller of a system's run is its driver's run, from the call it places on. */
  lemma SystemRunsCaller(m: Message, actions: seq<Action>)
    requires Run(INITIAL, [PlaceCall(m)] + actions).Some?
    ensures var end := Run(INITIAL, [PlaceCall(m)] + actions).value;
            Turn(end.caller, end.callerSent) == CallerRun(m, CallerWakes(actions))
  {
    assert ([PlaceCall(m)] + actions)[1..] == actions;
    CallerPartIsItsDriver(Next(INITIAL, PlaceCall(m)).value, actions);
  }

  /** Nothing can happen before a call is placed. */
  lemma PlacedFirst(actions: seq<Action>)
    requires actions != [] && Run(INITIAL, actions).Some?
    ensures actions[0].PlaceCall? && actions[0].submit.Submit?
  {}

  /** Until it answers, the callee has sent nothing and the Submit is the next message it will read. */
  lemma {:induction false} SubmitWaits(s: System, m: Message, actions: seq<Action>)
    requires !s.caller.Idle? && s.callee.Idle? && s.calleeSent == [] && s.toCallee != [] && s.toCallee[0] == m
    requires (forall i :: 0 <= i < |actions| ==> !actions[i].AnswerCall?) && Run(s, actions).Some?
    ensures var end := Run(s, actions).value;
            end.callee.Idle? && end.calleeSent == [] && end.toCallee != [] && end.toCallee[0] == m
    decreases |actions|
  {
    if actions != [] {
      SubmitWaits(Next(s, actions[0]).value, m, actions[1..]);
    }
  }

  lemma {:induction false} RunSplit(s: System, a: seq<Action>, b: seq<Action>)
    requires Run(s, a + b).Some?
    ensures Run(s, a).Some? && Run(s, a + b) == Run(Run(s, a).value, b)
    decreases |a|
  {
    if a == [] {
      assert a + b == b;
    } else {
      assert (a + b)[1..] == a[1..] + b;
      RunSplit(Next(s, a[0]).value, a[1..], b);
    }
  }

  /** The callee of a system's run is its driver's run on that Submit, from the moment it answers on. */
  lemma SystemRunsCallee(m: Message, before: seq<Action>, after: seq<Action>)
    requires forall i :: 0 <= i < |before| ==> !before[i].AnswerCall?
    requires Run(INITIAL, [PlaceCall(m)] + before + ([AnswerCall] + after)).Some?
    ensures var end := Run(INITIAL, [PlaceCall(m)] + before + ([AnswerCall] + after)).value;
            Turn(end.callee, end.calleeSent) == CalleeRun(Some(m), CalleeWakes(after))
  {
    var placed := [PlaceCall(m)] + before;
    RunSplit(INITIAL, placed, [AnswerCall] + after);
    assert placed[1..] == before;
    SubmitWaits(Next(INITIAL, PlaceCall(m)).value, m, before);
    var s := Run(INITIAL, placed).value;
    assert ([AnswerCall] + after)[1..] == after;
    CalleePartIsItsDriver(Next(s, AnswerCall).value, after);
  }
}
