/** What every run of the composed call system keeps. */
module CallSafety {
  import opened Bytes
  import opened WireTypes
  import opened CallErrors
  import opened CallState
  import opened ChannelCall

  // ----- the inductive invariant -----

  /** Reading all of `queue` from `state`; `None` as soon as one message is illegal. */
  function Replay(state: CallerState, queue: seq<Message>): Option<CallerState>
    decreases |queue|
  {
    if queue == [] then Some(state)
    else
      match CallerStep(state, Recv(queue[0]))
      case Err(_) => None
      case Ok(step) => Replay(step.state, queue[1..])
  }

  predicate IsCancel(queue: seq<Message>) {
    |queue| == 1 && queue[0].Cancel?
  }

  predicate IsInput(queue: seq<Message>) {
    |queue| == 1 && queue[0].Input?
  }

  predicate IsInputThenCancel(queue: seq<Message>) {
    |queue| == 2 && queue[0].Input? && queue[1].Cancel?
  }

  /** What may still be on its way to the callee, given how far the callee is. */
  predicate CalleeQueueFits(callee: Side<CalleeState>, queue: seq<Message>) {
    match callee
    case Idle => 1 <= |queue| <= 2 && queue[0].Submit? && (|queue| == 2 ==> queue[1].Cancel?)
    case Running(NeedInputSent) => queue == [] || IsCancel(queue) || IsInput(queue) || IsInputThenCancel(queue)
    case Running(state) => !state.Terminal? && (queue == [] || IsCancel(queue))
    case Returned(result) => result != Err(IllegalTransition)
  }

  predicate FromMessage(o: Outcome) {
    o.Completed? || o.Failed? || o.Canceled?
  }

  /**
   `last` is where a caller that is still running will be once it has read everything already sent
   to it. It matches the callee's state together with what the callee has yet to read.
   */
  predicate Matched(last: CallerState, callee: Side<CalleeState>, toCallee: seq<Message>) {
    match callee
    case Idle => last == (if |toCallee| == 2 then Canceling else Submitted)
    case Running(Offered) => last == (if toCallee == [] then Submitted else Canceling)
    case Running(Working) => last == (if toCallee == [] then CallerState.Working else Canceling)
    case Running(NeedInputSent) =>
      last == (if toCallee == [] then AwaitingInput
               else if IsInput(toCallee) then CallerState.Working else Canceling)
    case Running(Terminal(_)) => false
    case Returned(result) => result.Ok? && FromMessage(result.value) && last == CallerState.Terminal(result.value)
  }

  predicate Inv(s: System) {
    match s.caller
    case Idle => s == INITIAL
    case Running(state) =>
      && !state.Terminal? && !state.Dialing?
      && CalleeQueueFits(s.callee, s.toCallee)
      && (var last := Replay(state, s.toCaller); last.Some? && Matched(last.value, s.callee, s.toCallee))
    case Returned(result) =>
      && CalleeQueueFits(s.callee, s.toCallee)
      && result.Ok?
      && (result.value == Closed(CloseCode.Timeout) || (FromMessage(result.value) && s.callee == Returned(result)))
  }

  lemma {:induction false} ReplayAppend(state: CallerState, queue: seq<Message>, m: Message)
    ensures Replay(state, queue + [m])
         == match Replay(state, queue)
            case None => None
            case Some(last) =>
              match CallerStep(last, Recv(m))
              case Err(_) => None
              case Ok(step) => Some(step.state)
    decreases |queue|
  {
    if queue == [] {
      assert queue + [m] == [m] && [m][1..] == [];
    } else {
      assert (queue + [m])[1..] == queue[1..] + [m];
      var next := CallerStep(state, Recv(queue[0]));
      if next.Ok? {
        ReplayAppend(next.value.state, queue[1..], m);
      }
    }
  }

  /** A caller that cancels can still read everything it could read before. */
  lemma {:induction false} ReplayAfterCancel(state: CallerState, queue: seq<Message>)
    requires !state.Terminal? && !state.Dialing? && Replay(state, queue).Some?
    ensures var last := Replay(state, queue).value;
            && Replay(Canceling, queue) == Some(if last.Terminal? then last else Canceling)
            && (last == Canceling ==> state == Canceling)
    decreases |queue|
  {
    if queue != [] {
      var next := CallerStep(state, Recv(queue[0])).value.state;
      if next.Terminal? {
        assert queue[1..] == [];
      } else {
        ReplayAfterCancel(next, queue[1..]);
      }
    }
  }

  /** So can one that answers a request for input. */
  lemma ReplayAfterInput(queue: seq<Message>)
    requires Replay(AwaitingInput, queue).Some?
    ensures var last := Replay(AwaitingInput, queue).value;
            Replay(CallerState.Working, queue) == Some(if last.Terminal? then last else CallerState.Working)
    ensures !Replay(AwaitingInput, queue).value.Terminal? ==> Replay(AwaitingInput, queue).value == AwaitingInput
  {
    if queue != [] {
      assert queue[1..] == [];
    }
  }

  lemma RequestKeepsInv(s: System, m: Message)
    requires Inv(s) && CallerMay(s, Request(m))
    ensures Inv(Next(s, CallerActs(Request(m))).value)
  {
    if m.Cancel? {
      ReplayAfterCancel(s.caller.state, s.toCaller);
    } else {
      ReplayAfterInput(s.toCaller);
    }
  }

  lemma CallerActionKeepsInv(s: System, wake: CallerWake)
    requires Inv(s) && CallerMay(s, wake)
    ensures Inv(Next(s, CallerActs(wake)).value)
  {
    match wake {
      case TimerFired =>
      case Request(m) => RequestKeepsInv(s, m);
      case SenderGone => assert s.toCallee + [] == s.toCallee;
      case Inbox(m) =>
        var next := CallerStep(s.caller.state, Recv(m)).value.state;
        assert Replay(next, s.toCaller[1..]).Some?;
      case InboxClosed =>
    }
  }

  /** The heart of the matter: whatever the callee does, the caller can follow once it has caught up. */
  lemma CallerCanFollow(last: CallerState, state: CalleeState, toCallee: seq<Message>, wake: CalleeWake)
    requires CalleeQueueFits(Running(state), toCallee) && Matched(last, Running(state), toCallee)
    requires wake.Handler? ==> CalleeStep(state, Send(wake.msg)).Ok? && wake.delivered
    requires wake.Inbox? ==> toCallee != [] && toCallee[0] == wake.msg
    requires !wake.InboxClosed?
    ensures var t := CalleeTurn(state, wake);
            && CalleeQueueFits(t.side, Taken(wake.Inbox?, toCallee))
            && if t.out == [] then Matched(last, t.side, Taken(wake.Inbox?, toCallee))
               else
                 && |t.out| == 1
                 && CallerStep(last, Recv(t.out[0])).Ok?
                 && Matched(CallerStep(last, Recv(t.out[0])).value.state, t.side, Taken(wake.Inbox?, toCallee))
  {
    match wake {
      case DeadlineFired =>
      case Handler(_, _) =>
      case Inbox(_) =>
    }
  }

  lemma CalleeActionKeepsInv(s: System, wake: CalleeWake)
    requires Inv(s) && CalleeMay(s, wake)
    ensures Inv(Next(s, CalleeActs(wake)).value)
  {
    var state := s.callee.state;
    var t := CalleeTurn(state, wake);
    if s.caller.Running? {
      var last := Replay(s.caller.state, s.toCaller).value;
      CallerCanFollow(last, state, s.toCallee, wake);
      var next := Next(s, CalleeActs(wake)).value;
      assert next.callee == t.side && next.toCallee == Taken(wake.Inbox?, s.toCallee);
      if t.out == [] {
        assert next.toCaller == s.toCaller;
      } else {
        ReplayAppend(s.caller.state, s.toCaller, t.out[0]);
        assert next.toCaller == s.toCaller + [t.out[0]];
      }
    }
  }

  lemma NextKeepsInv(s: System, a: Action)
    requires Inv(s) && Next(s, a).Some?
    ensures Inv(Next(s, a).value)
  {
    match a {
      case PlaceCall(_) =>
      case AnswerCall =>
      case CallerActs(wake) => CallerActionKeepsInv(s, wake);
      case CalleeActs(wake) => CalleeActionKeepsInv(s, wake);
    }
  }

  lemma {:induction false} RunKeepsInv(s: System, actions: seq<Action>)
    requires Inv(s) && Run(s, actions).Some?
    ensures Inv(Run(s, actions).value)
    decreases |actions|
  {
    if actions != [] {
      NextKeepsInv(s, actions[0]);
      RunKeepsInv(Next(s, actions[0]).value, actions[1..]);
    }
  }

  lemma HeadsAreLegal(s: System)
    requires Inv(s)
    ensures s.caller.Running? && s.toCaller != [] ==> CallerStep(s.caller.state, Recv(s.toCaller[0])).Ok?
    ensures s.callee.Running? && s.toCallee != [] ==> CalleeStep(s.callee.state, Recv(s.toCallee[0])).Ok?
    ensures s.callee.Idle? && s.toCallee != [] ==> s.toCallee[0].Submit?
  {}

  // ----- main results -----

  /**
   No unspecified reception. In every reachable state the head of either queue is legal for a
   receiver that still reads it, and so no driver ever returns an illegal transition.
   */
  lemma NoUnspecifiedReception(actions: seq<Action>)
    requires Run(INITIAL, actions).Some?
    ensures var s := Run(INITIAL, actions).value;
            && (s.caller.Running? && s.toCaller != [] ==> CallerStep(s.caller.state, Recv(s.toCaller[0])).Ok?)
            && (s.callee.Running? && s.toCallee != [] ==> CalleeStep(s.callee.state, Recv(s.toCallee[0])).Ok?)
            && (s.callee.Idle? && s.toCallee != [] ==> s.toCallee[0].Submit?)
            && s.caller != Returned(Err(IllegalTransition))
            && s.callee != Returned(Err(IllegalTransition))
  {
    RunKeepsInv(INITIAL, actions);
    HeadsAreLegal(Run(INITIAL, actions).value);
  }

  /**
   Outcome agreement. A caller that returns either timed out or holds the outcome of a message the
   callee had already ended with; it is never left with a lost peer. Conversely the callee can only
   end without such a message when the caller timed out.
   */
  lemma OutcomesAgree(actions: seq<Action>)
    requires Run(INITIAL, actions).Some?
    ensures var s := Run(INITIAL, actions).value;
            && (s.caller.Returned? ==>
                  || s.caller == Returned(Ok(Closed(CloseCode.Timeout)))
                  || (&& s.caller.result.Ok? && FromMessage(s.caller.result.value)
                      && s.callee == Returned(s.caller.result)))
            && (s.callee.Returned? && !(s.callee.result.Ok? && FromMessage(s.callee.result.value)) ==>
                  s.caller == Returned(Ok(Closed(CloseCode.Timeout))))
  {
    RunKeepsInv(INITIAL, actions);
  }

  /**
   A terminal message is never lost to a closed channel: while the caller still runs, a callee that
   has returned has left its final message at the end of the queue, and reading the queue to its
   end gives the caller exactly the callee's outcome.
   */
  lemma TerminalMessageArrives(actions: seq<Action>)
    requires Run(INITIAL, actions).Some?
    ensures var s := Run(INITIAL, actions).value;
            s.caller.Running? && s.callee.Returned? ==>
              && s.toCaller != []
              && s.callee.result.Ok?
              && Replay(s.caller.state, s.toCaller) == Some(CallerState.Terminal(s.callee.result.value))
  {
    RunKeepsInv(INITIAL, actions);
  }
}
