/** The caller's and the callee's transition tables. */
module CallState {
  import opened Bytes
  import opened WireTypes

  datatype Illegal = Illegal

  /** A legal step: the next state and a message to send, if any. */
  datatype Step<+S> = Step(state: S, emit: Option<Message>)

  datatype CallerState = Dialing | Submitted | Working | AwaitingInput | Canceling | Terminal(outcome: Outcome)

  datatype CalleeState = Offered | Working | NeedInputSent | Terminal(outcome: Outcome)

  /** What drives either machine. */
  datatype Event = Send(msg: Message) | Recv(msg: Message) | Timeout | ConnLost(close: CloseCode)

  function ConnLostOutcome(code: CloseCode): Outcome {
    if code == CloseCode.Normal then PeerLost else Closed(code)
  }

  function CallerGo(state: CallerState): Result<Step<CallerState>, Illegal> {
    Ok(Step(state, None))
  }

  function CallerStep(state: CallerState, event: Event): Result<Step<CallerState>, Illegal> {
    if state.Terminal? then Err(Illegal)
    else
      match (state, event)
      case (Dialing, Send(Submit(_, _, _, _, _))) => CallerGo(Submitted)
      case (Submitted, Recv(Accepted)) => CallerGo(CallerState.Working)
      case (Submitted, Recv(Failed(code))) => CallerGo(CallerState.Terminal(Outcome.Failed(code)))
      case (Submitted, Send(Cancel)) => CallerGo(Canceling)
      case (Working, Recv(Progress)) => CallerGo(CallerState.Working)
      case (Working, Recv(NeedInput)) => CallerGo(AwaitingInput)
      case (Working, Recv(Completed(_))) => CallerGo(CallerState.Terminal(Outcome.Completed))
      case (Working, Recv(Failed(code))) => CallerGo(CallerState.Terminal(Outcome.Failed(code)))
      case (Working, Send(Cancel)) => CallerGo(Canceling)
      case (AwaitingInput, Send(Input(_))) => CallerGo(CallerState.Working)
      case (AwaitingInput, Send(Cancel)) => CallerGo(Canceling)
      case (AwaitingInput, Recv(Failed(code))) => CallerGo(CallerState.Terminal(Outcome.Failed(code)))
      case (Canceling, Recv(Accepted)) => CallerGo(Canceling)
      case (Canceling, Recv(Canceled)) => CallerGo(CallerState.Terminal(Outcome.Canceled))
      case (Canceling, Recv(Completed(_))) => CallerGo(CallerState.Terminal(Outcome.Completed))
      case (Canceling, Recv(Failed(code))) => CallerGo(CallerState.Terminal(Outcome.Failed(code)))
      case (Canceling, Recv(Progress)) => CallerGo(Canceling)
      case (Canceling, Recv(NeedInput)) => CallerGo(Canceling)
      case (_, Timeout) => CallerGo(CallerState.Terminal(Closed(CloseCode.Timeout)))
      case (_, ConnLost(code)) => CallerGo(CallerState.Terminal(ConnLostOutcome(code)))
      case _ => Err(Illegal)
  }

  function CalleeGo(state: CalleeState): Result<Step<CalleeState>, Illegal> {
    Ok(Step(state, None))
  }

  /** The answer to Cancel, from every callee state that accepts it. */
  const CANCEL_ANSWER: Result<Step<CalleeState>, Illegal> :=
    Ok(Step(CalleeState.Terminal(Outcome.Canceled), Some(Message.Canceled)))

  function CalleeStep(state: CalleeState, event: Event): Result<Step<CalleeState>, Illegal> {
    if state.Terminal? then Err(Illegal)
    else
      match (state, event)
      case (Offered, Send(Accepted)) => CalleeGo(CalleeState.Working)
      case (Offered, Send(Failed(code))) => CalleeGo(CalleeState.Terminal(Outcome.Failed(code)))
      case (Offered, Recv(Cancel)) => CANCEL_ANSWER
      case (Working, Send(Progress)) => CalleeGo(CalleeState.Working)
      case (Working, Send(NeedInput)) => CalleeGo(NeedInputSent)
      case (Working, Send(Completed(_))) => CalleeGo(CalleeState.Terminal(Outcome.Completed))
      case (Working, Send(Failed(code))) =>
        if code == Rejected then Err(Illegal) else CalleeGo(CalleeState.Terminal(Outcome.Failed(code)))
      case (Working, Recv(Cancel)) => CANCEL_ANSWER
      case (NeedInputSent, Recv(Input(_))) => CalleeGo(CalleeState.Working)
      case (NeedInputSent, Recv(Cancel)) => CANCEL_ANSWER
      case (NeedInputSent, Send(Failed(code))) =>
        if code == Rejected then Err(Illegal) else CalleeGo(CalleeState.Terminal(Outcome.Failed(code)))
      case (_, Timeout) =>
        Ok(Step(CalleeState.Terminal(Outcome.Failed(DeadlineExceeded)), Some(Message.Failed(DeadlineExceeded))))
      case (_, ConnLost(code)) => CalleeGo(CalleeState.Terminal(ConnLostOutcome(code)))
      case _ => Err(Illegal)
  }

  // ----- what an outcome says about the event behind it -----

  predicate ConnectionEnd(event: Event, o: Outcome) {
    match event
    case Timeout => o == Closed(CloseCode.Timeout)
    case ConnLost(code) => if code == Normal then o == PeerLost else o == Closed(code)
    case _ => false
  }

  /**
   The caller ends in an outcome only by reading the message of that name, or by its timer or a lost
   connection; these two end every state that has not ended, and nothing ever follows an end.
   */
  lemma CallerEndsExplained(state: CallerState, event: Event, o: Outcome)
    ensures CallerStep(state, event) == Ok(Step(CallerState.Terminal(o), None)) ==>
              || ConnectionEnd(event, o)
              || (o == Outcome.Canceled && event == Recv(Message.Canceled) && state == Canceling)
              || (o.Failed? && event == Recv(Message.Failed(o.code)))
              || (o.Completed? && event.Recv? && event.msg.Completed? && (state.Working? || state.Canceling?))
    ensures ConnectionEnd(event, o) ==>
              (CallerStep(state, event) == Ok(Step(CallerState.Terminal(o), None)) <==> !state.Terminal?)
    ensures state.Terminal? ==> CallerStep(state, event).Err?
  {}

  /**
   The callee likewise, except that its timer ends it in a failure. It emits a message by itself
   exactly for Cancel and for the timer, and then that message says how it ended.
   */
  lemma CalleeEndsExplained(state: CalleeState, event: Event)
    ensures event == Event.Timeout || event.ConnLost? ==> (CalleeStep(state, event).Ok? <==> !state.Terminal?)
    ensures CalleeStep(state, event).Ok? ==>
            var step := CalleeStep(state, event).value;
            && (event == Event.Timeout ==> step.state == CalleeState.Terminal(Outcome.Failed(DeadlineExceeded)))
            && (event.ConnLost? ==> step.state.Terminal? && ConnectionEnd(event, step.state.outcome))
            && (step.emit.Some? <==> event == Recv(Cancel) || event == Event.Timeout)
            && (step.emit.Some? ==> step.state.Terminal? && match step.state.outcome
                                                            case Canceled => step.emit.value == Message.Canceled
                                                            case Failed(code) => step.emit.value == Message.Failed(code)
                                                            case _ => false)
            && (event.Send? && step.state.Terminal? ==> match step.state.outcome
                                                        case Completed =>
                                                          event.msg.Completed? && state == CalleeState.Working
                                                        case Failed(code) => event.msg == Message.Failed(code)
                                                        case _ => false)
  {}

  // ----- the tables by message: who may read or send it, and where that leads -----

  /** The caller never emits on its own. */
  lemma CallerByMessage(state: CallerState, m: Message)
    ensures CallerStep(state, Recv(m)).Ok? <==>
              match m
              case Accepted => state.Submitted? || state.Canceling?
              case Progress | NeedInput => state.Working? || state.Canceling?
              case Completed(_) => state.Working? || state.Canceling?
              case Failed(_) => !state.Dialing? && !state.Terminal?
              case Canceled => state.Canceling?
              case _ => false
    ensures CallerStep(state, Recv(m)).Ok? ==>
              CallerStep(state, Recv(m)).value ==
              Step(match m
                   case Completed(_) => CallerState.Terminal(Outcome.Completed)
                   case Failed(code) => CallerState.Terminal(Outcome.Failed(code))
                   case Canceled => CallerState.Terminal(Outcome.Canceled)
                   case NeedInput => if state.Canceling? then Canceling else AwaitingInput
                   case _ => if state.Canceling? then Canceling else CallerState.Working,
                   None)
    ensures CallerStep(state, Send(m)).Ok? <==>
              match m
              case Submit(_, _, _, _, _) => state.Dialing?
              case Input(_) => state.AwaitingInput?
              case Cancel => state.Submitted? || state.Working? || state.AwaitingInput?
              case _ => false
    ensures CallerStep(state, Send(m)).Ok? ==>
              CallerStep(state, Send(m)).value ==
              Step(if m.Submit? then Submitted else if m.Input? then CallerState.Working else Canceling, None)
  {}

  lemma CalleeByMessage(state: CalleeState, m: Message)
    ensures CalleeStep(state, Recv(m)).Ok? <==>
              match m
              case Cancel => !state.Terminal?
              case Input(_) => state.NeedInputSent?
              case _ => false
    ensures CalleeStep(state, Recv(m)).Ok? ==>
              CalleeStep(state, Recv(m)).value ==
              if m.Cancel? then Step(CalleeState.Terminal(Outcome.Canceled), Some(Message.Canceled))
              else Step(CalleeState.Working, None)
    ensures CalleeStep(state, Send(m)).Ok? <==>
              match m
              case Accepted => state.Offered?
              case Progress | NeedInput => state.Working?
              case Completed(_) => state.Working?
              case Failed(code) => state.Offered? || (code != Rejected && (state.Working? || state.NeedInputSent?))
              case _ => false
    ensures CalleeStep(state, Send(m)).Ok? ==>
              CalleeStep(state, Send(m)).value ==
              Step(match m
                   case NeedInput => NeedInputSent
                   case Completed(_) => CalleeState.Terminal(Outcome.Completed)
                   case Failed(code) => CalleeState.Terminal(Outcome.Failed(code))
                   case _ => CalleeState.Working,
                   None)
  {}
}
