/** What the logs of a composed call say: the language of callee messages, input rounds, queue order. */
module CallHistory {
  import opened Bytes
  import opened WireTypes
  import opened CallState
  import opened ChannelCall
  import opened CallSafety

  predicate IsFinal(m: Message) {
    m.Completed? || m.Failed? || m.Canceled?
  }

  function FinalOutcome(m: Message): Outcome
    requires IsFinal(m)
  {
    match m
    case Completed(_) => Outcome.Completed
    case Failed(code) => Outcome.Failed(code)
    case Canceled => Outcome.Canceled
  }

  /** Accepted, then any number of Progress and NeedInput. */
  predicate Ongoing(sent: seq<Message>) {
    && sent != [] && sent[0].Accepted?
    && forall i :: 1 <= i < |sent| ==> sent[i].Progress? || sent[i].NeedInput?
  }

  predicate Open(sent: seq<Message>) {
    sent == [] || Ongoing(sent)
  }

  /** An open conversation closed by one final message. */
  predicate Finished(sent: seq<Message>) {
    && sent != []
    && (var before, final := sent[..|sent| - 1], sent[|sent| - 1];
        && Open(before) && IsFinal(final)
        && (final.Completed? ==> Ongoing(before))
        && (final == Message.Failed(Rejected) ==> before == []))
  }

  /** The language of everything a callee may ever have sent. */
  predicate Conversation(sent: seq<Message>) {
    Open(sent) || Finished(sent)
  }

  predicate CalleeLogFits(callee: Side<CalleeState>, sent: seq<Message>) {
    match callee
    case Idle => sent == []
    case Running(Offered) => sent == []
    case Running(_) => Ongoing(sent)
    case Returned(Ok(o)) =>
      if FromMessage(o) then Finished(sent) && FinalOutcome(sent[|sent| - 1]) == o else Open(sent)
    case Returned(Err(_)) => Conversation(sent)
  }

  /** Submit first, then answers, then at most one Cancel, after which the caller only reads. */
  predicate CallerLogFits(caller: Side<CallerState>, sent: seq<Message>) {
    match caller
    case Idle => sent == []
    case Running(state) =>
      && sent != [] && sent[0].Submit?
      && (forall i :: 1 <= i < |sent| ==> sent[i].Input? || (sent[i].Cancel? && i == |sent| - 1))
      && (state == Canceling <==> sent[|sent| - 1].Cancel?)
    case Returned(_) =>
      && sent != [] && sent[0].Submit?
      && (forall i :: 1 <= i < |sent| ==> sent[i].Input? || (sent[i].Cancel? && i == |sent| - 1))
  }

  function NeedInputs(log: seq<Message>): nat {
    if log == [] then 0
    else NeedInputs(log[..|log| - 1]) + if log[|log| - 1].NeedInput? then 1 else 0
  }

  function Inputs(log: seq<Message>): nat {
    if log == [] then 0
    else Inputs(log[..|log| - 1]) + if log[|log| - 1].Input? then 1 else 0
  }

  /** How many requests for input are not answered yet, as the callee sees it. */
  predicate Balanced(callee: Side<CalleeState>, asked: int, answered: int) {
    match callee
    case Idle => asked == answered
    case Running(state) => asked == answered + if state == NeedInputSent then 1 else 0
    case Returned(_) => answered <= asked <= answered + 1
  }

  predicate InputsBalance(s: System) {
    Balanced(s.callee, NeedInputs(s.calleeSent), Inputs(s.calleeRead))
  }

  /** Both channels are reliable and first-in first-out for as long as they are read. */
  predicate QueuesInOrder(s: System) {
    && s.callerRead <= s.calleeSent
    && (!s.caller.Returned? ==> s.calleeSent == s.callerRead + s.toCaller)
    && match s.callee
       case Idle => s.calleeRead == [] && s.callerSent == s.toCallee
       case Running(_) => s.callerSent != [] && s.callerSent[1..] == s.calleeRead + s.toCallee
       case Returned(_) => s.callerSent != [] && s.calleeRead <= s.callerSent[1..]
  }

  predicate LogInv(s: System) {
    && CalleeLogFits(s.callee, s.calleeSent)
    && CallerLogFits(s.caller, s.callerSent)
    && InputsBalance(s)
    && QueuesInOrder(s)
  }

  lemma CountsAppend(log: seq<Message>, m: Message)
    ensures NeedInputs(log + [m]) == NeedInputs(log) + if m.NeedInput? then 1 else 0
    ensures Inputs(log + [m]) == Inputs(log) + if m.Input? then 1 else 0
  {
    assert (log + [m])[..|log|] == log;
  }

  lemma LogAppend(sent: seq<Message>, m: Message)
    ensures (sent + [m])[..|sent|] == sent && (sent + [m])[|sent|] == m && |sent + [m]| == |sent| + 1
    ensures Ongoing(sent) && (m.Progress? || m.NeedInput?) ==> Ongoing(sent + [m])
    ensures sent == [] && m.Accepted? ==> Ongoing(sent + [m])
    ensures (&& Open(sent) && IsFinal(m) && (m.Completed? ==> Ongoing(sent))
             && (m == Message.Failed(Rejected) ==> sent == []))
            ==> Finished(sent + [m])
  {
    assert (sent + [m])[..|sent|] == sent;
  }

  lemma FinalLogGrows(state: CalleeState, sent: seq<Message>, m: Message)
    requires !state.Terminal? && CalleeLogFits(Running(state), sent)
    requires CalleeStep(state, Send(m)).Ok? && IsFinal(m)
    ensures CalleeStep(state, Send(m)).value.state == CalleeState.Terminal(FinalOutcome(m))
    ensures Finished(sent + [m]) && (sent + [m])[|sent|] == m
  {
    LogAppend(sent, m);
  }

  lemma HandlerLogGrows(state: CalleeState, sent: seq<Message>, m: Message, delivered: bool)
    requires !state.Terminal? && CalleeLogFits(Running(state), sent)
    requires CalleeStep(state, Send(m)).Ok?
    ensures CalleeLogFits(CalleeTurn(state, CalleeWake.Handler(m, delivered)).side, sent + [m])
  {
    if IsFinal(m) {
      FinalLogGrows(state, sent, m);
    } else {
      LogAppend(sent, m);
    }
  }

  /** The two messages the callee's table emits by itself. */
  lemma AnswerLogGrows(state: CalleeState, sent: seq<Message>, m: Message)
    requires !state.Terminal? && CalleeLogFits(Running(state), sent)
    requires m.Canceled? || m == Message.Failed(DeadlineExceeded)
    ensures CalleeLogFits(Returned(Ok(FinalOutcome(m))), sent + [m])
  {
    LogAppend(sent, m);
    assert Finished(sent + [m]);
  }

  /** What the callee's table makes it send by itself, and how it ends then. */
  lemma AnswerEnds(state: CalleeState, wake: CalleeWake)
    requires CalleeStep(state, CalleeEvent(wake)).Ok? && !wake.Handler? && CalleeTurn(state, wake).out != []
    ensures var t := CalleeTurn(state, wake); var m := t.out[0];
            && t.out == [m] && (m.Canceled? || m == Message.Failed(DeadlineExceeded))
            && t.side == Returned(Ok(FinalOutcome(m)))
  {}

  lemma HandlerSends(state: CalleeState, m: Message, delivered: bool)
    requires CalleeStep(state, Send(m)).Ok?
    ensures CalleeTurn(state, CalleeWake.Handler(m, delivered)).out == [m]
  {}

  lemma SilentLogStays(state: CalleeState, sent: seq<Message>, wake: CalleeWake)
    requires !state.Terminal? && CalleeLogFits(Running(state), sent)
    requires CalleeStep(state, CalleeEvent(wake)).Ok? && CalleeTurn(state, wake).out == []
    ensures CalleeLogFits(CalleeTurn(state, wake).side, sent)
  {}

  lemma CalleeLogGrows(state: CalleeState, sent: seq<Message>, wake: CalleeWake)
    requires !state.Terminal? && CalleeLogFits(Running(state), sent)
    requires CalleeStep(state, CalleeEvent(wake)).Ok?
    ensures var t := CalleeTurn(state, wake); CalleeLogFits(t.side, sent + t.out)
  {
    var t := CalleeTurn(state, wake);
    if wake.Handler? {
      HandlerSends(state, wake.msg, wake.delivered);
      HandlerLogGrows(state, sent, wake.msg, wake.delivered);
    } else if t.out == [] {
      SilentLogStays(state, sent, wake);
      assert sent + t.out == sent;
    } else {
      AnswerEnds(state, wake);
      AnswerLogGrows(state, sent, t.out[0]);
    }
  }

  lemma RequestLogGrows(state: CallerState, sent: seq<Message>, m: Message)
    requires !state.Terminal? && !state.Dialing? && CallerLogFits(Running(state), sent)
    requires CallerStep(state, Send(m)).Ok?
    ensures CallerLogFits(CallerSettles(CallerStep(state, Send(m)).value.state), sent + [m])
  {
    assert m.Input? || m.Cancel?;
  }

  lemma CallerLogGrows(state: CallerState, sent: seq<Message>, wake: CallerWake)
    requires !state.Terminal? && !state.Dialing? && CallerLogFits(Running(state), sent)
    requires !wake.SenderGone? ==> CallerStep(state, CallerEvent(wake)).Ok?
    ensures var t := CallerTurn(state, wake); CallerLogFits(t.side, sent + t.out)
  {
    var t := CallerTurn(state, wake);
    if t.out == [] {
      assert sent + t.out == sent;
    } else {
      RequestLogGrows(state, sent, wake.msg);
    }
  }

  /** A turn sends at most one message, and asks for input only when the handler does. */
  lemma TurnSendsOne(state: CalleeState, wake: CalleeWake)
    requires CalleeStep(state, CalleeEvent(wake)).Ok?
    ensures var out := CalleeTurn(state, wake).out;
            |out| <= 1 && (out != [] && out[0].NeedInput? <==> wake.Handler? && wake.msg.NeedInput?)
  {}

  lemma CountsGrow(log: seq<Message>, out: seq<Message>)
    requires |out| <= 1
    ensures NeedInputs(log + out) == NeedInputs(log) + if out != [] && out[0].NeedInput? then 1 else 0
    ensures Inputs(log + out) == Inputs(log) + if out != [] && out[0].Input? then 1 else 0
  {
    if out == [] {
      assert log + out == log;
    } else {
      assert out == [out[0]];
      CountsAppend(log, out[0]);
    }
  }

  /** How one wake-up changes the two counts. */
  lemma CalleeCounts(s: System, wake: CalleeWake)
    requires CalleeMay(s, wake) && CalleeStep(s.callee.state, CalleeEvent(wake)).Ok?
    ensures var next := Next(s, CalleeActs(wake)).value;
            && NeedInputs(next.calleeSent)
            == NeedInputs(s.calleeSent) + (if wake.Handler? && wake.msg.NeedInput? then 1 else 0)
            && Inputs(next.calleeRead) == Inputs(s.calleeRead) + (if wake.Inbox? && wake.msg.Input? then 1 else 0)
  {
    TurnSendsOne(s.callee.state, wake);
    CountsGrow(s.calleeSent, CalleeTurn(s.callee.state, wake).out);
    if wake.Inbox? {
      CountsGrow(s.calleeRead, [wake.msg]);
    }
  }

  lemma TurnKeepsBalance(state: CalleeState, wake: CalleeWake, asked: int, answered: int)
    requires !state.Terminal? && Balanced(Running(state), asked, answered)
    requires CalleeStep(state, CalleeEvent(wake)).Ok?
    ensures Balanced(CalleeTurn(state, wake).side,
                     asked + (if wake.Handler? && wake.msg.NeedInput? then 1 else 0),
                     answered + (if wake.Inbox? && wake.msg.Input? then 1 else 0))
  {
  }

  lemma CalleeKeepsBalance(s: System, wake: CalleeWake)
    requires InputsBalance(s) && CalleeMay(s, wake)
    requires CalleeStep(s.callee.state, CalleeEvent(wake)).Ok?
    ensures InputsBalance(Next(s, CalleeActs(wake)).value)
  {
    CalleeCounts(s, wake);
    TurnKeepsBalance(s.callee.state, wake, NeedInputs(s.calleeSent), Inputs(s.calleeRead));
    assert Next(s, CalleeActs(wake)).value.callee == CalleeTurn(s.callee.state, wake).side;
  }

  lemma CalleeKeepsQueues(s: System, wake: CalleeWake)
    requires QueuesInOrder(s) && CalleeMay(s, wake)
    ensures QueuesInOrder(Next(s, CalleeActs(wake)).value)
  {
    var next := Next(s, CalleeActs(wake)).value;
    if wake.Inbox? {
      assert s.toCallee == [wake.msg] + s.toCallee[1..];
      assert s.calleeRead + s.toCallee == next.calleeRead + next.toCallee;
    }
  }

  lemma CallerKeepsQueues(s: System, wake: CallerWake)
    requires QueuesInOrder(s) && CallerMay(s, wake)
    ensures QueuesInOrder(Next(s, CallerActs(wake)).value)
  {
    var t := CallerTurn(s.caller.state, wake);
    var next := Next(s, CallerActs(wake)).value;
    if wake.Inbox? {
      assert s.toCaller == [wake.msg] + s.toCaller[1..];
      assert next.callerRead + next.toCaller == s.callerRead + s.toCaller;
    }
    if !s.callee.Idle? {
      assert next.callerSent[1..] == s.callerSent[1..] + t.out;
    }
  }

  lemma NextKeepsLogs(s: System, a: Action)
    requires Inv(s) && LogInv(s) && Next(s, a).Some?
    ensures LogInv(Next(s, a).value)
  {
    NextKeepsInv(s, a);
    match a {
      case PlaceCall(_) =>
      case AnswerCall =>
      case CallerActs(wake) =>
        CallerLogGrows(s.caller.state, s.callerSent, wake);
        CallerKeepsQueues(s, wake);
      case CalleeActs(wake) =>
        CalleeLogGrows(s.callee.state, s.calleeSent, wake);
        CalleeKeepsBalance(s, wake);
        CalleeKeepsQueues(s, wake);
    }
  }

  lemma {:induction false} RunKeepsLogs(s: System, actions: seq<Action>)
    requires Inv(s) && LogInv(s) && Run(s, actions).Some?
    ensures LogInv(Run(s, actions).value)
    decreases |actions|
  {
    if actions != [] {
      NextKeepsInv(s, actions[0]);
      NextKeepsLogs(s, actions[0]);
      RunKeepsLogs(Next(s, actions[0]).value, actions[1..]);
    }
  }

  lemma ReachableLogs(actions: seq<Action>)
    requires Run(INITIAL, actions).Some?
    ensures var s := Run(INITIAL, actions).value; Inv(s) && LogInv(s)
  {
    RunKeepsInv(INITIAL, actions);
    RunKeepsLogs(INITIAL, actions);
  }

  lemma RejectedComesFirst(sent: seq<Message>)
    requires Finished(sent) && FinalOutcome(sent[|sent| - 1]) == Outcome.Failed(Rejected)
    ensures sent == [Message.Failed(Rejected)]
  {
    assert sent == sent[..|sent| - 1] + [sent[|sent| - 1]];
  }

  // ----- main results -----

  /**
   A caller that learns Rejected learns it from a callee that never sent Accepted, or anything else,
   although the caller's own table would also take that message after Accepted.
   */
  lemma RejectedMeansNeverAccepted(actions: seq<Action>)
    requires Run(INITIAL, actions).Some?
    ensures var s := Run(INITIAL, actions).value;
            s.caller == Returned(Ok(Outcome.Failed(Rejected))) ==> s.calleeSent == [Message.Failed(Rejected)]
    ensures CallerStep(CallerState.Working, Recv(Message.Failed(Rejected))).Ok?
  {
    ReachableLogs(actions);
    var s := Run(INITIAL, actions).value;
    if s.caller == Returned(Ok(Outcome.Failed(Rejected))) {
      assert s.callee == Returned(Ok(Outcome.Failed(Rejected)));
      RejectedComesFirst(s.calleeSent);
    }
  }

  /** One request for input is open exactly while the callee waits for it, and none in its other states. */
  lemma InputRoundsBalance(actions: seq<Action>)
    requires Run(INITIAL, actions).Some?
    ensures var s := Run(INITIAL, actions).value;
            s.callee.Running? ==>
              NeedInputs(s.calleeSent) == Inputs(s.calleeRead) + if s.callee.state == NeedInputSent then 1 else 0
  {
    ReachableLogs(actions);
  }

  lemma CancelOnce(state: CallerState, sent: seq<Message>)
    requires CallerLogFits(Running(state), sent) && !state.Terminal? && !state.Dialing?
    ensures CallerStep(state, Send(Cancel)).Ok? <==> Cancel !in sent
  {
    if state == Canceling {
      assert sent[|sent| - 1] == Cancel;
    } else {
      forall i | 0 <= i < |sent| ensures sent[i] != Cancel {
        if i == |sent| - 1 {
          assert !sent[|sent| - 1].Cancel?;
        }
      }
    }
  }

  /** The caller's driver may cancel whenever it has not done so before: its Cancel is never illegal. */
  lemma FirstCancelIsLegal(actions: seq<Action>)
    requires Run(INITIAL, actions).Some?
    ensures var s := Run(INITIAL, actions).value;
            s.caller.Running? ==>
              (CallerStep(s.caller.state, Send(Cancel)).Ok? <==> Cancel !in s.callerSent)
  {
    ReachableLogs(actions);
    var s := Run(INITIAL, actions).value;
    if s.caller.Running? {
      CancelOnce(s.caller.state, s.callerSent);
    }
  }

  /** What the caller reads is what the callee sent, in order, with nothing lost while it still runs. */
  lemma NothingLostOrReordered(actions: seq<Action>)
    requires Run(INITIAL, actions).Some?
    ensures var s := Run(INITIAL, actions).value;
            && s.callerRead <= s.calleeSent
            && (s.caller.Running? ==> s.calleeSent == s.callerRead + s.toCaller)
            && (s.callee.Running? ==> s.callerSent != [] && s.callerSent[1..] == s.calleeRead + s.toCallee)
  {
    ReachableLogs(actions);
  }

  // ----- the language is exact -----

  ghost predicate Reached(s: System) {
    exists actions :: Run(INITIAL, actions) == Some(s)
  }

  lemma {:induction false} RunAppend(s: System, actions: seq<Action>, a: Action)
    requires Run(s, actions).Some?
    ensures Run(s, actions + [a]) == Next(Run(s, actions).value, a)
    decreases |actions|
  {
    if actions == [] {
      assert actions + [a] == [a] && [a][1..] == [];
    } else {
      assert (actions + [a])[1..] == actions[1..] + [a];
      RunAppend(Next(s, actions[0]).value, actions[1..], a);
    }
  }

  lemma ReachedNext(s: System, a: Action) returns (next: System)
    requires Reached(s) && Next(s, a).Some?
    ensures next == Next(s, a).value && Reached(next)
  {
    next := Next(s, a).value;
    var actions :| Run(INITIAL, actions) == Some(s);
    RunAppend(INITIAL, actions, a);
    assert Run(INITIAL, actions + [a]) == Some(next);
  }

  /** Both sides at work, nothing in flight. */
  predicate Quiet(s: System, sent: seq<Message>) {
    && s.caller == Running(CallerState.Working) && s.callee == Running(CalleeState.Working)
    && s.toCaller == [] && s.toCallee == [] && s.calleeSent == sent
  }

  /** Call offered and not answered yet, nothing in flight. */
  predicate Fresh(s: System) {
    && s.caller == Running(Submitted) && s.callee == Running(Offered)
    && s.toCaller == [] && s.toCallee == [] && s.calleeSent == []
  }

  lemma OfferedHappens() returns (s: System)
    ensures Reached(s) && Fresh(s)
  {
    assert Run(INITIAL, []) == Some(INITIAL);
    s := ReachedNext(INITIAL, PlaceCall(Submit(0, 0, [], None, [])));
    s := ReachedNext(s, AnswerCall);
  }

  /** The callee sends `m` to a caller that is still there, and the caller reads it at once. */
  lemma SaidAndRead(s: System, m: Message) returns (next: System)
    requires Reached(s) && s.caller.Running? && s.callee.Running? && s.toCaller == []
    requires CalleeStep(s.callee.state, Send(m)).Ok? && CallerStep(s.caller.state, Recv(m)).Ok?
    ensures Reached(next) && next.toCaller == [] && next.toCallee == s.toCallee
    ensures next.calleeSent == s.calleeSent + [m]
    ensures next.callee == CalleeSettles(CalleeStep(s.callee.state, Send(m)).value.state)
    ensures next.caller == CallerSettles(CallerStep(s.caller.state, Recv(m)).value.state)
  {
    next := ReachedNext(s, CalleeActs(CalleeWake.Handler(m, true)));
    assert next.toCaller == [m];
    next := ReachedNext(next, CallerActs(CallerWake.Inbox(m)));
  }

  /** The caller sends `m`, and the callee reads it at once. */
  lemma AskedAndRead(s: System, m: Message) returns (next: System)
    requires Reached(s) && s.caller.Running? && s.callee.Running? && s.toCallee == []
    requires CallerStep(s.caller.state, Send(m)).Ok? && !CallerStep(s.caller.state, Send(m)).value.state.Terminal?
    requires CalleeStep(s.callee.state, Recv(m)).Ok?
    ensures Reached(next)
    ensures var step := CalleeStep(s.callee.state, Recv(m)).value;
            var out := if step.emit.Some? then [step.emit.value] else [];
            && next.toCallee == [] && next.toCaller == s.toCaller + out
            && next.calleeSent == s.calleeSent + out && next.callee == CalleeSettles(step.state)
            && next.caller == Running(CallerStep(s.caller.state, Send(m)).value.state)
  {
    next := ReachedNext(s, CallerActs(Request(m)));
    assert next.toCallee == [m];
    next := ReachedNext(next, CalleeActs(CalleeWake.Inbox(m)));
  }

  lemma Continues(s: System, before: seq<Message>, m: Message) returns (next: System)
    requires Reached(s) && Quiet(s, before) && (m.Progress? || m.NeedInput?)
    ensures Reached(next) && Quiet(next, before + [m])
  {
    next := SaidAndRead(s, m);
    if m.NeedInput? {
      next := AskedAndRead(next, Input([]));
      assert next.calleeSent == before + [m];
    }
  }

  lemma Accepts(s: System) returns (next: System)
    requires Reached(s) && Fresh(s)
    ensures Reached(next) && Quiet(next, [Accepted])
  {
    next := SaidAndRead(s, Accepted);
  }

  lemma Refuses(s: System, m: Message) returns (next: System)
    requires Reached(s) && Fresh(s) && IsFinal(m) && !m.Completed?
    ensures Reached(next) && next.calleeSent == [m]
  {
    if m.Canceled? {
      next := AskedAndRead(s, Cancel);
    } else {
      next := SaidAndRead(s, m);
    }
  }

  lemma Concludes(s: System, before: seq<Message>, m: Message) returns (next: System)
    requires Reached(s) && Quiet(s, before) && IsFinal(m) && m != Message.Failed(Rejected)
    ensures Reached(next) && next.calleeSent == before + [m]
  {
    if m.Canceled? {
      next := AskedAndRead(s, Cancel);
    } else {
      next := SaidAndRead(s, m);
    }
  }

  lemma {:induction false} OngoingHappens(sent: seq<Message>) returns (s: System)
    requires Ongoing(sent)
    ensures Reached(s) && Quiet(s, sent)
    decreases |sent|
  {
    var n := |sent| - 1;
    var m := sent[n];
    assert sent == sent[..n] + [m];
    if n == 0 {
      s := OfferedHappens();
      s := Accepts(s);
    } else {
      s := OngoingHappens(sent[..n]);
      s := Continues(s, sent[..n], m);
    }
  }

  lemma FinishedHappens(sent: seq<Message>) returns (s: System)
    requires Finished(sent)
    ensures Reached(s) && s.calleeSent == sent
  {
    var n := |sent| - 1;
    var m := sent[n];
    assert sent == sent[..n] + [m];
    if n == 0 {
      s := OfferedHappens();
      s := Refuses(s, m);
    } else {
      s := OngoingHappens(sent[..n]);
      s := Concludes(s, sent[..n], m);
    }
  }

  /**
   The callee's side of every run, no matter how cancels, answers, timers and lost callers interleave,
   is a conversation: at most one final message, always the last, Completed only after Accepted and
   Rejected only before it. And every conversation is the callee's side of some run.
   */
  lemma CalleeSendsExactlyConversations(sent: seq<Message>)
    ensures (exists s :: Reached(s) && s.calleeSent == sent) <==> Conversation(sent)
  {
    forall s | Reached(s) && s.calleeSent == sent ensures Conversation(sent) {
      var actions :| Run(INITIAL, actions) == Some(s);
      ReachableLogs(actions);
    }
    if Conversation(sent) {
      var s;
      if sent == [] {
        s := OfferedHappens();
      } else if Ongoing(sent) {
        s := OngoingHappens(sent);
      } else {
        s := FinishedHappens(sent);
      }
      assert Reached(s) && s.calleeSent == sent;
    }
  }
}
