/** The callee on a QUIC connection: every way out of an incoming call, and the audit record it leaves. */
module QuicCallee {
  import opened Bytes
  import opened WireTypes
  import opened CallErrors
  import opened ChannelCall
  import opened SpentSet
  import opened TokenPolicy
  import opened SubmitPaths
  import opened CallRecords
  import opened MessageHeader
  import opened QuicHandler
  import opened Timing
  import FrameCodec = Codec

  // ----- what the network does -----

  datatype Accepting = StreamAccepted | AcceptFailed | AcceptTimedOut

  /** The select that waits for the first frame. */
  datatype FirstArm =
    | ShutdownFirst
    | ClosedFirst
    | FrameArrived(frame: seq<byte>)
    | FrameFailed(e: FrameIoError)
    | FrameTimedOut

  datatype Network = Network(accepting: Accepting, first: FirstArm, call: HandlerNetwork)

  // ----- the call after admission -----

  method HandleAuthorized(behavior: CalleeBehavior, net: HandlerNetwork, submit: AuthorizedSubmit,
                          record: CallRecordGuard)
    returns (r: Result<Outcome, CallError>, at: nat)
    requires submit.message.Submit?
    modifies record`task
    ensures record.task == Some(submit.message.task)
    ensures LoopEnd(at, r) == Answered(behavior, submit.message.deadline, net)
  {
    record.SetTask(submit.message.task);
    var deadline := submit.message.deadline;
    var budget := CallerBudget(deadline);
    var state;
    state, at := EmitOpening(behavior, budget, net.openingWrites);
    if state.Err? {
      return Err(state.error), at;
    }
    r, at := WaitTerminal(state.value, at, CalleeBudget(deadline), budget, behavior == SilentHang, net.script);
    if r.Ok? {
      at := LastWait(at, net);
    }
  }

  // ----- the whole incoming call and its record -----

  function DenialReason(e: AdmitError): string {
    match e
    case Refused(Denied(_)) => "submit denied by allowlist"
    case Refused(TokenUnauthorized) => "biscuit token unauthorized"
    case Refused(NotSubmit) => "not a Submit message"
    case Refused(NotHeaderOnly) => "Submit already has a body; verify requires header-only"
    case BadFrame(_) => ""
  }

  /** How the call ended and what the record then says of it. */
  datatype CallEnd = CallEnd(
    result: Result<Outcome, CallError>, task: Option<TaskId>, authorization: AuthOutcome, live: Entries)

  /** From the first frame on. */
  function LoopCall(rules: Rules, live: Entries, peer: NodeId, now: SystemTime, behavior: CalleeBehavior,
                    net: Network): CallEnd
  {
    var open := AuthOutcome.Allowed(Allowlist);
    match net.first
    case ShutdownFirst => CallEnd(Err(Cancelled), None, open, live)
    case ClosedFirst => CallEnd(Ok(PeerLost), None, open, live)
    case FrameFailed(e) => CallEnd(Err(Frame(e)), None, open, live)
    case FrameTimedOut => CallEnd(Ok(Closed(CloseCode.Timeout)), None, open, live)
    case FrameArrived(frame) =>
      var (admitted, live') := SplitAdmitted(frame, rules, live, peer, now);
      match admitted
      case Err(BadFrame(e)) => CallEnd(Err(Frame(Codec(e))), None, open, live')
      case Err(e) => CallEnd(Err(NotAuthorized), None, AuthOutcome.Denied(DenialReason(e)), live')
      case Ok(submit) =>
        if submit.message.Submit? then
          CallEnd(Handled(behavior, submit.message.deadline, net.call).result, Some(submit.message.task),
                  AuthOutcome.Allowed(submit.rule), live')
        else CallEnd(Err(IllegalTransition), None, open, live')
  }

  /** An admitted frame holds a Submit, admitted under the rule its header's verdict names. */
  lemma AdmittedIsSubmit(frame: seq<byte>, rules: Rules, live: Entries, peer: NodeId, now: SystemTime)
    ensures var admitted := SplitAdmitted(frame, rules, live, peer, now).0;
            admitted.Ok? ==>
              && FrameCodec.DecodeParts(frame).Ok?
              && (var header := FrameCodec.DecodeParts(frame).value.0;
                  && header.Submit? && admitted.value.message.Submit? && SetBody(admitted.value.message, []) == header
                  && Verdict(rules, live, header, peer, now).0 == Ok(admitted.value.rule))
  {}

  lemma AdmittedHasTask(frame: seq<byte>, rules: Rules, live: Entries, peer: NodeId, now: SystemTime)
    ensures var admitted := SplitAdmitted(frame, rules, live, peer, now).0;
            admitted.Ok? ==> admitted.value.message.Submit?
  {
    AdmittedIsSubmit(frame, rules, live, peer, now);
  }

  method CalleeLoop(policy: Policy, peer: NodeId, now: SystemTime, behavior: CalleeBehavior, net: Network,
                    record: CallRecordGuard)
    returns (r: Result<Outcome, CallError>)
    requires record.task == None && record.authorization == AuthOutcome.Allowed(Allowlist)
    modifies record`task, record`authorization, policy.spent
    ensures var end := LoopCall(policy.rules, old(policy.spent.inner), peer, now, behavior, net);
            && r == end.result && record.task == end.task && record.authorization == end.authorization
            && policy.spent.inner == end.live
  {
    match net.first {
      case ShutdownFirst => return Err(Cancelled);
      case ClosedFirst => return Ok(PeerLost);
      case FrameFailed(e) => return Err(Frame(e));
      case FrameTimedOut => return Ok(Closed(CloseCode.Timeout));
      case FrameArrived(frame) =>
        AdmittedHasTask(frame, policy.rules, policy.spent.inner, peer, now);
        var admitted := AdmitFrame(frame, policy, peer, now);
        if admitted.Err? {
          if admitted.error.BadFrame? {
            return Err(Frame(Codec(admitted.error.codec)));
          }
          record.SetAuthorization(AuthOutcome.Denied(DenialReason(admitted.error)));
          return Err(NotAuthorized);
        }
        record.SetAuthorization(AuthOutcome.Allowed(admitted.value.rule));
        var at;
        r, at := HandleAuthorized(behavior, net.call, admitted.value, record);
    }
  }

  /** The connection gate: on the allowlist, or tokens are in use at all. */
  predicate PassesGate(rules: Rules, peer: NodeId) {
    peer in rules.allowlist || rules.hasRoots
  }

  function IncomingCall(rules: Rules, live: Entries, peer: NodeId, now: SystemTime, behavior: CalleeBehavior,
                        net: Network): CallEnd
  {
    if !PassesGate(rules, peer) then
      CallEnd(Err(NotAuthorized), None, AuthOutcome.Denied("not on allowlist"), live)
    else if !net.accepting.StreamAccepted? then
      CallEnd(Err(StreamSetup), None, AuthOutcome.Allowed(Allowlist), live)
    else LoopCall(rules, live, peer, now, behavior, net)
  }

  /** The one record an incoming call leaves; a peer stopped at the gate is recorded as closed normally. */
  function CalleeRecord(rules: Rules, live: Entries, peer: NodeId, now: SystemTime, behavior: CalleeBehavior,
                        net: Network): CallRecord
  {
    var end := IncomingCall(rules, live, peer, now, behavior, net);
    CallRecord(end.task, Inbound, peer, end.authorization,
               if PassesGate(rules, peer) then ResultOutcome(end.result) else Closed(Normal))
  }

  method RunCallee(policy: Policy, peer: NodeId, now: SystemTime, behavior: CalleeBehavior, net: Network,
                   sink: RecordSink)
    returns (r: Result<Outcome, CallError>)
    modifies sink, policy.spent
    ensures var live := old(policy.spent.inner);
            var end := IncomingCall(policy.rules, live, peer, now, behavior, net);
            && r == end.result && policy.spent.inner == end.live
            && sink.records == old(sink.records) + [CalleeRecord(policy.rules, live, peer, now, behavior, net)]
  {
    var record := new CallRecordGuard(sink, Inbound, peer, AuthOutcome.Allowed(Allowlist));
    if !PassesGate(policy.rules, peer) {
      record.SetAuthorization(AuthOutcome.Denied("not on allowlist"));
      record.SetOutcome(Closed(Normal));
      r := Err(NotAuthorized);
    } else if !net.accepting.StreamAccepted? {
      record.SetOutcome(OutcomeFromCallError(StreamSetup));
      r := Err(StreamSetup);
    } else {
      r := CalleeLoop(policy, peer, now, behavior, net, record);
      record.ObserveResult(r);
    }
    record.Drop();
  }

  // ----- the shape of the record -----

  /** The call got as far as a first frame. */
  predicate Reached(rules: Rules, peer: NodeId, net: Network) {
    PassesGate(rules, peer) && net.accepting.StreamAccepted? && net.first.FrameArrived?
  }

  lemma LoopRecordShape(rules: Rules, live: Entries, peer: NodeId, now: SystemTime, behavior: CalleeBehavior,
                        net: Network)
    ensures var end := LoopCall(rules, live, peer, now, behavior, net);
            var admitted :=
              if net.first.FrameArrived? then Some(SplitAdmitted(net.first.frame, rules, live, peer, now).0) else None;
            && end.authorization != NotReached
            && (end.task.Some? <==> admitted.Some? && admitted.value.Ok?)
            && (end.task.Some? ==>
                  && end.task == Some(admitted.value.value.message.task)
                  && end.authorization == AuthOutcome.Allowed(admitted.value.value.rule))
            && (end.authorization.Denied? <==> admitted.Some? && admitted.value.Err? && admitted.value.error.Refused?)
  {
    if net.first.FrameArrived? {
      AdmittedIsSubmit(net.first.frame, rules, live, peer, now);
    }
  }

  /**
   Audit shape of an incoming call. The record has a task id exactly when a first frame arrived and
   was admitted; it is then the Submit's own id, under the rule the policy returned for that header.
   A denied record has no task, and is written exactly for a peer stopped at the gate or a header
   that was refused.
   */
  lemma InboundRecordShape(rules: Rules, live: Entries, peer: NodeId, now: SystemTime, behavior: CalleeBehavior,
                           net: Network)
    ensures var record := CalleeRecord(rules, live, peer, now, behavior, net);
            var reached := Reached(rules, peer, net);
            && record.direction == Inbound && record.peer == peer && record.authorization != NotReached
            && (record.task.Some? <==> reached && SplitAdmitted(net.first.frame, rules, live, peer, now).0.Ok?)
            && (record.task.Some? ==>
                  && FrameCodec.DecodeParts(net.first.frame).Ok?
                  && (var header := FrameCodec.DecodeParts(net.first.frame).value.0;
                      && header.Submit? && record.task == Some(header.task)
                      && record.authorization.Allowed?
                      && Verdict(rules, live, header, peer, now).0 == Ok(record.authorization.rule)))
            && (record.authorization.Denied? ==> record.task == None)
            && (record.authorization.Denied? <==>
                  || !PassesGate(rules, peer)
                  || (reached && (var admitted := SplitAdmitted(net.first.frame, rules, live, peer, now).0;
                                  admitted.Err? && admitted.error.Refused?)))
  {
    if net.first.FrameArrived? {
      AdmittedIsSubmit(net.first.frame, rules, live, peer, now);
    }
    LoopRecordShape(rules, live, peer, now, behavior, net);
  }

  /** The call that follows when the first frame is admitted. */
  function FrameHandled(behavior: CalleeBehavior, net: Network): LoopEnd {
    if net.first.FrameArrived? && FrameCodec.DecodeParts(net.first.frame).Ok?
       && FrameCodec.DecodeParts(net.first.frame).value.0.Submit? then
      Handled(behavior, FrameCodec.DecodeParts(net.first.frame).value.0.deadline, net.call)
    else LoopEnd(0, Err(IllegalTransition))
  }

  lemma FirstFrameOutcome(frame: seq<byte>, rules: Rules, live: Entries, peer: NodeId, now: SystemTime,
                          behavior: CalleeBehavior, net: Network)
    requires net.first == FrameArrived(frame)
    ensures var end := LoopCall(rules, live, peer, now, behavior, net);
            var o := ResultOutcome(end.result);
            && (end.task.Some? ==> end.result == FrameHandled(behavior, net).result)
            && (end.task.None? ==>
                  || o.Failed? || o == PeerLost
                  || (o.Closed? && o != Closed(Normal) && o != Closed(CloseCode.Timeout)))
            && (end.task.None? ==> (o.Failed? <==> end.authorization.Denied?))
  {
    AdmittedIsSubmit(frame, rules, live, peer, now);
    var admitted := SplitAdmitted(frame, rules, live, peer, now).0;
    if admitted.Err? && admitted.error.BadFrame? {
      ErrorOutcomesExplained(Frame(Codec(admitted.error.codec)));
    }
  }

  lemma LoopOutcome(rules: Rules, live: Entries, peer: NodeId, now: SystemTime, behavior: CalleeBehavior, net: Network)
    ensures var end := LoopCall(rules, live, peer, now, behavior, net);
            var o := ResultOutcome(end.result);
            && (end.task.Some? ==> net.first.FrameArrived? && end.result == FrameHandled(behavior, net).result)
            && (end.task.None? ==>
                  && !o.Completed? && o != Closed(Normal)
                  && (o == Outcome.Canceled <==> net.first.ShutdownFirst?)
                  && (o.Failed? <==> end.authorization.Denied?)
                  && (o == Closed(CloseCode.Timeout) <==> net.first.FrameTimedOut?))
  {
    match net.first {
      case FrameArrived(frame) => FirstFrameOutcome(frame, rules, live, peer, now, behavior, net);
      case FrameFailed(e) => ErrorOutcomesExplained(Frame(e));
      case _ =>
    }
  }

  /**
   The outcome recorded for every way out: without a task it names the step that failed, and with
   one it is the outcome of the call itself.
   */
  lemma InboundOutcome(rules: Rules, live: Entries, peer: NodeId, now: SystemTime, behavior: CalleeBehavior,
                       net: Network)
    ensures var record := CalleeRecord(rules, live, peer, now, behavior, net);
            var open := PassesGate(rules, peer) && net.accepting.StreamAccepted?;
            && (record.task.Some? ==> record.outcome == ResultOutcome(FrameHandled(behavior, net).result))
            && (record.task.None? ==> !record.outcome.Completed?)
            && (!PassesGate(rules, peer) <==> record.task.None? && record.outcome == Closed(Normal))
            && (record.task.None? && record.outcome == Outcome.Canceled <==> open && net.first.ShutdownFirst?)
            && (record.task.None? && record.outcome.Failed? <==>
                  PassesGate(rules, peer) && record.authorization.Denied?)
            && (record.task.None? && record.outcome == Closed(CloseCode.Timeout) <==> open && net.first.FrameTimedOut?)
  {
    LoopOutcome(rules, live, peer, now, behavior, net);
    LoopRecordShape(rules, live, peer, now, behavior, net);
    if net.first.FrameFailed? {
      ErrorOutcomesExplained(Frame(net.first.e));
    }
  }

  /** What every call without a task returns, and the outcome its record names. */
  lemma FailedSteps(rules: Rules, live: Entries, peer: NodeId, now: SystemTime, behavior: CalleeBehavior, net: Network)
    ensures var r := IncomingCall(rules, live, peer, now, behavior, net).result;
            var record := CalleeRecord(rules, live, peer, now, behavior, net);
            if !PassesGate(rules, peer) then r == Err(NotAuthorized) && record.outcome == Closed(Normal)
            else if !net.accepting.StreamAccepted? then r == Err(StreamSetup) && record.outcome == PeerLost
            else
              match net.first
              case ShutdownFirst => r == Err(Cancelled) && record.outcome == Outcome.Canceled
              case ClosedFirst => r == Ok(PeerLost) && record.outcome == PeerLost
              case FrameFailed(e) => r == Err(Frame(e)) && record.outcome == OutcomeFromCallError(Frame(e))
              case FrameTimedOut =>
                r == Ok(Closed(CloseCode.Timeout)) && record.outcome == Closed(CloseCode.Timeout)
              case FrameArrived(frame) =>
                var header := FrameCodec.DecodeParts(frame);
                if header.Err? then
                  && r == Err(Frame(Codec(header.error)))
                  && record.outcome == OutcomeFromCallError(Frame(Codec(header.error)))
                else if record.task.None? then
                  r == Err(NotAuthorized) && record.outcome == Outcome.Failed(Unauthorized)
                else r == FrameHandled(behavior, net).result && record.outcome == ResultOutcome(r)
  {
    if net.first.FrameArrived? {
      FrameAdmittedExactly(net.first.frame, rules, live, peer, now);
      AdmittedIsSubmit(net.first.frame, rules, live, peer, now);
    }
  }

  /** An incoming call changes the spent set only by the verdict on the Submit its first frame carries. */
  lemma SpentSetExactly(rules: Rules, live: Entries, peer: NodeId, now: SystemTime, behavior: CalleeBehavior,
                        net: Network)
    ensures var header := if net.first.FrameArrived? then FrameCodec.DecodeParts(net.first.frame) else Err(Truncated);
            IncomingCall(rules, live, peer, now, behavior, net).live ==
            if Reached(rules, peer, net) && header.Ok? && header.value.0.Submit? then
              Verdict(rules, live, header.value.0, peer, now).1
            else live
  {
    if net.first.FrameArrived? {
      FrameAdmittedExactly(net.first.frame, rules, live, peer, now);
      AdmittedHasTask(net.first.frame, rules, live, peer, now);
    }
  }

  /** The authorization that a frame with a readable header leaves, with the reason of a denial. */
  lemma ReasonOfFrame(frame: seq<byte>, rules: Rules, live: Entries, peer: NodeId, now: SystemTime,
                      behavior: CalleeBehavior, net: Network)
    requires net.first == FrameArrived(frame) && FrameCodec.DecodeParts(frame).Ok?
    ensures var header := FrameCodec.DecodeParts(frame).value.0;
            var authorization := LoopCall(rules, live, peer, now, behavior, net).authorization;
            if !header.Submit? then authorization == AuthOutcome.Denied("not a Submit message")
            else if peer in rules.allowlist then authorization == AuthOutcome.Allowed(Allowlist)
            else if header.credential.None? then authorization == AuthOutcome.Denied("submit denied by allowlist")
            else
              || (authorization.Allowed? && authorization.rule.Token?)
              || authorization == AuthOutcome.Denied("biscuit token unauthorized")
  {
    FrameAdmittedExactly(frame, rules, live, peer, now);
    AdmittedIsSubmit(frame, rules, live, peer, now);
    if FrameCodec.DecodeParts(frame).value.0.Submit? {
      VerdictExactly(rules, live, FrameCodec.DecodeParts(frame).value.0, peer, now);
    }
  }

  /** Why a denied record says it was denied; before a header was read, only the gate denies. */
  lemma ReasonsExactly(rules: Rules, live: Entries, peer: NodeId, now: SystemTime, behavior: CalleeBehavior,
                       net: Network)
    ensures var authorization := CalleeRecord(rules, live, peer, now, behavior, net).authorization;
            if !PassesGate(rules, peer) then authorization == AuthOutcome.Denied("not on allowlist")
            else if !Reached(rules, peer, net) || FrameCodec.DecodeParts(net.first.frame).Err? then
              authorization == AuthOutcome.Allowed(Allowlist)
            else authorization == LoopCall(rules, live, peer, now, behavior, net).authorization
  {}

  /**
   Before a Submit is admitted the record's authorization is only a default. It names the allowlist for
   a peer that is not on it exactly when tokens are in use and the call ends before a header was read.
   */
  lemma DefaultAuthorization(rules: Rules, live: Entries, peer: NodeId, now: SystemTime, behavior: CalleeBehavior,
                             net: Network)
    ensures var record := CalleeRecord(rules, live, peer, now, behavior, net);
            && (record.authorization == AuthOutcome.Allowed(Allowlist) && peer !in rules.allowlist <==>
                  && peer !in rules.allowlist && rules.hasRoots
                  && (|| !net.accepting.StreamAccepted? || !net.first.FrameArrived?
                      || FrameCodec.DecodeParts(net.first.frame).Err?))
            && (record.task == None && !record.authorization.Denied? ==>
                  record.authorization == AuthOutcome.Allowed(Allowlist) && PassesGate(rules, peer))
  {
    if net.first.FrameArrived? {
      AdmittedIsSubmit(net.first.frame, rules, live, peer, now);
      HeaderNeedsVerdict(net.first.frame, rules, live, peer, now);
    }
  }

  /** A frame whose header was read is admitted by a verdict on that header or refused; without one it is neither. */
  lemma HeaderNeedsVerdict(frame: seq<byte>, rules: Rules, live: Entries, peer: NodeId, now: SystemTime)
    ensures var admitted := SplitAdmitted(frame, rules, live, peer, now).0;
            && (FrameCodec.DecodeParts(frame).Err? <==> admitted.Err? && admitted.error.BadFrame?)
            && (admitted.Ok? && admitted.value.rule == Allowlist ==> peer in rules.allowlist)
  {
    AdmittedIsSubmit(frame, rules, live, peer, now);
    if FrameCodec.DecodeParts(frame).Ok? && FrameCodec.DecodeParts(frame).value.0.Submit? {
      VerdictExactly(rules, live, FrameCodec.DecodeParts(frame).value.0, peer, now);
    }
  }
}
