/**
 The composed call with a clock. Each driver polls its timer first, a due timer fires at once, and
 two bounds limit how long the Submit and the callee's final message may stay unread. The
 deadline's asymmetry is what makes the callee, not the caller, end a late call.
 */
module TimedCall {
  import opened Bytes
  import opened WireTypes
  import opened CallState
  import opened ChannelCall
  import opened CallSafety
  import opened Timing

  /** Longest time from sending to reading, for the two messages that matter. */
  datatype Transit = Transit(submit: nat, final: nat)

  datatype Timed = Timed(
    sys: System, deadline: Deadline, now: nat,
    submittedAt: nat, answeredAt: nat, callerEndedAt: nat, calleeEndedAt: nat)

  const START: Timed := Timed(INITIAL, 0, 0, 0, 0, 0, 0)

  datatype TimedAction = Act(action: Action) | Wait(ms: nat)

  function CallerDue(t: Timed): nat {
    t.submittedAt + CallerBudget(t.deadline)
  }

  function CalleeDue(t: Timed): nat {
    t.answeredAt + CalleeBudget(t.deadline)
  }

  /** The selects are biased: while a timer is due, no other arm of that side runs. */
  predicate MayAct(t: Timed, a: Action) {
    match a
    case PlaceCall(_) => true
    case AnswerCall => true
    case CallerActs(wake) => if wake.TimerFired? then t.now >= CallerDue(t) else t.now < CallerDue(t)
    case CalleeActs(wake) =>
      if wake.DeadlineFired? then t.now >= CalleeDue(t) else wake.Handler? || t.now < CalleeDue(t)
  }

  /** Time never passes a due timer, an overdue Submit, or an overdue final message. */
  predicate MayWait(limits: Transit, t: Timed, ms: nat) {
    var later := t.now + ms;
    && (t.sys.caller.Running? ==> later <= CallerDue(t))
    && (t.sys.callee.Running? ==> later <= CalleeDue(t))
    && (t.sys.callee.Idle? && !t.sys.caller.Idle? ==> later <= t.submittedAt + limits.submit)
    && (t.sys.callee.Returned? && t.sys.caller.Running? ==> later <= t.calleeEndedAt + limits.final)
  }

  function Stamped(t: Timed, a: Action, sys: System): Timed {
    t.(sys := sys,
       deadline := if a.PlaceCall? && a.submit.Submit? then a.submit.deadline else t.deadline,
       submittedAt := if a.PlaceCall? then t.now else t.submittedAt,
       answeredAt := if a.AnswerCall? then t.now else t.answeredAt,
       callerEndedAt := if sys.caller.Returned? && !t.sys.caller.Returned? then t.now else t.callerEndedAt,
       calleeEndedAt := if sys.callee.Returned? && !t.sys.callee.Returned? then t.now else t.calleeEndedAt)
  }

  function TimedNext(limits: Transit, t: Timed, a: TimedAction): Option<Timed> {
    match a
    case Wait(ms) => if MayWait(limits, t, ms) then Some(t.(now := t.now + ms)) else None
    case Act(action) =>
      if !MayAct(t, action) then None
      else
        match Next(t.sys, action)
        case None => None
        case Some(sys) => Some(Stamped(t, action, sys))
  }

  function TimedRun(limits: Transit, t: Timed, actions: seq<TimedAction>): Option<Timed>
    decreases |actions|
  {
    if actions == [] then Some(t)
    else
      match TimedNext(limits, t, actions[0])
      case None => None
      case Some(n) => TimedRun(limits, n, actions[1..])
  }

  // ----- a timed run is a run, with its times -----

  /**
   When a step may be taken. An arm may run when it can happen at all and no timer of its side is due first; only
   the handler's sends do not wait for the deadline. Time may pass up to the first moment that something is due.
   */
  lemma TimedStepsExactly(limits: Transit, t: Timed, a: TimedAction)
    ensures TimedNext(limits, t, a).Some? <==>
              match a
              case Wait(ms) =>
                && (t.sys.caller.Running? ==> t.now + ms <= t.submittedAt + t.deadline + 5_000)
                && (t.sys.callee.Running? ==> t.now + ms <= t.answeredAt + t.deadline)
                && (t.sys.callee.Idle? && !t.sys.caller.Idle? ==> t.now + ms <= t.submittedAt + limits.submit)
                && (t.sys.callee.Returned? && t.sys.caller.Running? ==> t.now + ms <= t.calleeEndedAt + limits.final)
              case Act(action) =>
                && Next(t.sys, action).Some?
                && (action.CallerActs? ==>
                      (action.callerWake.TimerFired? <==> t.now >= t.submittedAt + t.deadline + 5_000))
                && (action.CalleeActs? && !action.calleeWake.Handler? ==>
                      (action.calleeWake.DeadlineFired? <==> t.now >= t.answeredAt + t.deadline))
  {
    BudgetsDifferByGrace(t.deadline);
  }

  /** What the clock and the stamps say after a step: the moment of each change of phase, and nothing else. */
  lemma StampsExactly(limits: Transit, t: Timed, a: TimedAction)
    requires TimedNext(limits, t, a).Some?
    ensures var n := TimedNext(limits, t, a).value;
            var placed := t.sys.caller.Idle? && !n.sys.caller.Idle?;
            && n.now == t.now + (if a.Wait? then a.ms else 0)
            && n.sys == (if a.Wait? then t.sys else Next(t.sys, a.action).value)
            && n.submittedAt == (if placed then t.now else t.submittedAt)
            && n.deadline == (if placed then a.action.submit.deadline else t.deadline)
            && n.answeredAt == (if t.sys.callee.Idle? && !n.sys.callee.Idle? then t.now else t.answeredAt)
            && n.callerEndedAt ==
               (if n.sys.caller.Returned? && !t.sys.caller.Returned? then t.now else t.callerEndedAt)
            && n.calleeEndedAt ==
               (if n.sys.callee.Returned? && !t.sys.callee.Returned? then t.now else t.calleeEndedAt)
  {}

  /** Later steps leave the stamps alone. */
  lemma {:induction false} StampsStay(limits: Transit, t: Timed, actions: seq<TimedAction>)
    requires TimedRun(limits, t, actions).Some?
    ensures var end := TimedRun(limits, t, actions).value;
            && t.now <= end.now
            && (!t.sys.caller.Idle? ==> end.submittedAt == t.submittedAt && end.deadline == t.deadline)
            && (!t.sys.callee.Idle? ==> end.answeredAt == t.answeredAt)
            && (t.sys.caller.Returned? ==> end.callerEndedAt == t.callerEndedAt && end.sys.caller == t.sys.caller)
            && (t.sys.callee.Returned? ==> end.calleeEndedAt == t.calleeEndedAt && end.sys.callee == t.sys.callee)
    decreases |actions|
  {
    if actions != [] {
      StampsExactly(limits, t, actions[0]);
      StampsStay(limits, TimedNext(limits, t, actions[0]).value, actions[1..]);
    }
  }

  function Untimed(actions: seq<TimedAction>): seq<Action> {
    if actions == [] then []
    else (if actions[0].Act? then [actions[0].action] else []) + Untimed(actions[1..])
  }

  /** Without its waits, a timed run is a run of the composed system. */
  lemma {:induction false} TimedRunIsRun(limits: Transit, t: Timed, actions: seq<TimedAction>)
    requires TimedRun(limits, t, actions).Some?
    ensures Run(t.sys, Untimed(actions)) == Some(TimedRun(limits, t, actions).value.sys)
    decreases |actions|
  {
    if actions != [] {
      StampsExactly(limits, t, actions[0]);
      TimedRunIsRun(limits, TimedNext(limits, t, actions[0]).value, actions[1..]);
      if actions[0].Act? {
        assert Untimed(actions)[1..] == Untimed(actions[1..]);
      } else {
        assert Untimed(actions) == Untimed(actions[1..]);
      }
    }
  }

  // ----- the clock invariant -----

  predicate ClockInv(limits: Transit, t: Timed) {
    && Inv(t.sys)
    && (t.sys.caller.Running? ==> t.submittedAt <= t.now <= CallerDue(t))
    && (t.sys.caller.Returned? ==> t.submittedAt <= t.callerEndedAt <= CallerDue(t))
    && match t.sys.callee
       case Idle => t.sys.caller.Idle? || t.submittedAt <= t.now <= t.submittedAt + limits.submit
       case Running(_) =>
         && t.submittedAt <= t.answeredAt <= t.submittedAt + limits.submit
         && t.answeredAt <= t.now <= CalleeDue(t)
       case Returned(_) =>
         && t.submittedAt <= t.answeredAt <= t.submittedAt + limits.submit
         && t.answeredAt <= t.calleeEndedAt <= CalleeDue(t)
         && (t.sys.caller.Running? ==> t.now <= t.calleeEndedAt + limits.final)
  }

  lemma TimedNextKeepsInv(limits: Transit, t: Timed, a: TimedAction)
    requires ClockInv(limits, t) && TimedNext(limits, t, a).Some?
    ensures ClockInv(limits, TimedNext(limits, t, a).value)
  {
    match a {
      case Wait(_) =>
      case Act(action) => NextKeepsInv(t.sys, action);
    }
  }

  lemma {:induction false} TimedRunKeepsInv(limits: Transit, t: Timed, actions: seq<TimedAction>)
    requires ClockInv(limits, t) && TimedRun(limits, t, actions).Some?
    ensures ClockInv(limits, TimedRun(limits, t, actions).value)
    decreases |actions|
  {
    if actions != [] {
      TimedNextKeepsInv(limits, t, actions[0]);
      TimedRunKeepsInv(limits, TimedNext(limits, t, actions[0]).value, actions[1..]);
    }
  }

  // ----- main results -----

  const CALLER_TIMED_OUT: Side<CallerState> := Returned(Ok(Closed(CloseCode.Timeout)))

  lemma {:induction false} NoCallerTimeout(limits: Transit, t: Timed, actions: seq<TimedAction>)
    requires limits.submit + limits.final < GRACE_MS
    requires ClockInv(limits, t) && t.sys.caller != CALLER_TIMED_OUT && TimedRun(limits, t, actions).Some?
    ensures TimedRun(limits, t, actions).value.sys.caller != CALLER_TIMED_OUT
    decreases |actions|
  {
    if actions != [] {
      var next := TimedNext(limits, t, actions[0]).value;
      TimedNextKeepsInv(limits, t, actions[0]);
      BudgetsDifferByGrace(t.deadline);
      if actions[0].Act? {
        NextKeepsInv(t.sys, actions[0].action);
      }
      NoCallerTimeout(limits, next, actions[1..]);
    }
  }

  // A run in which Submit and the callee's last message together use up the whole grace.

  function LateOffer(deadline: Deadline, transit: nat): seq<TimedAction> {
    [Act(PlaceCall(Submit(0, deadline, [], None, []))), Wait(transit), Act(AnswerCall)]
  }

  function LateFailure(deadline: Deadline, transit: nat): seq<TimedAction> {
    [Wait(deadline), Act(CalleeActs(DeadlineFired)), Wait(transit), Act(CallerActs(CallerWake.TimerFired))]
  }

  function Offered(deadline: Deadline, transit: nat): Timed {
    var submit := Submit(0, deadline, [], None, []);
    var sys := INITIAL.(caller := Running(Submitted), callee := Running(CalleeState.Offered), callerSent := [submit]);
    START.(sys := sys, deadline := deadline, now := transit, answeredAt := transit)
  }

  lemma {:induction false} TimedRunAppend(limits: Transit, t: Timed, a: seq<TimedAction>, b: seq<TimedAction>)
    requires TimedRun(limits, t, a).Some?
    ensures TimedRun(limits, t, a + b) == TimedRun(limits, TimedRun(limits, t, a).value, b)
    decreases |a|
  {
    if a == [] {
      assert a + b == b;
    } else {
      assert (a + b)[1..] == a[1..] + b;
      TimedRunAppend(limits, TimedNext(limits, t, a[0]).value, a[1..], b);
    }
  }

  lemma LateOfferRuns(limits: Transit, deadline: Deadline, transit: nat)
    requires transit <= limits.submit && transit <= GRACE_MS
    ensures TimedRun(limits, START, LateOffer(deadline, transit)) == Some(Offered(deadline, transit))
  {
    var r := LateOffer(deadline, transit);
    var t1 := TimedNext(limits, START, r[0]).value;
    var t2 := TimedNext(limits, t1, r[1]).value;
    var submit := Submit(0, deadline, [], None, []);
    assert [submit][1..] == [];
    var t3 := TimedNext(limits, t2, r[2]);
    assert t3 == Some(Offered(deadline, transit));
    assert r[2..][1..] == [] && TimedRun(limits, t2, r[2..]) == t3;
    assert r[1..][1..] == r[2..] && TimedRun(limits, t1, r[1..]) == t3;
  }

  lemma LateFailureRuns(limits: Transit, deadline: Deadline, transit: nat)
    requires transit <= GRACE_MS && GRACE_MS - transit <= limits.final
    ensures var end := TimedRun(limits, Offered(deadline, transit), LateFailure(deadline, GRACE_MS - transit));
            end.Some? && end.value.sys.caller == CALLER_TIMED_OUT && end.value.deadline == deadline
  {
    var r := LateFailure(deadline, GRACE_MS - transit);
    var t0 := Offered(deadline, transit);
    var t1 := t0.(now := transit + deadline);
    assert TimedNext(limits, t0, r[0]) == Some(t1);
    var failed := Message.Failed(DeadlineExceeded);
    var t2 := t1.(sys := t1.sys.(callee := Returned(Ok(Outcome.Failed(DeadlineExceeded))),
                                 toCaller := [failed], calleeSent := [failed]),
                  calleeEndedAt := t1.now);
    assert [] + [failed] == [failed];
    assert TimedNext(limits, t1, r[1]) == Some(t2);
    var t3 := t2.(now := t2.now + (GRACE_MS - transit));
    assert TimedNext(limits, t2, r[2]) == Some(t3);
    var t4 := TimedNext(limits, t3, r[3]);
    assert t4.Some? && t4.value.sys.caller == CALLER_TIMED_OUT;
    assert r[3..][1..] == [] && TimedRun(limits, t3, r[3..]) == t4;
    assert r[2..][1..] == r[3..] && TimedRun(limits, t2, r[2..]) == t4;
    assert r[1..][1..] == r[2..] && TimedRun(limits, t1, r[1..]) == t4;
  }

  /**
   The grace is exactly right. No run ends in the caller's timeout when the two transit times stay
   under the grace together; as soon as they may reach it, some run does, whatever the deadline.
   */
  lemma GraceIsExact(limits: Transit, deadline: Deadline)
    ensures limits.submit + limits.final < GRACE_MS <==>
            forall actions ::
              TimedRun(limits, START, actions).Some? && TimedRun(limits, START, actions).value.deadline == deadline ==>
                TimedRun(limits, START, actions).value.sys.caller != CALLER_TIMED_OUT
  {
    if limits.submit + limits.final < GRACE_MS {
      forall actions | TimedRun(limits, START, actions).Some?
        ensures TimedRun(limits, START, actions).value.sys.caller != CALLER_TIMED_OUT
      {
        NoCallerTimeout(limits, START, actions);
      }
    } else {
      var submitTransit := if limits.submit < GRACE_MS then limits.submit else GRACE_MS;
      LateOfferRuns(limits, deadline, submitTransit);
      LateFailureRuns(limits, deadline, submitTransit);
      TimedRunAppend(limits, START, LateOffer(deadline, submitTransit),
                     LateFailure(deadline, GRACE_MS - submitTransit));
    }
  }

  /** Within the grace both sides end alike, in every run in which both have ended. */
  lemma PromptCallsAgree(limits: Transit, actions: seq<TimedAction>)
    requires limits.submit + limits.final < GRACE_MS && TimedRun(limits, START, actions).Some?
    ensures var s := TimedRun(limits, START, actions).value.sys;
            s.caller.Returned? ==>
              s.caller.result.Ok? && FromMessage(s.caller.result.value) && s.callee == Returned(s.caller.result)
  {
    NoCallerTimeout(limits, START, actions);
    TimedRunKeepsInv(limits, START, actions);
  }

  /** Whatever the transit times, the callee ends by its deadline and the caller by the grace after its own. */
  lemma BothEndInTime(limits: Transit, actions: seq<TimedAction>)
    requires TimedRun(limits, START, actions).Some?
    ensures var t := TimedRun(limits, START, actions).value;
            && (t.sys.callee.Running? ==> t.now <= t.answeredAt + t.deadline)
            && (t.sys.callee.Returned? ==> t.calleeEndedAt <= t.answeredAt + t.deadline)
            && (t.sys.caller.Running? ==> t.now <= t.submittedAt + t.deadline + GRACE_MS)
            && (t.sys.caller.Returned? ==> t.callerEndedAt <= t.submittedAt + t.deadline + GRACE_MS)
            && t.deadline + GRACE_MS <= 605_000
  {
    TimedRunKeepsInv(limits, START, actions);
    BudgetsDifferByGrace(TimedRun(limits, START, actions).value.deadline);
  }

  // ----- the bounds are not met by getting stuck -----

  /** What happens without the help of a handler or a user: clocks, timers, and reading what has arrived. */
  predicate Unassisted(a: TimedAction) {
    match a
    case Wait(_) => true
    case Act(PlaceCall(_)) => false
    case Act(AnswerCall) => true
    case Act(CallerActs(wake)) => wake.TimerFired? || wake.Inbox?
    case Act(CalleeActs(wake)) => wake.DeadlineFired? || wake.Inbox?
  }

  predicate BothReturned(t: Timed) {
    t.sys.caller.Returned? && t.sys.callee.Returned?
  }

  /** `actions` is a way from `t` to an end of both sides, on clocks, timers and reads alone. */
  predicate EndsBoth(limits: Transit, t: Timed, actions: seq<TimedAction>) {
    && (forall i :: 0 <= i < |actions| ==> Unassisted(actions[i]))
    && TimedRun(limits, t, actions).Some? && BothReturned(TimedRun(limits, t, actions).value)
  }

  lemma OneMore(limits: Transit, t: Timed, a: TimedAction, rest: seq<TimedAction>)
    requires TimedNext(limits, t, a).Some? && Unassisted(a) && EndsBoth(limits, TimedNext(limits, t, a).value, rest)
    ensures EndsBoth(limits, t, [a] + rest)
  {
    assert ([a] + rest)[1..] == rest;
  }

  /** With the callee done, the caller times out or reads until the final message. */
  lemma {:induction false} CallerCanEnd(limits: Transit, t: Timed) returns (actions: seq<TimedAction>)
    requires ClockInv(limits, t) && t.sys.callee.Returned? && !t.sys.caller.Idle?
    ensures EndsBoth(limits, t, actions)
    decreases if t.sys.caller.Returned? then 0 else 1, |t.sys.toCaller|
  {
    if t.sys.caller.Returned? {
      return [];
    }
    var a: TimedAction;
    if t.now >= CallerDue(t) {
      a := Act(CallerActs(CallerWake.TimerFired));
    } else {
      HeadsAreLegal(t.sys);
      assert t.sys.toCaller != [];
      a := Act(CallerActs(CallerWake.Inbox(t.sys.toCaller[0])));
    }
    TimedNextKeepsInv(limits, t, a);
    var rest := CallerCanEnd(limits, TimedNext(limits, t, a).value);
    actions := [a] + rest;
    OneMore(limits, t, a, rest);
  }

  lemma WaitKeeps(limits: Transit, t: Timed, ms: nat)
    requires ClockInv(limits, t) && MayWait(limits, t, ms)
    ensures TimedNext(limits, t, Wait(ms)) == Some(t.(now := t.now + ms)) && ClockInv(limits, t.(now := t.now + ms))
  {
    TimedNextKeepsInv(limits, t, Wait(ms));
  }

  /** The callee's deadline comes, with the caller's timer on the way if that is due first. */
  lemma CalleeDeadlineCan(limits: Transit, t: Timed) returns (actions: seq<TimedAction>)
    requires ClockInv(limits, t) && t.sys.callee.Running? && !t.sys.caller.Idle?
    requires t.sys.caller.Running? ==> CalleeDue(t) <= CallerDue(t)
    ensures EndsBoth(limits, t, actions)
  {
    var ms := CalleeDue(t) - t.now;
    WaitKeeps(limits, t, ms);
    var due := t.(now := CalleeDue(t));
    var fire := Act(CalleeActs(DeadlineFired));
    TimedNextKeepsInv(limits, due, fire);
    var rest := CallerCanEnd(limits, TimedNext(limits, due, fire).value);
    OneMore(limits, due, fire, rest);
    OneMore(limits, t, Wait(ms), [fire] + rest);
    actions := [Wait(ms)] + ([fire] + rest);
  }

  lemma CalleeCanEnd(limits: Transit, t: Timed) returns (actions: seq<TimedAction>)
    requires ClockInv(limits, t) && t.sys.callee.Running? && !t.sys.caller.Idle?
    ensures EndsBoth(limits, t, actions)
  {
    if t.sys.caller.Running? && CallerDue(t) < CalleeDue(t) {
      var ms := CallerDue(t) - t.now;
      WaitKeeps(limits, t, ms);
      var due := t.(now := CallerDue(t));
      var fire := Act(CallerActs(CallerWake.TimerFired));
      TimedNextKeepsInv(limits, due, fire);
      var rest := CalleeDeadlineCan(limits, TimedNext(limits, due, fire).value);
      OneMore(limits, due, fire, rest);
      OneMore(limits, t, Wait(ms), [fire] + rest);
      actions := [Wait(ms)] + ([fire] + rest);
    } else {
      actions := CalleeDeadlineCan(limits, t);
    }
  }

  lemma PlacedCanEnd(limits: Transit, t: Timed) returns (actions: seq<TimedAction>)
    requires ClockInv(limits, t) && !t.sys.caller.Idle?
    ensures EndsBoth(limits, t, actions)
  {
    if t.sys.callee.Idle? {
      var answer := Act(AnswerCall);
      TimedNextKeepsInv(limits, t, answer);
      var rest := CalleeCanEnd(limits, TimedNext(limits, t, answer).value);
      OneMore(limits, t, answer, rest);
      actions := [answer] + rest;
    } else if t.sys.callee.Running? {
      actions := CalleeCanEnd(limits, t);
    } else {
      actions := CallerCanEnd(limits, t);
    }
  }

  /**
   No run is stuck short of its end. Before a call is placed, any call can be; and every state reachable
   after that, whatever the transit limits, goes on to one in which both sides have returned, on clocks,
   timers and reads alone.
   */
  lemma BothCanEnd(limits: Transit, actions: seq<TimedAction>)
    requires TimedRun(limits, START, actions).Some?
    ensures var t := TimedRun(limits, START, actions).value;
            if t.sys.caller.Idle? then forall m: Message :: m.Submit? ==> TimedNext(limits, t, Act(PlaceCall(m))).Some?
            else exists more :: EndsBoth(limits, t, more)
  {
    TimedRunKeepsInv(limits, START, actions);
    var t := TimedRun(limits, START, actions).value;
    if !t.sys.caller.Idle? {
      var more := PlacedCanEnd(limits, t);
    }
  }
}
