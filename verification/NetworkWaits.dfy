/** What both QUIC drivers wait for: writes under a budget, and selects that take the earliest ready arm. */
module NetworkWaits {
  import opened Bytes
  import opened CallErrors

  /** A write: how long the transport would take, and how it would end. */
  datatype Writing = Writing(takes: nat, result: Result<(), FrameIoError>)

  /** A write under a budget: when it is over, counted from its start, and how it ended. */
  function AwaitWrite(budget: nat, w: Writing): (nat, Result<(), CallError>) {
    if w.takes > budget then (budget, Err(NetworkTimeout))
    else (w.takes, match w.result case Ok(_) => Ok(()) case Err(e) => Err(CallError.Frame(e)))
  }

  function Later(a: nat, b: nat): nat {
    if a > b then a else b
  }

  /** The earlier of two arms; the first one when both are ready at once. */
  function First<A>(a: (nat, A), b: (nat, A)): (nat, A) {
    if b.0 < a.0 then b else a
  }

  predicate Ready(at: Option<nat>, limit: nat) {
    at.Some? && at.value <= limit
  }
}
