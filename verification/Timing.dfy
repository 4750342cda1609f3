/** The two call timers, in milliseconds. */
module Timing {
  import opened Bytes
  import opened WireTypes

  const GRACE_MS: nat := 5_000

  function SaturatingAdd64(a: nat, b: nat): nat {
    if a + b > U64_MAX then U64_MAX else a + b
  }

  /** From receipt of Submit. */
  function CalleeBudget(deadline: Deadline): nat {
    deadline
  }

  /** From sending Submit. */
  function CallerBudget(deadline: Deadline): nat {
    SaturatingAdd64(deadline, GRACE_MS)
  }

  /** The saturating addition never saturates, so the caller always allows exactly the grace more. */
  lemma BudgetsDifferByGrace(deadline: Deadline)
    ensures CallerBudget(deadline) == CalleeBudget(deadline) + GRACE_MS <= 605_000
    ensures CalleeBudget(deadline) == deadline && CallerBudget(deadline) == deadline + 5_000
  {}
}
