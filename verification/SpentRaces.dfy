/** Presentations that check and spend a one-shot token in separate critical sections, concurrently. */
module SpentRaces {
  import opened SpentSet

  // ----- checking and spending as separate steps of concurrent presentations -----

  /** One presentation of a one-shot token; its facts held at `now`. */
  datatype Presentation = Presentation(id: BiscuitId, expires: SystemTime, now: SystemTime)

  datatype Phase = New | Passed | Decided(admitted: bool)

  /** A step names a presentation by its index. */
  datatype Atomic = Check(k: nat) | Commit(k: nat)

  /** `seen` is what decides: the live entries here, every id ever spent in the ledger. */
  datatype World<S> = World(seen: S, phases: seq<Phase>)

  predicate WellNumbered(pres: seq<Presentation>, phases: seq<Phase>, steps: seq<Atomic>) {
    |phases| == |pres| && forall i :: 0 <= i < |steps| ==> steps[i].k < |pres|
  }

  /** One atomic step of the node: a membership check, or the spend of a presentation that passed it. */
  function StepNode(pres: seq<Presentation>, w: World<Entries>, a: Atomic): World<Entries>
    requires |w.phases| == |pres| && a.k < |pres|
  {
    var p := pres[a.k];
    var live := Evicted(w.seen, p.now);
    match (a, w.phases[a.k])
    case (Check(k), New) => World(live, w.phases[k := if p.id in live then Decided(false) else Passed])
    case (Commit(k), Passed) =>
      World(AfterSpend(w.seen, p.id, p.expires, p.now), w.phases[k := Decided(p.id !in live)])
    case _ => w
  }

  /** The same, without the membership check. */
  function StepUnchecked(pres: seq<Presentation>, w: World<Entries>, a: Atomic): World<Entries>
    requires |w.phases| == |pres| && a.k < |pres|
  {
    var p := pres[a.k];
    if a.Commit? && w.phases[a.k] == New then
      World(AfterSpend(w.seen, p.id, p.expires, p.now), w.phases[a.k := Decided(p.id !in Evicted(w.seen, p.now))])
    else w
  }

  /** The same, against a set that forgets nothing. */
  function StepLedger(pres: seq<Presentation>, w: World<set<BiscuitId>>, a: Atomic): World<set<BiscuitId>>
    requires |w.phases| == |pres| && a.k < |pres|
  {
    var p := pres[a.k];
    if a.Commit? && w.phases[a.k] == New then
      World(w.seen + {p.id}, w.phases[a.k := Decided(p.id !in w.seen)])
    else w
  }

  /**
   Each step in full: a check rejects at once exactly an id that is stored and not expired at its own clock, a
   commit admits exactly the others and stores them, and both throw out what has expired.
   */
  lemma NodeStepExactly(pres: seq<Presentation>, w: World<Entries>, a: Atomic)
    requires |w.phases| == |pres| && a.k < |pres|
    ensures var p := pres[a.k];
            var next := StepNode(pres, w, a);
            var live := p.id in w.seen && w.seen[p.id] > p.now;
            var acts := if a.Check? then w.phases[a.k] == New else w.phases[a.k] == Passed;
            && |next.phases| == |pres|
            && (forall k :: 0 <= k < |pres| && k != a.k ==> next.phases[k] == w.phases[k])
            && (!acts ==> next == w)
            && (acts && a.Check? ==> next.phases[a.k] == if live then Decided(false) else Passed)
            && (acts && a.Commit? ==> next.phases[a.k] == Decided(!live))
            && (acts ==> forall id :: id in next.seen <==>
                           (id in w.seen && w.seen[id] > p.now) || (a.Commit? && id == p.id))
            && (acts ==> forall id :: id in next.seen ==>
                           next.seen[id] == if a.Commit? && id == p.id && !live then p.expires else w.seen[id])
  {}

  function RunNode(pres: seq<Presentation>, w: World<Entries>, steps: seq<Atomic>): World<Entries>
    requires WellNumbered(pres, w.phases, steps)
    decreases |steps|
  {
    if steps == [] then w else RunNode(pres, StepNode(pres, w, steps[0]), steps[1..])
  }

  function RunUnchecked(pres: seq<Presentation>, w: World<Entries>, steps: seq<Atomic>): World<Entries>
    requires WellNumbered(pres, w.phases, steps)
    decreases |steps|
  {
    if steps == [] then w else RunUnchecked(pres, StepUnchecked(pres, w, steps[0]), steps[1..])
  }

  function RunLedger(pres: seq<Presentation>, w: World<set<BiscuitId>>, steps: seq<Atomic>): World<set<BiscuitId>>
    requires WellNumbered(pres, w.phases, steps)
    decreases |steps|
  {
    if steps == [] then w else RunLedger(pres, StepLedger(pres, w, steps[0]), steps[1..])
  }

  /** `horizon` is a time before which no presentation of the id expires, and each is made. */
  ghost predicate FactsHeld(horizon: BiscuitId -> SystemTime, pres: seq<Presentation>) {
    forall k :: 0 <= k < |pres| ==> pres[k].now < horizon(pres[k].id) <= pres[k].expires
  }

  function Max(a: SystemTime, b: SystemTime): SystemTime {
    if a > b then a else b
  }

  /** No step presents an id whose horizon an earlier step's clock has already reached; `high` is the latest so far. */
  predicate NeverLate(horizon: BiscuitId -> SystemTime, pres: seq<Presentation>, high: SystemTime, steps: seq<Atomic>)
    requires forall i :: 0 <= i < |steps| ==> steps[i].k < |pres|
    decreases |steps|
  {
    steps == [] ||
    (var p := pres[steps[0].k];
     high < horizon(p.id) && NeverLate(horizon, pres, Max(high, p.now), steps[1..]))
  }

  /** Clock readings never go backwards in the order of the steps. */
  predicate InLockOrder(pres: seq<Presentation>, clock: SystemTime, steps: seq<Atomic>)
    requires forall i :: 0 <= i < |steps| ==> steps[i].k < |pres|
    decreases |steps|
  {
    steps == [] || (clock <= pres[steps[0].k].now && InLockOrder(pres, pres[steps[0].k].now, steps[1..]))
  }

  lemma {:induction false} LockOrderIsNeverLate(horizon: BiscuitId -> SystemTime, pres: seq<Presentation>,
                                                clock: SystemTime, steps: seq<Atomic>)
    requires FactsHeld(horizon, pres) && forall i :: 0 <= i < |steps| ==> steps[i].k < |pres|
    requires InLockOrder(pres, clock, steps)
    ensures NeverLate(horizon, pres, clock, steps)
    decreases |steps|
  {
    if steps != [] {
      LockOrderIsNeverLate(horizon, pres, pres[steps[0].k].now, steps[1..]);
    }
  }

  /** Below its horizon, an id is live exactly when it was ever spent. */
  ghost predicate SeenAgree(horizon: BiscuitId -> SystemTime, clock: SystemTime, live: Entries, spent: set<BiscuitId>) {
    && (forall id :: id in live ==> live[id] >= horizon(id))
    && (forall id: BiscuitId :: horizon(id) > clock ==> (id in live <==> id in spent))
  }

  /** A check that passes is not yet a decision; one that fails anticipates the ledger's. */
  ghost predicate PhasesAgree(pres: seq<Presentation>, phases: seq<Phase>, spent: set<BiscuitId>, ledger: seq<Phase>) {
    && |phases| == |ledger| == |pres|
    && forall k :: 0 <= k < |pres| ==>
         match ledger[k]
         case New => phases[k] == New || phases[k] == Passed || (phases[k] == Decided(false) && pres[k].id in spent)
         case Decided(admitted) => phases[k] == Decided(admitted)
         case Passed => false
  }

  /** A presentation commits only after it has checked. */
  predicate ChecksFirst(checked: set<nat>, steps: seq<Atomic>)
    decreases |steps|
  {
    steps == [] ||
    match steps[0]
    case Check(k) => ChecksFirst(checked + {k}, steps[1..])
    case Commit(k) => k in checked && ChecksFirst(checked, steps[1..])
  }

  predicate CheckedAreNotNew(phases: seq<Phase>, checked: set<nat>) {
    forall k :: 0 <= k < |phases| && k in checked ==> phases[k] != New
  }

  lemma EvictionAgrees(horizon: BiscuitId -> SystemTime, high: SystemTime, live: Entries, spent: set<BiscuitId>,
                       now: SystemTime)
    requires SeenAgree(horizon, high, live, spent)
    ensures SeenAgree(horizon, Max(high, now), Evicted(live, now), spent)
  {}

  lemma NodeStepAgrees(horizon: BiscuitId -> SystemTime, pres: seq<Presentation>, w: World<Entries>,
                       l: World<set<BiscuitId>>, high: SystemTime, a: Atomic, checked: set<nat>)
    requires FactsHeld(horizon, pres) && a.k < |pres| && high < horizon(pres[a.k].id)
    requires SeenAgree(horizon, high, w.seen, l.seen) && PhasesAgree(pres, w.phases, l.seen, l.phases)
    requires CheckedAreNotNew(w.phases, checked) && (a.Commit? ==> a.k in checked)
    ensures var w' := StepNode(pres, w, a); var l' := StepLedger(pres, l, a);
            && SeenAgree(horizon, Max(high, pres[a.k].now), w'.seen, l'.seen)
            && PhasesAgree(pres, w'.phases, l'.seen, l'.phases)
            && CheckedAreNotNew(w'.phases, if a.Check? then checked + {a.k} else checked)
  {
    EvictionAgrees(horizon, high, w.seen, l.seen, pres[a.k].now);
  }

  lemma {:induction false} NodeFollowsLedger(horizon: BiscuitId -> SystemTime, pres: seq<Presentation>,
      w: World<Entries>, l: World<set<BiscuitId>>, high: SystemTime, steps: seq<Atomic>, checked: set<nat>)
    requires FactsHeld(horizon, pres)
    requires SeenAgree(horizon, high, w.seen, l.seen) && PhasesAgree(pres, w.phases, l.seen, l.phases)
    requires WellNumbered(pres, w.phases, steps) && NeverLate(horizon, pres, high, steps)
    requires ChecksFirst(checked, steps) && CheckedAreNotNew(w.phases, checked)
    ensures PhasesAgree(pres, RunNode(pres, w, steps).phases,
                        RunLedger(pres, l, steps).seen, RunLedger(pres, l, steps).phases)
    decreases |steps|
  {
    if steps != [] {
      var a := steps[0];
      NodeStepAgrees(horizon, pres, w, l, high, a, checked);
      NodeFollowsLedger(horizon, pres, StepNode(pres, w, a), StepLedger(pres, l, a),
                        Max(high, pres[a.k].now), steps[1..], if a.Check? then checked + {a.k} else checked);
    }
  }

  lemma {:induction false} UncheckedFollowsLedger(horizon: BiscuitId -> SystemTime, pres: seq<Presentation>,
      w: World<Entries>, l: World<set<BiscuitId>>, high: SystemTime, steps: seq<Atomic>)
    requires FactsHeld(horizon, pres)
    requires SeenAgree(horizon, high, w.seen, l.seen) && w.phases == l.phases
    requires WellNumbered(pres, w.phases, steps) && NeverLate(horizon, pres, high, steps)
    ensures RunUnchecked(pres, w, steps).phases == RunLedger(pres, l, steps).phases
    decreases |steps|
  {
    if steps != [] {
      var a := steps[0];
      EvictionAgrees(horizon, high, w.seen, l.seen, pres[a.k].now);
      UncheckedFollowsLedger(horizon, pres, StepUnchecked(pres, w, a), StepLedger(pres, l, a),
                             Max(high, pres[a.k].now), steps[1..]);
    }
  }

  /** In the ledger an admitted id is spent, and no two presentations of it are admitted. */
  predicate OncePerId(pres: seq<Presentation>, l: World<set<BiscuitId>>)
    requires |l.phases| == |pres|
  {
    && (forall k :: 0 <= k < |pres| && l.phases[k] == Decided(true) ==> pres[k].id in l.seen)
    && forall j, k :: 0 <= j < k < |pres| && l.phases[j] == Decided(true) && l.phases[k] == Decided(true) ==>
         pres[j].id != pres[k].id
  }

  lemma {:induction false} LedgerAdmitsOnce(pres: seq<Presentation>, l: World<set<BiscuitId>>, steps: seq<Atomic>)
    requires WellNumbered(pres, l.phases, steps) && OncePerId(pres, l)
    ensures |RunLedger(pres, l, steps).phases| == |pres| && OncePerId(pres, RunLedger(pres, l, steps))
    decreases |steps|
  {
    if steps != [] {
      LedgerAdmitsOnce(pres, StepLedger(pres, l, steps[0]), steps[1..]);
    }
  }

  function AllNew(n: nat): seq<Phase> {
    seq(n, i => New)
  }

  /**
   Any number of presentations run concurrently, each checking and later spending in two separate
   critical sections, over a set that evicts lazily. As long as no clock reading reaches the
   shortest expiry of an id presented later, exactly those presentations are admitted that a set forgetting nothing
   would admit, no id is admitted twice, and leaving the membership check out changes no admission.
   */
  lemma LazySetDecidesAsLedger(horizon: BiscuitId -> SystemTime, pres: seq<Presentation>, high: SystemTime,
                               steps: seq<Atomic>, j: nat, k: nat)
    requires FactsHeld(horizon, pres) && WellNumbered(pres, AllNew(|pres|), steps)
    requires NeverLate(horizon, pres, high, steps) && ChecksFirst({}, steps)
    requires j < |pres| && k < |pres|
    ensures var node := RunNode(pres, World(map[], AllNew(|pres|)), steps).phases;
            var bare := RunUnchecked(pres, World(map[], AllNew(|pres|)), steps).phases;
            var ledger := RunLedger(pres, World({}, AllNew(|pres|)), steps).phases;
            && |node| == |bare| == |ledger| == |pres|
            && (node[k] == Decided(true) <==> ledger[k] == Decided(true))
            && (node[k] == Decided(true) <==> bare[k] == Decided(true))
            && (j != k && node[j] == Decided(true) && node[k] == Decided(true) ==> pres[j].id != pres[k].id)
  {
    var w: World<Entries> := World(map[], AllNew(|pres|));
    var l: World<set<BiscuitId>> := World({}, AllNew(|pres|));
    NodeFollowsLedger(horizon, pres, w, l, high, steps, {});
    UncheckedFollowsLedger(horizon, pres, w, l, high, steps);
    LedgerAdmitsOnce(pres, l, steps);
  }

  /** In particular when clock readings never go backwards in lock order. */
  lemma LockOrderSuffices(horizon: BiscuitId -> SystemTime, pres: seq<Presentation>, clock: SystemTime,
                          steps: seq<Atomic>, j: nat, k: nat)
    requires FactsHeld(horizon, pres) && WellNumbered(pres, AllNew(|pres|), steps)
    requires InLockOrder(pres, clock, steps) && ChecksFirst({}, steps)
    requires j < k < |pres| && pres[j].id == pres[k].id
    ensures var node := RunNode(pres, World(map[], AllNew(|pres|)), steps).phases;
            |node| == |pres| && !(node[j] == Decided(true) && node[k] == Decided(true))
  {
    LockOrderIsNeverLate(horizon, pres, clock, steps);
    LazySetDecidesAsLedger(horizon, pres, clock, steps, j, k);
  }

  // ----- exactly when the evicting set decides like the unbounded one -----

  /** What a step of the node does to the set. */
  function OpOf(pres: seq<Presentation>, w: World<Entries>, a: Atomic): SetOp
    requires |w.phases| == |pres| && a.k < |pres|
  {
    var p := pres[a.k];
    match (a, w.phases[a.k])
    case (Check(_), New) => Touch(p.now)
    case (Commit(_), Passed) => Spend(p.id, p.expires, p.now)
    case _ => Skip
  }

  /** One set operation for each step. */
  function Trace(pres: seq<Presentation>, w: World<Entries>, steps: seq<Atomic>): (ops: seq<SetOp>)
    requires WellNumbered(pres, w.phases, steps)
    ensures |ops| == |steps|
    decreases |steps|
  {
    if steps == [] then [] else [OpOf(pres, w, steps[0])] + Trace(pres, StepNode(pres, w, steps[0]), steps[1..])
  }

  /** The i-th operation is the k-th presentation's spend, and succeeds; `base` operations came before the steps. */
  predicate CommitAdmits(pres: seq<Presentation>, ops: seq<SetOp>, base: nat, steps: seq<Atomic>, k: nat, i: nat) {
    && base <= i < |ops| && |ops| == base + |steps| && k < |pres|
    && steps[i - base] == Commit(k) && Admits(ops, pres[k].id, i)
  }

  lemma EntriesAppend(ops: seq<SetOp>, op: SetOp)
    ensures EntriesAfter(ops + [op]) == AfterOp(EntriesAfter(ops), op)
  {
    assert (ops + [op])[..|ops|] == ops;
  }

  lemma StepSeen(pres: seq<Presentation>, w: World<Entries>, a: Atomic)
    requires |w.phases| == |pres| && a.k < |pres|
    ensures StepNode(pres, w, a).seen == AfterOp(w.seen, OpOf(pres, w, a))
  {}

  lemma StepDecides(pres: seq<Presentation>, w: World<Entries>, a: Atomic, k: nat)
    requires |w.phases| == |pres| && a.k < |pres| && k < |pres|
    ensures StepNode(pres, w, a).phases[k] == Decided(true) <==>
            || w.phases[k] == Decided(true)
            || (a == Commit(k) && OpOf(pres, w, a).Spend? && pres[k].id !in Evicted(w.seen, pres[k].now))
  {}

  lemma OpIsOwn(pres: seq<Presentation>, w: World<Entries>, a: Atomic)
    requires |w.phases| == |pres| && a.k < |pres| && OpOf(pres, w, a).Spend?
    ensures a.Commit? && OpOf(pres, w, a) == Spend(pres[a.k].id, pres[a.k].expires, pres[a.k].now)
  {}

  lemma LastAdmits(done: seq<SetOp>, op: SetOp, id: BiscuitId)
    ensures Admits(done + [op], id, |done|) <==> op.Spend? && op.id == id && id !in Evicted(EntriesAfter(done), op.now)
  {
    assert (done + [op])[..|done|] == done;
  }

  lemma StepIsOp(pres: seq<Presentation>, w: World<Entries>, a: Atomic, done: seq<SetOp>, k: nat)
    requires |w.phases| == |pres| && a.k < |pres| && k < |pres| && w.seen == EntriesAfter(done)
    ensures StepNode(pres, w, a).seen == EntriesAfter(done + [OpOf(pres, w, a)])
    ensures StepNode(pres, w, a).phases[k] == Decided(true) <==>
            || w.phases[k] == Decided(true)
            || (a == Commit(k) && Admits(done + [OpOf(pres, w, a)], pres[k].id, |done|))
  {
    var op := OpOf(pres, w, a);
    StepSeen(pres, w, a);
    EntriesAppend(done, op);
    StepDecides(pres, w, a, k);
    LastAdmits(done, op, pres[k].id);
    if op.Spend? {
      OpIsOwn(pres, w, a);
    }
  }

  /** The k-th presentation's spend is among the steps and succeeds. */
  ghost predicate Spends(pres: seq<Presentation>, ops: seq<SetOp>, base: nat, steps: seq<Atomic>, k: nat) {
    exists i: nat :: CommitAdmits(pres, ops, base, steps, k, i)
  }

  lemma FirstOrLater(pres: seq<Presentation>, ops: seq<SetOp>, base: nat, steps: seq<Atomic>, k: nat)
    requires steps != [] && |ops| == base + |steps| && k < |pres|
    ensures Spends(pres, ops, base, steps, k) <==>
            || (steps[0] == Commit(k) && Admits(ops, pres[k].id, base))
            || Spends(pres, ops, base + 1, steps[1..], k)
  {
    var next, rest := base + 1, steps[1..];
    if i: nat :| CommitAdmits(pres, ops, base, steps, k, i) && i > base {
      assert rest[i - next] == steps[i - base];
      assert CommitAdmits(pres, ops, next, rest, k, i);
    }
    if i: nat :| CommitAdmits(pres, ops, next, rest, k, i) {
      assert rest[i - next] == steps[i - base];
      assert CommitAdmits(pres, ops, base, steps, k, i);
    }
    assert CommitAdmits(pres, ops, base, steps, k, base) <==> steps[0] == Commit(k) && Admits(ops, pres[k].id, base);
  }

  /** A presentation ends admitted exactly when its spend in the trace succeeds. */
  lemma {:induction false} NodeDecides(pres: seq<Presentation>, w: World<Entries>, steps: seq<Atomic>,
                                       done: seq<SetOp>, k: nat)
    requires WellNumbered(pres, w.phases, steps) && k < |pres| && w.seen == EntriesAfter(done)
    ensures |RunNode(pres, w, steps).phases| == |pres|
    ensures RunNode(pres, w, steps).phases[k] == Decided(true) <==>
            || w.phases[k] == Decided(true)
            || Spends(pres, done + Trace(pres, w, steps), |done|, steps, k)
    decreases |steps|
  {
    if steps != [] {
      var op := OpOf(pres, w, steps[0]);
      var w', done', rest := StepNode(pres, w, steps[0]), done + [op], steps[1..];
      StepIsOp(pres, w, steps[0], done, k);
      NodeDecides(pres, w', rest, done', k);
      var ops := done + Trace(pres, w, steps);
      assert ops == done' + Trace(pres, w', rest);
      assert ops[..|done'|] == done';
      AdmitsInPrefix(ops, pres[k].id, |done|, |done'|);
      FirstOrLater(pres, ops, |done|, steps, k);
    }
  }

  /** A decided presentation never spends again. */
  lemma {:induction false} DecidedNeverSpends(pres: seq<Presentation>, w: World<Entries>, steps: seq<Atomic>,
                                              k: nat, i: nat)
    requires WellNumbered(pres, w.phases, steps) && k < |pres| && w.phases[k].Decided?
    requires i < |steps| && steps[i] == Commit(k)
    ensures !Trace(pres, w, steps)[i].Spend?
    decreases |steps|
  {
    if i > 0 {
      DecidedNeverSpends(pres, StepNode(pres, w, steps[0]), steps[1..], k, i - 1);
    }
  }

  lemma {:induction false} SpendsOnce(pres: seq<Presentation>, w: World<Entries>, steps: seq<Atomic>, k: nat,
                                      i: nat, j: nat)
    requires WellNumbered(pres, w.phases, steps) && k < |pres|
    requires i < j < |steps| && steps[i] == Commit(k) && steps[j] == Commit(k) && Trace(pres, w, steps)[i].Spend?
    ensures !Trace(pres, w, steps)[j].Spend?
    decreases |steps|
  {
    var w' := StepNode(pres, w, steps[0]);
    if i == 0 {
      DecidedNeverSpends(pres, w', steps[1..], k, j - 1);
    } else {
      SpendsOnce(pres, w', steps[1..], k, i - 1, j - 1);
    }
  }

  /** A spend in the trace is the commit of a presentation of that id. */
  lemma {:induction false} SpendIsCommit(pres: seq<Presentation>, w: World<Entries>, steps: seq<Atomic>, i: nat)
    requires WellNumbered(pres, w.phases, steps) && i < |steps| && Trace(pres, w, steps)[i].Spend?
    ensures steps[i].Commit? && Trace(pres, w, steps)[i].id == pres[steps[i].k].id
    decreases |steps|
  {
    if i > 0 {
      SpendIsCommit(pres, StepNode(pres, w, steps[0]), steps[1..], i - 1);
    }
  }

  predicate TwoAdmitted(pres: seq<Presentation>, phases: seq<Phase>, j: nat, k: nat) {
    && |phases| == |pres| && j < |pres| && k < |pres| && j != k
    && phases[j] == Decided(true) && phases[k] == Decided(true) && pres[j].id == pres[k].id
  }

  ghost predicate NoneTwice(pres: seq<Presentation>, phases: seq<Phase>) {
    forall j: nat, k: nat :: !TwoAdmitted(pres, phases, j, k)
  }

  function NodeStart(n: nat): World<Entries> {
    World(map[], AllNew(n))
  }

  lemma TwoAdmittedInTrace(pres: seq<Presentation>, steps: seq<Atomic>, j: nat, k: nat)
    requires WellNumbered(pres, AllNew(|pres|), steps)
    requires TwoAdmitted(pres, RunNode(pres, NodeStart(|pres|), steps).phases, j, k)
    ensures AdmittedTwice(Trace(pres, NodeStart(|pres|), steps), pres[k].id)
  {
    var w := NodeStart(|pres|);
    var ops := Trace(pres, w, steps);
    assert [] + ops == ops;
    NodeDecides(pres, w, steps, [], j);
    NodeDecides(pres, w, steps, [], k);
    var a: nat :| CommitAdmits(pres, ops, 0, steps, j, a);
    var b: nat :| CommitAdmits(pres, ops, 0, steps, k, b);
    assert a != b && Admits(ops, pres[k].id, a) && Admits(ops, pres[k].id, b);
  }

  lemma AdmittedTwiceInNode(pres: seq<Presentation>, steps: seq<Atomic>, id: BiscuitId) returns (j: nat, k: nat)
    requires WellNumbered(pres, AllNew(|pres|), steps)
    requires AdmittedTwice(Trace(pres, NodeStart(|pres|), steps), id)
    ensures TwoAdmitted(pres, RunNode(pres, NodeStart(|pres|), steps).phases, j, k)
  {
    var w := NodeStart(|pres|);
    var ops := Trace(pres, w, steps);
    assert [] + ops == ops;
    var a: nat, b: nat :| a < b && Admits(ops, id, a) && Admits(ops, id, b);
    SpendIsCommit(pres, w, steps, a);
    SpendIsCommit(pres, w, steps, b);
    j, k := steps[a].k, steps[b].k;
    if j == k {
      SpendsOnce(pres, w, steps, k, a, b);
    }
    assert CommitAdmits(pres, ops, 0, steps, j, a) && CommitAdmits(pres, ops, 0, steps, k, b);
    NodeDecides(pres, w, steps, [], j);
    NodeDecides(pres, w, steps, [], k);
  }

  /** With any expiries and any clocks: what is live was spent, and what the ledger admits is admitted. */
  ghost predicate Covers(pres: seq<Presentation>, w: World<Entries>, l: World<set<BiscuitId>>) {
    && |w.phases| == |l.phases| == |pres|
    && (forall id :: id in w.seen ==> id in l.seen)
    && (forall id :: id in l.seen ==> exists k :: 0 <= k < |pres| && l.phases[k] == Decided(true) && pres[k].id == id)
    && forall k :: 0 <= k < |pres| ==>
         match l.phases[k]
         case New =>
           || w.phases[k] == New || w.phases[k] == Passed
           || (w.phases[k] == Decided(false) && pres[k].id in l.seen)
         case Decided(admitted) => pres[k].id in l.seen && w.phases[k].Decided? && (admitted ==> w.phases[k].admitted)
         case Passed => false
  }

  lemma StepCovers(pres: seq<Presentation>, w: World<Entries>, l: World<set<BiscuitId>>, a: Atomic, checked: set<nat>)
    requires Covers(pres, w, l) && a.k < |pres|
    requires CheckedAreNotNew(w.phases, checked) && (a.Commit? ==> a.k in checked)
    ensures Covers(pres, StepNode(pres, w, a), StepLedger(pres, l, a))
    ensures CheckedAreNotNew(StepNode(pres, w, a).phases, if a.Check? then checked + {a.k} else checked)
  {
    var w', l' := StepNode(pres, w, a), StepLedger(pres, l, a);
    forall id | id in l'.seen
      ensures exists k :: 0 <= k < |pres| && l'.phases[k] == Decided(true) && pres[k].id == id
    {
      if id in l.seen {
        var k :| 0 <= k < |pres| && l.phases[k] == Decided(true) && pres[k].id == id;
        assert l'.phases[k] == Decided(true);
      } else {
        assert l'.phases[a.k] == Decided(true);
      }
    }
  }

  lemma {:induction false} RunCovers(pres: seq<Presentation>, w: World<Entries>, l: World<set<BiscuitId>>,
                                     steps: seq<Atomic>, checked: set<nat>)
    requires WellNumbered(pres, w.phases, steps) && Covers(pres, w, l)
    requires ChecksFirst(checked, steps) && CheckedAreNotNew(w.phases, checked)
    ensures Covers(pres, RunNode(pres, w, steps), RunLedger(pres, l, steps))
    decreases |steps|
  {
    if steps != [] {
      var a := steps[0];
      StepCovers(pres, w, l, a, checked);
      RunCovers(pres, StepNode(pres, w, a), StepLedger(pres, l, a), steps[1..],
                if a.Check? then checked + {a.k} else checked);
    }
  }

  /** The evicting set admits at least what the unbounded one does, and no more exactly when no id is admitted twice. */
  lemma AgreesUnlessTwice(pres: seq<Presentation>, w: World<Entries>, l: World<set<BiscuitId>>)
    requires Covers(pres, w, l) && OncePerId(pres, l)
    ensures (forall k :: 0 <= k < |pres| ==> (w.phases[k] == Decided(true) <==> l.phases[k] == Decided(true))) <==>
            NoneTwice(pres, w.phases)
  {
    if k :| 0 <= k < |pres| && w.phases[k] == Decided(true) && l.phases[k] != Decided(true) {
      assert l.phases[k] == Decided(false);
      var j :| 0 <= j < |pres| && l.phases[j] == Decided(true) && pres[j].id == pres[k].id;
      assert TwoAdmitted(pres, w.phases, j, k);
    }
    if j: nat, k: nat :| TwoAdmitted(pres, w.phases, j, k) {
      if l.phases[j] == Decided(true) && l.phases[k] == Decided(true) {
        assert false;
      }
    }
  }

  lemma TwoIsOutlived(pres: seq<Presentation>, steps: seq<Atomic>, j: nat, k: nat)
    requires WellNumbered(pres, AllNew(|pres|), steps)
    requires TwoAdmitted(pres, RunNode(pres, NodeStart(|pres|), steps).phases, j, k)
    ensures Outlived(Trace(pres, NodeStart(|pres|), steps), pres[k].id)
  {
    TwoAdmittedInTrace(pres, steps, j, k);
    ReplayExactly(Trace(pres, NodeStart(|pres|), steps), pres[k].id);
  }

  lemma OutlivedIsTwo(pres: seq<Presentation>, steps: seq<Atomic>, id: BiscuitId) returns (j: nat, k: nat)
    requires WellNumbered(pres, AllNew(|pres|), steps) && Outlived(Trace(pres, NodeStart(|pres|), steps), id)
    ensures TwoAdmitted(pres, RunNode(pres, NodeStart(|pres|), steps).phases, j, k)
  {
    ReplayExactly(Trace(pres, NodeStart(|pres|), steps), id);
    j, k := AdmittedTwiceInNode(pres, steps, id);
  }

  ghost predicate NoneOutlived(ops: seq<SetOp>) {
    forall id: BiscuitId :: !Outlived(ops, id)
  }

  lemma TwoAdmittedExactly(pres: seq<Presentation>, steps: seq<Atomic>)
    requires WellNumbered(pres, AllNew(|pres|), steps)
    ensures NoneTwice(pres, RunNode(pres, NodeStart(|pres|), steps).phases) <==>
            NoneOutlived(Trace(pres, NodeStart(|pres|), steps))
  {
    var ops := Trace(pres, NodeStart(|pres|), steps);
    var phases := RunNode(pres, NodeStart(|pres|), steps).phases;
    if !NoneTwice(pres, phases) {
      var j: nat, k: nat :| TwoAdmitted(pres, phases, j, k);
      TwoIsOutlived(pres, steps, j, k);
    }
    if !NoneOutlived(ops) {
      var id: BiscuitId :| Outlived(ops, id);
      var j, k := OutlivedIsTwo(pres, steps, id);
    }
  }

  /**
   Presentations with any expiries, any clocks and any interleaving: those a set forgetting nothing
   would admit are always admitted, and exactly those are, if and only if no id is outlived in the
   order in which the set was reached.
   */
  lemma AgreesExactly(pres: seq<Presentation>, steps: seq<Atomic>)
    requires WellNumbered(pres, AllNew(|pres|), steps) && ChecksFirst({}, steps)
    ensures var node := RunNode(pres, NodeStart(|pres|), steps).phases;
            var ledger := RunLedger(pres, World({}, AllNew(|pres|)), steps).phases;
            && |node| == |ledger| == |pres|
            && (forall k :: 0 <= k < |pres| && ledger[k] == Decided(true) ==> node[k] == Decided(true))
            && ((forall k :: 0 <= k < |pres| ==> (node[k] == Decided(true) <==> ledger[k] == Decided(true))) <==>
                NoneOutlived(Trace(pres, NodeStart(|pres|), steps)))
  {
    var w, l: World<set<BiscuitId>> := NodeStart(|pres|), World({}, AllNew(|pres|));
    var node, ledger := RunNode(pres, w, steps), RunLedger(pres, l, steps);
    RunCovers(pres, w, l, steps, {});
    LedgerAdmitsOnce(pres, l, steps);
    AgreesUnlessTwice(pres, node, ledger);
    TwoAdmittedExactly(pres, steps);
  }
}
