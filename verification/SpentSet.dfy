/** The in-memory set of spent one-shot tokens, and what its lazy eviction does to whole runs. */
module SpentSet {
  import opened Bytes

  /** Nanoseconds since the Unix epoch, negative before it. */
  type SystemTime = int

  type BiscuitId = b: seq<byte> | |b| == 32 witness seq(32, i => 0)

  type Entries = map<BiscuitId, SystemTime>

  function Evicted(m: Entries, now: SystemTime): Entries {
    map id | id in m && m[id] > now :: m[id]
  }

  function AfterSpend(m: Entries, id: BiscuitId, expires: SystemTime, now: SystemTime): Entries {
    var live := Evicted(m, now);
    if id in live then live else live[id := expires]
  }

  class MemorySpentSet {
    var inner: Entries

    constructor ()
      ensures inner == map[]
    {
      inner := map[];
    }

    method EvictExpired(now: SystemTime)
      modifies this
      ensures inner == Evicted(old(inner), now)
    {
      inner := map id | id in inner && inner[id] > now :: inner[id];
    }

    method Len(now: SystemTime) returns (n: nat)
      modifies this
      ensures inner == Evicted(old(inner), now) && n == |inner|
      ensures forall id <- inner :: inner[id] > now
    {
      EvictExpired(now);
      n := |inner|;
    }

    method Contains(id: BiscuitId, now: SystemTime) returns (yes: bool)
      modifies this
      ensures inner == Evicted(old(inner), now) && (yes <==> id in inner)
      ensures forall id <- inner :: inner[id] > now
    {
      EvictExpired(now);
      yes := id in inner;
    }

    method TrySpend(id: BiscuitId, expires: SystemTime, now: SystemTime) returns (spent: bool)
      modifies this
      ensures inner == AfterSpend(old(inner), id, expires, now)
      ensures spent <==> id !in Evicted(old(inner), now)
      ensures expires > now ==> forall id <- inner :: inner[id] > now
    {
      EvictExpired(now);
      if id in inner {
        return false;
      }
      inner := inner[id := expires];
      spent := true;
    }
  }

  // ----- runs of set operations under the lock -----

  /**
   `Touch` is any operation that only evicts: a membership check or a length query. `Skip` is a
   decision that never gets to the set. Every spend names its own expiry.
   */
  datatype SetOp = Spend(id: BiscuitId, expires: SystemTime, now: SystemTime) | Touch(now: SystemTime) | Skip

  function AfterOp(m: Entries, op: SetOp): Entries {
    match op
    case Spend(id, expires, now) => AfterSpend(m, id, expires, now)
    case Touch(now) => Evicted(m, now)
    case Skip => m
  }

  function EntriesAfter(ops: seq<SetOp>): Entries {
    if ops == [] then map[] else AfterOp(EntriesAfter(ops[..|ops| - 1]), ops[|ops| - 1])
  }

  predicate Offers(ops: seq<SetOp>, id: BiscuitId, i: nat) {
    i < |ops| && ops[i].Spend? && ops[i].id == id
  }

  /** The i-th operation offers the id and succeeds. */
  predicate Admits(ops: seq<SetOp>, id: BiscuitId, i: nat) {
    Offers(ops, id, i) && id !in Evicted(EntriesAfter(ops[..i]), ops[i].now)
  }

  /** The operation reads a clock that has reached `t`. */
  predicate Reaches(op: SetOp, t: SystemTime) {
    !op.Skip? && op.now >= t
  }

  /** The id was spent at `i` and no clock read since then has reached the expiry it was spent with. */
  predicate HeldSince(ops: seq<SetOp>, id: BiscuitId, i: nat) {
    Admits(ops, id, i) && forall j :: i < j < |ops| ==> !Reaches(ops[j], ops[i].expires)
  }

  lemma AdmitsInPrefix(ops: seq<SetOp>, id: BiscuitId, i: nat, n: nat)
    requires i < n <= |ops|
    ensures Admits(ops[..n], id, i) <==> Admits(ops, id, i)
  {
    assert ops[..n][..i] == ops[..i];
  }

  lemma HeldLonger(ops: seq<SetOp>, id: BiscuitId, i: nat)
    requires i + 1 < |ops|
    ensures var n := |ops| - 1;
            HeldSince(ops, id, i) <==> HeldSince(ops[..n], id, i) && !Reaches(ops[n], ops[i].expires)
  {
    var n := |ops| - 1;
    AdmitsInPrefix(ops, id, i, n);
    assert forall j :: i < j < n ==> ops[..n][j] == ops[j];
  }

  /** What is stored after any run, with any expiries and any clocks. */
  lemma {:induction false} EntriesExactly(ops: seq<SetOp>, id: BiscuitId)
    ensures var m := EntriesAfter(ops);
            && (id in m <==> exists i: nat :: HeldSince(ops, id, i))
            && (forall i: nat :: HeldSince(ops, id, i) ==> m[id] == ops[i].expires)
    decreases |ops|
  {
    if ops != [] {
      var n := |ops| - 1;
      EntriesExactly(ops[..n], id);
      forall i: nat | i < n
        ensures HeldSince(ops, id, i) <==> HeldSince(ops[..n], id, i) && !Reaches(ops[n], ops[i].expires)
      {
        HeldLonger(ops, id, i);
      }
      assert HeldSince(ops, id, n) <==> Admits(ops, id, n);
      EntryStep(ops, id);
    }
  }

  lemma EntryStep(ops: seq<SetOp>, id: BiscuitId)
    requires ops != []
    ensures var n := |ops| - 1; var before := EntriesAfter(ops[..n]); var m := EntriesAfter(ops);
            && (id in m <==> Admits(ops, id, n) || (id in before && !Reaches(ops[n], before[id])))
            && (id in m ==> m[id] == if Admits(ops, id, n) then ops[n].expires else before[id])
            && (Admits(ops, id, n) ==> id !in before || Reaches(ops[n], before[id]))
  {}

  /**
   A spend succeeds exactly when, for every earlier spend of the same id that succeeded, some clock
   reading since then has reached the expiry that one was made with.
   */
  lemma AdmittedExactly(ops: seq<SetOp>, id: BiscuitId, k: nat)
    requires Offers(ops, id, k)
    ensures Admits(ops, id, k) <==>
            forall i :: 0 <= i < k && Admits(ops, id, i) ==> exists j :: i < j <= k && Reaches(ops[j], ops[i].expires)
  {
    var before := ops[..k];
    EntriesExactly(before, id);
    forall i | 0 <= i < k
      ensures (HeldSince(before, id, i) && ops[k].now < ops[i].expires) <==>
              (Admits(ops, id, i) && forall j :: i < j <= k ==> !Reaches(ops[j], ops[i].expires))
    {
      AdmitsInPrefix(ops, id, i, k);
      assert forall j :: i < j < k ==> before[j] == ops[j];
    }
  }

  /** Clock readings never go backwards in lock order. */
  predicate InOrder(ops: seq<SetOp>) {
    forall a, b :: 0 <= a < b < |ops| && !ops[a].Skip? && !ops[b].Skip? ==> ops[a].now <= ops[b].now
  }

  /** Under such clocks: exactly when every expiry it was spent with before has passed. */
  lemma AdmittedInOrder(ops: seq<SetOp>, id: BiscuitId, k: nat)
    requires Offers(ops, id, k) && InOrder(ops)
    ensures Admits(ops, id, k) <==> forall i :: 0 <= i < k && Admits(ops, id, i) ==> ops[i].expires <= ops[k].now
  {
    AdmittedExactly(ops, id, k);
    forall i | 0 <= i < k && Admits(ops, id, i)
      ensures (exists j :: i < j <= k && Reaches(ops[j], ops[i].expires)) <==> ops[i].expires <= ops[k].now
    {
      if ops[i].expires <= ops[k].now {
        assert Reaches(ops[k], ops[i].expires);
      }
    }
  }

  predicate OffersFirst(ops: seq<SetOp>, id: BiscuitId, i: nat) {
    Offers(ops, id, i) && forall h :: 0 <= h < i ==> !Offers(ops, id, h)
  }

  /**
   The id is offered again at or after a clock reading that reached the expiry of its first offer. A
   shorter expiry at the first offer, or a clock that steps back, is enough.
   */
  ghost predicate Outlived(ops: seq<SetOp>, id: BiscuitId) {
    exists i: nat, j: nat, k: nat ::
      i < j <= k < |ops| && OffersFirst(ops, id, i) && Offers(ops, id, k) && Reaches(ops[j], ops[i].expires)
  }

  ghost predicate AdmittedTwice(ops: seq<SetOp>, id: BiscuitId) {
    exists i: nat, k: nat :: i < k && Admits(ops, id, i) && Admits(ops, id, k)
  }

  lemma FirstOffer(ops: seq<SetOp>, id: BiscuitId, from: nat, at: nat) returns (first: nat)
    requires from <= at && Offers(ops, id, at)
    ensures from <= first <= at && Offers(ops, id, first)
    ensures forall i :: from <= i < first ==> !Offers(ops, id, i)
    decreases at - from
  {
    if Offers(ops, id, from) {
      first := from;
    } else {
      first := FirstOffer(ops, id, from + 1, at);
    }
  }

  lemma OutlivedIsAdmittedTwice(ops: seq<SetOp>, id: BiscuitId, i: nat, j: nat, k: nat)
    requires i < j <= k < |ops| && OffersFirst(ops, id, i) && Offers(ops, id, k) && Reaches(ops[j], ops[i].expires)
    ensures AdmittedTwice(ops, id)
  {
    AdmittedExactly(ops, id, i);
    if h :| i < h < k && Admits(ops, id, h) {
      assert Admits(ops, id, i) && Admits(ops, id, h);
    } else {
      AdmittedExactly(ops, id, k);
      assert Admits(ops, id, i) && Admits(ops, id, k);
    }
  }

  /** A one-shot id is admitted twice exactly when it is outlived. */
  lemma ReplayExactly(ops: seq<SetOp>, id: BiscuitId)
    ensures AdmittedTwice(ops, id) <==> Outlived(ops, id)
  {
    if i: nat, k: nat :| i < k && Admits(ops, id, i) && Admits(ops, id, k) {
      var first := FirstOffer(ops, id, 0, i);
      AdmittedExactly(ops, id, first);
      assert OffersFirst(ops, id, first);
      AdmittedExactly(ops, id, k);
    }
    if i: nat, j: nat, k: nat :| i < j <= k < |ops| && OffersFirst(ops, id, i) && Offers(ops, id, k)
                                 && Reaches(ops[j], ops[i].expires) {
      OutlivedIsAdmittedTwice(ops, id, i, j, k);
    }
  }

  /** Two spends of one id with different expiries both succeed, although the clock only goes forward. */
  lemma ShorterExpiryReplays(id: BiscuitId, short: SystemTime, long: SystemTime, first: SystemTime, second: SystemTime)
    requires first < short <= second < long
    ensures var ops := [Spend(id, short, first), Spend(id, long, second)];
            InOrder(ops) && AdmittedTwice(ops, id)
  {
    var ops := [Spend(id, short, first), Spend(id, long, second)];
    assert OffersFirst(ops, id, 0) && Offers(ops, id, 1) && Reaches(ops[1], ops[0].expires);
    ReplayExactly(ops, id);
  }

  // ----- one expiry for each id -----

  /** Each id always comes with the same expiry, and is only ever spent before it. */
  ghost predicate OneExpiry(expires: BiscuitId -> SystemTime, ops: seq<SetOp>) {
    forall k :: 0 <= k < |ops| && ops[k].Spend? ==> ops[k].expires == expires(ops[k].id) && ops[k].now < ops[k].expires
  }

  /** Some clock reading reaches the id's expiry between two offers of it: time ran backwards. */
  ghost predicate SteppedBack(expires: BiscuitId -> SystemTime, ops: seq<SetOp>, id: BiscuitId) {
    exists i: nat, j: nat, k: nat ::
      i < j < k && Offers(ops, id, i) && Offers(ops, id, k) && Reaches(ops[j], expires(id))
  }

  lemma OutlivedIsSteppedBack(expires: BiscuitId -> SystemTime, ops: seq<SetOp>, id: BiscuitId)
    requires OneExpiry(expires, ops) && Outlived(ops, id)
    ensures SteppedBack(expires, ops, id)
  {
    var i: nat, j: nat, k: nat :| i < j <= k < |ops| && OffersFirst(ops, id, i) && Offers(ops, id, k)
                                  && Reaches(ops[j], ops[i].expires);
    assert ops[i].expires == expires(id) && ops[k].now < expires(id);
    assert i < j < k && Offers(ops, id, i) && Offers(ops, id, k) && Reaches(ops[j], expires(id));
  }

  lemma SteppedBackIsOutlived(expires: BiscuitId -> SystemTime, ops: seq<SetOp>, id: BiscuitId)
    requires OneExpiry(expires, ops) && SteppedBack(expires, ops, id)
    ensures Outlived(ops, id)
  {
    var i: nat, j: nat, k: nat :| i < j < k && Offers(ops, id, i) && Offers(ops, id, k) && Reaches(ops[j], expires(id));
    var first := FirstOffer(ops, id, 0, i);
    assert ops[first].expires == expires(id);
    assert first < j <= k < |ops| && OffersFirst(ops, id, first) && Offers(ops, id, k)
           && Reaches(ops[j], ops[first].expires);
  }

  /** Then an id is admitted twice exactly when the clock reached its expiry and stepped back before it. */
  lemma ReplayWithOneExpiry(expires: BiscuitId -> SystemTime, ops: seq<SetOp>, id: BiscuitId)
    requires OneExpiry(expires, ops)
    ensures AdmittedTwice(ops, id) <==> SteppedBack(expires, ops, id)
  {
    ReplayExactly(ops, id);
    if Outlived(ops, id) {
      OutlivedIsSteppedBack(expires, ops, id);
    }
    if SteppedBack(expires, ops, id) {
      SteppedBackIsOutlived(expires, ops, id);
    }
  }

  /** And under clocks that never go backwards in lock order, no id is admitted twice. */
  lemma AtMostOnce(expires: BiscuitId -> SystemTime, ops: seq<SetOp>, id: BiscuitId)
    requires OneExpiry(expires, ops) && InOrder(ops)
    ensures !AdmittedTwice(ops, id)
  {
    ReplayWithOneExpiry(expires, ops, id);
  }
}
