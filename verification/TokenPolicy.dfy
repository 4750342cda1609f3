/**
 Admission of a Submit header: allowlist first, then a token whose facts have already been produced
 by the token library, then denial.
 */
module TokenPolicy {
  import opened Bytes
  import opened WireTypes
  import opened SpentSet
  import Base64

  datatype Term = Bytes(bytes: seq<byte>) | Date(seconds: nat) | Integer(n: int) | Str(s: seq<byte>) | OtherTerm

  datatype Fact = Fact(terms: seq<Term>)

  /** What the library's queries return for a token that parsed, verified and authorized. */
  datatype TokenFacts = TokenFacts(
    callees: seq<Fact>, expires: seq<Fact>, maxDeadlines: seq<Fact>, contentTypes: seq<Fact>,
    oneShot: seq<Fact>, revocationIds: seq<seq<byte>>)

  datatype AuthError = Denied(peer: NodeId) | TokenUnauthorized | NotSubmit | NotHeaderOnly

  datatype AuthRule = Allowlist | Token(biscuitId: BiscuitId)

  /** `library` stands for the token library under the configured root keys; `None` is any failure of it. */
  datatype Rules = Rules(
    allowlist: set<NodeId>, hasRoots: bool, selfId: Option<NodeId>, library: seq<byte> -> Option<TokenFacts>)

  datatype Policy = Policy(rules: Rules, spent: MemorySpentSet)

  const SECOND: nat := 1_000_000_000

  /** Whole seconds since the epoch, zero before it. */
  function NowSecs(now: SystemTime): nat {
    if now < 0 then 0 else now / SECOND
  }

  function SingleTerm(fact: Fact): Result<Term, AuthError> {
    if |fact.terms| == 1 then Ok(fact.terms[0]) else Err(TokenUnauthorized)
  }

  /** The first 32 bytes of the authority block's revocation identifier, zero-padded. */
  function BiscuitIdOf(id: seq<byte>): BiscuitId {
    if |id| >= 32 then id[..32] else id + seq(32 - |id|, i => 0)
  }

  /** Byte i of an identifier, zero past its end. */
  function PaddedByte(rev: seq<byte>, i: nat): byte {
    if i < |rev| then rev[i] else 0
  }

  /** Two revocation identifiers stand for one token id exactly when they agree on these bytes. */
  predicate SameToken(a: seq<byte>, b: seq<byte>) {
    forall i :: 0 <= i < 32 ==> PaddedByte(a, i) == PaddedByte(b, i)
  }

  lemma BiscuitIdExactly(rev: seq<byte>)
    ensures |BiscuitIdOf(rev)| == 32
    ensures forall i :: 0 <= i < 32 ==> BiscuitIdOf(rev)[i] == if i < |rev| then rev[i] else 0
  {}

  lemma SameTokenExactly(a: seq<byte>, b: seq<byte>)
    ensures BiscuitIdOf(a) == BiscuitIdOf(b) <==> SameToken(a, b)
  {
    BiscuitIdExactly(a);
    BiscuitIdExactly(b);
    if SameToken(a, b) {
      forall i | 0 <= i < 32 ensures BiscuitIdOf(a)[i] == BiscuitIdOf(b)[i] {
        assert PaddedByte(a, i) == PaddedByte(b, i);
      }
    } else {
      var i :| 0 <= i < 32 && PaddedByte(a, i) != PaddedByte(b, i);
      assert BiscuitIdOf(a)[i] != BiscuitIdOf(b)[i];
    }
  }

  // ----- what a token must say -----

  predicate CalleeFactHolds(f: Fact, selfId: NodeId) {
    f == Fact([Bytes(selfId)])
  }

  predicate IsDate(f: Fact) {
    |f.terms| == 1 && f.terms[0].Date?
  }

  predicate ExpiresFactHolds(f: Fact, now: SystemTime) {
    IsDate(f) && f.terms[0].seconds > NowSecs(now)
  }

  predicate MaxDeadlineFactHolds(f: Fact, deadline: Deadline) {
    |f.terms| == 1 && f.terms[0].Integer? && deadline <= f.terms[0].n
  }

  predicate ContentTypeFactHolds(f: Fact, contentType: ContentType) {
    f == Fact([Str(contentType)])
  }

  predicate FactsHold(facts: TokenFacts, selfId: NodeId, deadline: Deadline, contentType: ContentType,
                      now: SystemTime)
  {
    && facts.callees != [] && facts.expires != [] && facts.revocationIds != []
    && (forall i :: 0 <= i < |facts.callees| ==> CalleeFactHolds(facts.callees[i], selfId))
    && (forall i :: 0 <= i < |facts.expires| ==> ExpiresFactHolds(facts.expires[i], now))
    && (forall i :: 0 <= i < |facts.maxDeadlines| ==> MaxDeadlineFactHolds(facts.maxDeadlines[i], deadline))
    && (forall i :: 0 <= i < |facts.contentTypes| ==> ContentTypeFactHolds(facts.contentTypes[i], contentType))
  }

  function ExpiryOf(f: Fact): SystemTime {
    if IsDate(f) then f.terms[0].seconds * SECOND else 0
  }

  /** The earliest of the expiries. */
  function Earliest(expires: seq<Fact>): SystemTime
    requires expires != []
  {
    var n := |expires| - 1;
    if n == 0 then ExpiryOf(expires[0])
    else
      var prev := Earliest(expires[..n]);
      if prev <= ExpiryOf(expires[n]) then prev else ExpiryOf(expires[n])
  }

  lemma {:induction false} EarliestIsLeast(expires: seq<Fact>)
    requires expires != []
    ensures exists i :: 0 <= i < |expires| && Earliest(expires) == ExpiryOf(expires[i])
    ensures forall i :: 0 <= i < |expires| ==> Earliest(expires) <= ExpiryOf(expires[i])
    decreases |expires|
  {
    var n := |expires| - 1;
    if n == 0 {
      assert Earliest(expires) == ExpiryOf(expires[0]);
    } else {
      EarliestIsLeast(expires[..n]);
      var i :| 0 <= i < n && Earliest(expires[..n]) == ExpiryOf(expires[..n][i]);
      assert expires[..n][i] == expires[i];
      assert Earliest(expires) == ExpiryOf(expires[i]) || Earliest(expires) == ExpiryOf(expires[n]);
      forall k | 0 <= k < n ensures Earliest(expires[..n]) <= ExpiryOf(expires[k]) {
        assert expires[..n][k] == expires[k];
      }
    }
  }

  lemma EarliestNext(expires: seq<Fact>, i: nat)
    requires i < |expires|
    ensures Earliest(expires[..i + 1])
         == if i > 0 && Earliest(expires[..i]) <= ExpiryOf(expires[i]) then Earliest(expires[..i])
            else ExpiryOf(expires[i])
  {
    assert expires[..i + 1][..i] == expires[..i];
  }

  /** The rule in full, from the terms of the facts and the exact time. */
  lemma FactsHoldExactly(facts: TokenFacts, selfId: NodeId, deadline: Deadline, contentType: ContentType,
                         now: SystemTime)
    ensures FactsHold(facts, selfId, deadline, contentType, now) <==>
            && |facts.callees| > 0 && |facts.expires| > 0 && |facts.revocationIds| > 0
            && (forall i :: 0 <= i < |facts.callees| ==> facts.callees[i].terms == [Bytes(selfId)])
            && (forall i :: 0 <= i < |facts.expires| ==>
                  && |facts.expires[i].terms| == 1 && facts.expires[i].terms[0].Date?
                  && facts.expires[i].terms[0].seconds > 0
                  && facts.expires[i].terms[0].seconds * 1_000_000_000 > now)
            && (forall i :: 0 <= i < |facts.maxDeadlines| ==>
                  && |facts.maxDeadlines[i].terms| == 1 && facts.maxDeadlines[i].terms[0].Integer?
                  && facts.maxDeadlines[i].terms[0].n >= deadline)
            && (forall i :: 0 <= i < |facts.contentTypes| ==> facts.contentTypes[i].terms == [Str(contentType)])
  {
    forall i | 0 <= i < |facts.expires| && IsDate(facts.expires[i])
      ensures ExpiresFactHolds(facts.expires[i], now) <==>
              facts.expires[i].terms[0].seconds > 0 && facts.expires[i].terms[0].seconds * 1_000_000_000 > now
    {
      ExpiryInTime(facts.expires[i].terms[0].seconds, now);
    }
    assert forall i :: 0 <= i < |facts.expires| && ExpiresFactHolds(facts.expires[i], now) ==> IsDate(facts.expires[i]);
  }

  lemma ExpiryInTime(seconds: nat, now: SystemTime)
    ensures seconds > NowSecs(now) <==> seconds > 0 && seconds * 1_000_000_000 > now
  {}

  // The fact loops. Each returns at the first fact that fails.

  method CheckCallees(callees: seq<Fact>, selfId: NodeId) returns (r: Result<(), AuthError>)
    ensures r == if callees != [] && forall i :: 0 <= i < |callees| ==> CalleeFactHolds(callees[i], selfId)
                 then Ok(()) else Err(TokenUnauthorized)
  {
    if callees == [] {
      return Err(TokenUnauthorized);
    }
    for i := 0 to |callees|
      invariant forall k :: 0 <= k < i ==> CalleeFactHolds(callees[k], selfId)
    {
      var term := SingleTerm(callees[i]);
      if term.Err? || !term.value.Bytes? {
        return Err(TokenUnauthorized);
      }
      if term.value.bytes != selfId {
        return Err(TokenUnauthorized);
      }
      assert callees[i].terms == [term.value];
    }
    r := Ok(());
  }

  /** One round of the loop over the expiries. */
  method CheckExpiry(fact: Fact, nowSecs: nat, now: SystemTime) returns (r: Result<SystemTime, AuthError>)
    requires nowSecs == NowSecs(now)
    ensures r == if ExpiresFactHolds(fact, now) then Ok(ExpiryOf(fact)) else Err(TokenUnauthorized)
  {
    var term := SingleTerm(fact);
    if term.Err? || !term.value.Date? {
      return Err(TokenUnauthorized);
    }
    if term.value.seconds <= nowSecs {
      return Err(TokenUnauthorized);
    }
    r := Ok(term.value.seconds * SECOND);
  }

  /** Also keeps track of the earliest expiry, for the spent set. */
  method CheckExpires(expires: seq<Fact>, now: SystemTime) returns (r: Result<SystemTime, AuthError>)
    ensures r == if expires != [] && forall i :: 0 <= i < |expires| ==> ExpiresFactHolds(expires[i], now)
                 then Ok(Earliest(expires)) else Err(TokenUnauthorized)
  {
    if expires == [] {
      return Err(TokenUnauthorized);
    }
    var nowSecs := NowSecs(now);
    var earliest: Option<SystemTime> := None;
    for i := 0 to |expires|
      invariant forall k :: 0 <= k < i ==> ExpiresFactHolds(expires[k], now)
      invariant earliest == if i == 0 then None else Some(Earliest(expires[..i]))
    {
      var exp := CheckExpiry(expires[i], nowSecs, now);
      if exp.Err? {
        return exp;
      }
      EarliestNext(expires, i);
      earliest := Some(if earliest.Some? && earliest.value <= exp.value then earliest.value else exp.value);
    }
    assert expires[..|expires|] == expires;
    r := Ok(earliest.value);
  }

  method CheckMaxDeadlines(maxDeadlines: seq<Fact>, deadline: Deadline) returns (r: Result<(), AuthError>)
    ensures r == if forall i :: 0 <= i < |maxDeadlines| ==> MaxDeadlineFactHolds(maxDeadlines[i], deadline)
                 then Ok(()) else Err(TokenUnauthorized)
  {
    for i := 0 to |maxDeadlines|
      invariant forall k :: 0 <= k < i ==> MaxDeadlineFactHolds(maxDeadlines[k], deadline)
    {
      var term := SingleTerm(maxDeadlines[i]);
      if term.Err? || !term.value.Integer? {
        return Err(TokenUnauthorized);
      }
      if term.value.n < 0 || deadline > term.value.n {
        return Err(TokenUnauthorized);
      }
    }
    r := Ok(());
  }

  method CheckContentTypes(contentTypes: seq<Fact>, contentType: ContentType) returns (r: Result<(), AuthError>)
    ensures r == if forall i :: 0 <= i < |contentTypes| ==> ContentTypeFactHolds(contentTypes[i], contentType)
                 then Ok(()) else Err(TokenUnauthorized)
  {
    for i := 0 to |contentTypes|
      invariant forall k :: 0 <= k < i ==> ContentTypeFactHolds(contentTypes[k], contentType)
    {
      var term := SingleTerm(contentTypes[i]);
      if term.Err? || !term.value.Str? {
        return Err(TokenUnauthorized);
      }
      if term.value.s != contentType {
        return Err(TokenUnauthorized);
      }
      assert contentTypes[i].terms == [term.value];
    }
    r := Ok(());
  }

  /** All checks in the source's order: accepts exactly when every required and optional fact holds. */
  method CheckFacts(facts: TokenFacts, selfId: NodeId, deadline: Deadline, contentType: ContentType, now: SystemTime)
    returns (r: Result<(BiscuitId, SystemTime), AuthError>)
    ensures r.Ok? <==> FactsHold(facts, selfId, deadline, contentType, now)
    ensures r.Ok? ==> r.value == (BiscuitIdOf(facts.revocationIds[0]), Earliest(facts.expires))
    ensures r.Ok? ==>
              forall i :: 0 <= i < 32 ==>
                r.value.0[i] == if i < |facts.revocationIds[0]| then facts.revocationIds[0][i] else 0
    ensures r.Err? ==> r.error == TokenUnauthorized
  {
    var callees := CheckCallees(facts.callees, selfId);
    if callees.Err? {
      return Err(callees.error);
    }
    var earliest := CheckExpires(facts.expires, now);
    if earliest.Err? {
      return Err(earliest.error);
    }
    var deadlines := CheckMaxDeadlines(facts.maxDeadlines, deadline);
    if deadlines.Err? {
      return Err(deadlines.error);
    }
    var types := CheckContentTypes(facts.contentTypes, contentType);
    if types.Err? {
      return Err(types.error);
    }
    if facts.revocationIds == [] {
      return Err(TokenUnauthorized);
    }
    BiscuitIdExactly(facts.revocationIds[0]);
    r := Ok((BiscuitIdOf(facts.revocationIds[0]), earliest.value));
  }

  // ----- the whole decision, as a function of the rules and the live entries -----

  /** The facts a credential yields here, if it gets as far as its facts. */
  function FactsOf(rules: Rules, credential: Credential): Option<TokenFacts> {
    if !rules.hasRoots || rules.selfId.None? then None
    else rules.library(Base64.Decode(credential).value)
  }

  function CredentialVerdict(rules: Rules, live: Entries, credential: Credential, deadline: Deadline,
                             contentType: ContentType, now: SystemTime): (Result<BiscuitId, AuthError>, Entries)
  {
    match FactsOf(rules, credential)
    case None => (Err(TokenUnauthorized), live)
    case Some(facts) =>
      if !FactsHold(facts, rules.selfId.value, deadline, contentType, now) then (Err(TokenUnauthorized), live)
      else
        var id := BiscuitIdOf(facts.revocationIds[0]);
        if facts.oneShot == [] then (Ok(id), live)
        else if id in Evicted(live, now) then (Err(TokenUnauthorized), Evicted(live, now))
        else (Ok(id), AfterSpend(live, id, Earliest(facts.expires), now))
  }

  function Verdict(rules: Rules, live: Entries, header: Message, peer: NodeId, now: SystemTime):
    (Result<AuthRule, AuthError>, Entries)
  {
    if !header.Submit? then (Err(NotSubmit), live)
    else if peer in rules.allowlist then (Ok(Allowlist), live)
    else
      match header.credential
      case None => (Err(Denied(peer)), live)
      case Some(credential) =>
        var (r, live') := CredentialVerdict(rules, live, credential, header.deadline, header.contentType, now);
        (match r case Ok(id) => Ok(Token(id)) case Err(e) => Err(e), live')
  }

  /** Tokens count only where root keys and the node's own id are configured; the library then gets the raw bytes. */
  lemma CredentialReachesLibrary(rules: Rules, live: Entries, raw: seq<byte>, deadline: Deadline,
                                 contentType: ContentType, now: SystemTime)
    requires |raw| <= 2_048
    ensures IsCredential(Base64.Encode(raw))
    ensures var credential: Credential := Base64.Encode(raw);
            var configured := rules.hasRoots && rules.selfId.Some?;
            var verdict := CredentialVerdict(rules, live, credential, deadline, contentType, now);
            && FactsOf(rules, credential) == (if configured then rules.library(raw) else None)
            && (!configured || rules.library(raw).None? ==> verdict == (Err(TokenUnauthorized), live))
  {
    Base64.DecodeEncode(raw);
  }

  lemma EvictedTwice(m: Entries, now: SystemTime)
    ensures Evicted(Evicted(m, now), now) == Evicted(m, now)
  {}

  method VerifyCredential(policy: Policy, credential: Credential, deadline: Deadline, contentType: ContentType,
                          now: SystemTime)
    returns (r: Result<BiscuitId, AuthError>)
    modifies policy.spent
    ensures (r, policy.spent.inner)
         == CredentialVerdict(policy.rules, old(policy.spent.inner), credential, deadline, contentType, now)
  {
    var rules := policy.rules;
    if !rules.hasRoots {
      return Err(TokenUnauthorized);
    }
    if rules.selfId.None? {
      return Err(TokenUnauthorized);
    }
    var facts := rules.library(Base64.Decode(credential).value);
    if facts.None? {
      return Err(TokenUnauthorized);
    }
    var checked := CheckFacts(facts.value, rules.selfId.value, deadline, contentType, now);
    if checked.Err? {
      return Err(TokenUnauthorized);
    }
    var (id, earliest) := checked.value;
    if facts.value.oneShot != [] {
      EvictedTwice(policy.spent.inner, now);
      var spent := policy.spent.Contains(id, now);
      if spent {
        return Err(TokenUnauthorized);
      }
      var won := policy.spent.TrySpend(id, earliest, now);
      if !won {
        return Err(TokenUnauthorized);
      }
    }
    r := Ok(id);
  }

  /** Only a Submit can be decided about at all. */
  lemma OthersAreNotSubmits(rules: Rules, live: Entries, header: Message, peer: NodeId, now: SystemTime)
    ensures Verdict(rules, live, header, peer, now).0 == Err(NotSubmit) <==> !header.Submit?
    ensures !header.Submit? ==> Verdict(rules, live, header, peer, now).1 == live
  {}

  /** A header-only Submit awaiting authorization. */
  datatype UnverifiedSubmit = UnverifiedSubmit(message: Message)

  function FromHeader(message: Message): Result<UnverifiedSubmit, AuthError> {
    if !message.Submit? then Err(NotSubmit)
    else if message.body != [] then Err(NotHeaderOnly)
    else Ok(UnverifiedSubmit(message))
  }

  lemma FromHeaderExactly(message: Message)
    ensures FromHeader(message) == Ok(UnverifiedSubmit(message)) <==> message.Submit? && message.body == []
    ensures FromHeader(message) == Err(NotSubmit) <==> !message.Submit?
    ensures FromHeader(message) == Err(NotHeaderOnly) <==> message.Submit? && message.body != []
  {}

  /** A Submit that passed `Verify`, with the rule that admitted it. */
  datatype AuthorizedSubmit = AuthorizedSubmit(rule: AuthRule, message: Message) {
    function WithBody(body: seq<byte>): AuthorizedSubmit {
      if message.Submit? then this.(message := message.(body := body)) else this
    }
  }

  method Verify(submit: UnverifiedSubmit, policy: Policy, peer: NodeId, now: SystemTime)
    returns (r: Result<AuthorizedSubmit, AuthError>)
    modifies policy.spent
    ensures var (verdict, live) := Verdict(policy.rules, old(policy.spent.inner), submit.message, peer, now);
            && policy.spent.inner == live
            && r == match verdict case Ok(rule) => Ok(AuthorizedSubmit(rule, submit.message)) case Err(e) => Err(e)
  {
    var message := submit.message;
    if !message.Submit? {
      return Err(NotSubmit);
    }
    if peer in policy.rules.allowlist {
      return Ok(AuthorizedSubmit(Allowlist, message));
    }
    if message.credential.Some? {
      var id := VerifyCredential(policy, message.credential.value, message.deadline, message.contentType, now);
      if id.Err? {
        return Err(id.error);
      }
      return Ok(AuthorizedSubmit(Token(id.value), message));
    }
    r := Err(Denied(peer));
  }

  // ----- what the decision means -----

  predicate Among(a: seq<Fact>, b: seq<Fact>) {
    forall i :: 0 <= i < |a| ==> a[i] in b
  }

  /** `f` says nothing that `g` does not say, about the same token. */
  predicate SaysLess(f: TokenFacts, g: TokenFacts) {
    && Among(f.callees, g.callees) && Among(f.expires, g.expires)
    && Among(f.maxDeadlines, g.maxDeadlines) && Among(f.contentTypes, g.contentTypes)
    && Among(f.oneShot, g.oneShot)
    && f.revocationIds == g.revocationIds
  }

  /** Accepted on these facts with these live entries. */
  predicate Accepted(facts: TokenFacts, live: Entries, selfId: NodeId, deadline: Deadline, contentType: ContentType,
                     now: SystemTime)
  {
    && FactsHold(facts, selfId, deadline, contentType, now)
    && (facts.oneShot == [] || BiscuitIdOf(facts.revocationIds[0]) !in Evicted(live, now))
  }

  /**
   The decision: an allowlisted peer is admitted whatever credential it shows; any other peer exactly
   with a token that is accepted; a peer without a credential is denied by name. The spent set only
   changes for a one-shot token whose facts hold, and an admitted one is then in it.
   */
  lemma VerdictExactly(rules: Rules, live: Entries, header: Message, peer: NodeId, now: SystemTime)
    requires header.Submit?
    ensures var (verdict, live') := Verdict(rules, live, header, peer, now);
            var facts := if header.credential.Some? then FactsOf(rules, header.credential.value) else None;
            var token := && peer !in rules.allowlist && facts.Some?
                         && Accepted(facts.value, live, rules.selfId.value, header.deadline, header.contentType, now);
            && (verdict == Ok(Allowlist) <==> peer in rules.allowlist)
            && (verdict.Ok? && verdict.value.Token? <==> token)
            && (token ==> verdict == Ok(Token(BiscuitIdOf(facts.value.revocationIds[0]))))
            && (verdict.Err? ==> verdict.error == Denied(peer) || verdict.error == TokenUnauthorized)
            && (verdict == Err(Denied(peer)) <==> peer !in rules.allowlist && header.credential.None?)
            && (token && facts.value.oneShot != [] ==>
                  live' ==
                  Evicted(live, now)[BiscuitIdOf(facts.value.revocationIds[0]) := Earliest(facts.value.expires)])
            && (peer in rules.allowlist || facts.None? || facts.value.oneShot == [] ==> live' == live)
            && (live' == live || Evicted(live, now) == live' || token)
  {}

  /**
   Facts only restrict: whatever a token is accepted with, it is accepted with fewer facts too, as
   long as it still names a callee and an expiry; and more facts never expire later.
   */
  lemma FewerFactsAcceptMore(f: TokenFacts, g: TokenFacts, live: Entries, selfId: NodeId, deadline: Deadline,
                             contentType: ContentType, now: SystemTime)
    requires SaysLess(f, g) && f.callees != [] && f.expires != []
    ensures Accepted(g, live, selfId, deadline, contentType, now) ==>
            Accepted(f, live, selfId, deadline, contentType, now)
    ensures g.expires != [] && Earliest(g.expires) <= Earliest(f.expires)
  {
    assert f.expires[0] in g.expires;
    EarliestIsLeast(f.expires);
    EarliestIsLeast(g.expires);
    var i :| 0 <= i < |f.expires| && Earliest(f.expires) == ExpiryOf(f.expires[i]);
    assert f.expires[i] in g.expires;
    if f.oneShot != [] {
      assert f.oneShot[0] in g.oneShot;
    }
  }

  /**
   The whole-second expiry test and the exact retention test of the spent set agree, except for an
   expiry at the epoch itself checked before the epoch.
   */
  lemma SecondsAgreeWithRetention(seconds: nat, now: SystemTime)
    ensures (seconds > NowSecs(now) <==> seconds * SECOND > now) <==> now >= 0 || seconds > 0
  {}

  /** A token whose facts hold is not yet due for eviction, and one due for eviction no longer holds. */
  lemma HoldsOnlyWhileRetained(facts: TokenFacts, selfId: NodeId, deadline: Deadline, contentType: ContentType,
                               now: SystemTime)
    requires facts.expires != []
    ensures FactsHold(facts, selfId, deadline, contentType, now) ==> now < Earliest(facts.expires)
    ensures now >= 0 && (forall i :: 0 <= i < |facts.expires| ==> IsDate(facts.expires[i])) ==>
            (now < Earliest(facts.expires) <==>
             forall i :: 0 <= i < |facts.expires| ==> ExpiresFactHolds(facts.expires[i], now))
  {
    EarliestIsLeast(facts.expires);
    forall i | 0 <= i < |facts.expires| && IsDate(facts.expires[i])
      ensures ExpiresFactHolds(facts.expires[i], now) ==> now < ExpiryOf(facts.expires[i])
      ensures now >= 0 && now < ExpiryOf(facts.expires[i]) ==> ExpiresFactHolds(facts.expires[i], now)
    {
      SecondsAgreeWithRetention(facts.expires[i].terms[0].seconds, now);
    }
  }

  // ----- one-shot tokens over whole runs of decisions -----

  datatype Call = Call(credential: Credential, deadline: Deadline, contentType: ContentType, now: SystemTime)

  function LiveAfter(rules: Rules, live: Entries, calls: seq<Call>): Entries {
    if calls == [] then live
    else
      var before := LiveAfter(rules, live, calls[..|calls| - 1]);
      var c := calls[|calls| - 1];
      CredentialVerdict(rules, before, c.credential, c.deadline, c.contentType, c.now).1
  }

  function VerdictAt(rules: Rules, live: Entries, calls: seq<Call>, k: nat): Result<BiscuitId, AuthError>
    requires k < |calls|
  {
    var c := calls[k];
    CredentialVerdict(rules, LiveAfter(rules, live, calls[..k]), c.credential, c.deadline, c.contentType, c.now).0
  }

  predicate IsOneShot(rules: Rules, credential: Credential) {
    FactsOf(rules, credential).Some? && FactsOf(rules, credential).value.oneShot != []
  }

  lemma VerdictKeepsEntry(rules: Rules, live: Entries, c: Call, id: BiscuitId)
    requires id in live && c.now < live[id]
    ensures var m := CredentialVerdict(rules, live, c.credential, c.deadline, c.contentType, c.now).1;
            id in m && m[id] == live[id]
  {}

  /** An entry stays while the clock is below it. */
  lemma {:induction false} EntryStays(rules: Rules, live: Entries, calls: seq<Call>, n: nat, id: BiscuitId,
                                      expires: SystemTime)
    requires n <= |calls|
    requires var m := LiveAfter(rules, live, calls[..n]); id in m && m[id] == expires
    requires forall j :: n <= j < |calls| ==> calls[j].now < expires
    ensures var m := LiveAfter(rules, live, calls); id in m && m[id] == expires
    decreases |calls|
  {
    if n == |calls| {
      assert calls[..n] == calls;
    } else {
      var last := |calls| - 1;
      assert calls[..last][..n] == calls[..n];
      assert forall j :: n <= j < last ==> calls[..last][j] == calls[j];
      EntryStays(rules, live, calls[..last], n, id, expires);
      VerdictKeepsEntry(rules, LiveAfter(rules, live, calls[..last]), calls[last], id);
    }
  }

  /** What a decision does to the spent set. */
  function OpOf(rules: Rules, c: Call): SetOp {
    match FactsOf(rules, c.credential)
    case None => Skip
    case Some(facts) =>
      if !FactsHold(facts, rules.selfId.value, c.deadline, c.contentType, c.now) || facts.oneShot == [] then Skip
      else Spend(BiscuitIdOf(facts.revocationIds[0]), Earliest(facts.expires), c.now)
  }

  function OpsOf(rules: Rules, calls: seq<Call>): (ops: seq<SetOp>)
    ensures |ops| == |calls|
    ensures forall i :: 0 <= i < |calls| ==> ops[i] == OpOf(rules, calls[i])
  {
    seq(|calls|, i requires 0 <= i < |calls| => OpOf(rules, calls[i]))
  }

  lemma DecisionIsOp(rules: Rules, live: Entries, c: Call)
    ensures CredentialVerdict(rules, live, c.credential, c.deadline, c.contentType, c.now).1
         == AfterOp(live, OpOf(rules, c))
    ensures var r := CredentialVerdict(rules, live, c.credential, c.deadline, c.contentType, c.now).0;
            OpOf(rules, c).Spend? ==>
              if OpOf(rules, c).id in Evicted(live, c.now) then r == Err(TokenUnauthorized)
              else r == Ok(OpOf(rules, c).id)
  {}

  /** Checking and spending inside one decision amount to the spend alone. */
  lemma {:induction false} DecisionsAreOps(rules: Rules, calls: seq<Call>)
    ensures LiveAfter(rules, map[], calls) == EntriesAfter(OpsOf(rules, calls))
    decreases |calls|
  {
    if calls != [] {
      var n := |calls| - 1;
      DecisionsAreOps(rules, calls[..n]);
      DecisionIsOp(rules, LiveAfter(rules, map[], calls[..n]), calls[n]);
      assert OpsOf(rules, calls)[..n] == OpsOf(rules, calls[..n]);
    }
  }

  lemma DecisionAdmits(rules: Rules, calls: seq<Call>, k: nat)
    requires k < |calls| && OpOf(rules, calls[k]).Spend?
    ensures VerdictAt(rules, map[], calls, k).Ok? <==> Admits(OpsOf(rules, calls), OpOf(rules, calls[k]).id, k)
    ensures VerdictAt(rules, map[], calls, k).Ok? ==> VerdictAt(rules, map[], calls, k) == Ok(OpOf(rules, calls[k]).id)
  {
    DecisionsAreOps(rules, calls[..k]);
    DecisionIsOp(rules, LiveAfter(rules, map[], calls[..k]), calls[k]);
    assert OpsOf(rules, calls)[..k] == OpsOf(rules, calls[..k]);
  }

  /** A one-shot token carrying the id was admitted by the i-th decision. */
  predicate UsedUp(rules: Rules, calls: seq<Call>, id: BiscuitId, i: nat) {
    && i < |calls| && OpOf(rules, calls[i]).Spend? && OpOf(rules, calls[i]).id == id
    && VerdictAt(rules, map[], calls, i).Ok?
  }

  /** The same for the operations that the decisions amount to. */
  lemma SpendAdmittedExactly(rules: Rules, calls: seq<Call>, k: nat)
    requires k < |calls| && OpOf(rules, calls[k]).Spend?
    ensures VerdictAt(rules, map[], calls, k).Ok? <==>
            forall i :: 0 <= i < k && UsedUp(rules, calls, OpOf(rules, calls[k]).id, i) ==>
              exists j :: i < j <= k && Reaches(OpOf(rules, calls[j]), OpOf(rules, calls[i]).expires)
  {
    var ops, id := OpsOf(rules, calls), OpOf(rules, calls[k]).id;
    DecisionAdmits(rules, calls, k);
    AdmittedExactly(ops, id, k);
    forall i | 0 <= i < k
      ensures Admits(ops, id, i) <==> UsedUp(rules, calls, id, i)
      ensures ops[i].Spend? ==>
                ((exists j :: i < j <= k && Reaches(ops[j], ops[i].expires)) <==>
                 exists j :: i < j <= k && Reaches(OpOf(rules, calls[j]), OpOf(rules, calls[i]).expires))
    {
      if OpOf(rules, calls[i]).Spend? {
        DecisionAdmits(rules, calls, i);
      }
      if ops[i].Spend? {
        forall j | i < j <= k
          ensures Reaches(ops[j], ops[i].expires) <==> Reaches(OpOf(rules, calls[j]), OpOf(rules, calls[i]).expires)
        {}
      }
    }
  }

  /** A call with a one-shot token whose facts hold. */
  predicate OneShotHolds(rules: Rules, c: Call) {
    && IsOneShot(rules, c.credential)
    && FactsHold(FactsOf(rules, c.credential).value, rules.selfId.value, c.deadline, c.contentType, c.now)
  }

  function RevocationId(rules: Rules, c: Call): seq<byte>
    requires OneShotHolds(rules, c)
  {
    FactsOf(rules, c.credential).value.revocationIds[0]
  }

  /** At this call some expiry of the other call's token has been reached. */
  predicate Outlives(rules: Rules, c: Call, other: Call)
    requires OneShotHolds(rules, other)
  {
    var expires := FactsOf(rules, other.credential).value.expires;
    OneShotHolds(rules, c) && exists i :: 0 <= i < |expires| && c.now >= ExpiryOf(expires[i])
  }

  lemma OutlivesExactly(rules: Rules, c: Call, other: Call)
    requires OneShotHolds(rules, other)
    ensures Outlives(rules, c, other) <==> Reaches(OpOf(rules, c), OpOf(rules, other).expires)
  {
    var expires := FactsOf(rules, other.credential).value.expires;
    EarliestIsLeast(expires);
    if Reaches(OpOf(rules, c), OpOf(rules, other).expires) {
      var i :| 0 <= i < |expires| && Earliest(expires) == ExpiryOf(expires[i]);
      assert c.now >= ExpiryOf(expires[i]);
    }
  }

  /**
   From an empty set, with any tokens and any clocks: a one-shot token whose facts hold is admitted exactly
   when, for every earlier one that was admitted and whose revocation identifier agrees with it on the first
   32 bytes, some call with a one-shot token since then came when an expiry of that earlier one had passed.
   Its id is then those bytes.
   */
  lemma OneShotAdmittedExactly(rules: Rules, calls: seq<Call>, k: nat)
    requires k < |calls| && OneShotHolds(rules, calls[k])
    ensures VerdictAt(rules, map[], calls, k).Ok? <==>
            forall i :: 0 <= i < k && OneShotHolds(rules, calls[i]) && VerdictAt(rules, map[], calls, i).Ok?
                        && SameToken(RevocationId(rules, calls[i]), RevocationId(rules, calls[k])) ==>
              exists j :: i < j <= k && Outlives(rules, calls[j], calls[i])
    ensures VerdictAt(rules, map[], calls, k).Ok? ==>
              forall b :: 0 <= b < 32 ==>
                VerdictAt(rules, map[], calls, k).value[b] == PaddedByte(RevocationId(rules, calls[k]), b)
  {
    var id := OpOf(rules, calls[k]).id;
    SpendAdmittedExactly(rules, calls, k);
    forall i | 0 <= i < k
      ensures UsedUp(rules, calls, id, i) <==>
              && OneShotHolds(rules, calls[i]) && VerdictAt(rules, map[], calls, i).Ok?
              && SameToken(RevocationId(rules, calls[i]), RevocationId(rules, calls[k]))
      ensures OneShotHolds(rules, calls[i]) ==>
                ((exists j :: i < j <= k && Reaches(OpOf(rules, calls[j]), OpOf(rules, calls[i]).expires)) <==>
                 exists j :: i < j <= k && Outlives(rules, calls[j], calls[i]))
    {
      if OneShotHolds(rules, calls[i]) {
        SameTokenExactly(RevocationId(rules, calls[i]), RevocationId(rules, calls[k]));
        forall j | i < j <= k
          ensures Outlives(rules, calls[j], calls[i]) <==> Reaches(OpOf(rules, calls[j]), OpOf(rules, calls[i]).expires)
        {
          OutlivesExactly(rules, calls[j], calls[i]);
        }
      }
    }
    DecisionAdmits(rules, calls, k);
    BiscuitIdExactly(RevocationId(rules, calls[k]));
  }

  /** One id is admitted twice exactly when it is outlived: offered again once its first expiry has been reached. */
  lemma OneShotTwiceExactly(rules: Rules, calls: seq<Call>, id: BiscuitId)
    ensures (exists i, k :: 0 <= i < k && UsedUp(rules, calls, id, i) && UsedUp(rules, calls, id, k)) <==>
            Outlived(OpsOf(rules, calls), id)
  {
    var ops := OpsOf(rules, calls);
    ReplayExactly(ops, id);
    forall i: nat ensures Admits(ops, id, i) <==> UsedUp(rules, calls, id, i) {
      if i < |calls| && OpOf(rules, calls[i]).Spend? {
        DecisionAdmits(rules, calls, i);
      }
    }
  }

  // The holder of a token can add a block with a shorter expiry, which leaves the id as it is.

  const CALLEE_ANY: NodeId := seq(32, i => 0)

  function OneShotFacts(expires: seq<nat>): TokenFacts {
    TokenFacts([Fact([Bytes(CALLEE_ANY)])], seq(|expires|, i requires 0 <= i < |expires| => Fact([Date(expires[i])])),
               [], [], [Fact([])], [seq(32, i => 0)])
  }

  lemma OneShotFactsSpend(rules: Rules, c: Call, expires: seq<nat>)
    requires rules.selfId == Some(CALLEE_ANY) && c.deadline == 0 && c.contentType == []
    requires FactsOf(rules, c.credential) == Some(OneShotFacts(expires))
    requires expires != [] && forall i :: 0 <= i < |expires| ==> NowSecs(c.now) < expires[i]
    ensures OpOf(rules, c) == Spend(BiscuitIdOf(seq(32, i => 0)), Earliest(OneShotFacts(expires).expires), c.now)
  {}

  lemma EarliestOfTwo(a: nat, b: nat)
    requires b <= a
    ensures Earliest(OneShotFacts([a, b]).expires) == b * SECOND
  {
    var expires := OneShotFacts([a, b]).expires;
    EarliestNext(expires, 1);
    EarliestNext(expires, 0);
    assert expires[..2] == expires;
  }

  lemma SpentTwice(rules: Rules, calls: seq<Call>)
    requires |calls| == 2 && OpOf(rules, calls[0]).Spend? && OpOf(rules, calls[1]).Spend?
    requires OpOf(rules, calls[0]).id == OpOf(rules, calls[1]).id && OpOf(rules, calls[0]).expires <= calls[1].now
    ensures VerdictAt(rules, map[], calls, 0).Ok?
    ensures VerdictAt(rules, map[], calls, 1) == VerdictAt(rules, map[], calls, 0)
  {
    SpendAdmittedExactly(rules, calls, 0);
    assert Reaches(OpOf(rules, calls[1]), OpOf(rules, calls[0]).expires);
    SpendAdmittedExactly(rules, calls, 1);
    DecisionAdmits(rules, calls, 0);
    DecisionAdmits(rules, calls, 1);
  }

  /**
   A replay under a clock that only goes forward: a token restricted to ten seconds is used at five, and
   the token it was made from, which lives for a thousand, is admitted again at twenty.
   */
  lemma RestrictedTokenReplays(rules: Rules, restricted: Credential, original: Credential)
    requires rules.selfId == Some(CALLEE_ANY)
    requires FactsOf(rules, restricted) == Some(OneShotFacts([1000, 10]))
    requires FactsOf(rules, original) == Some(OneShotFacts([1000]))
    ensures var calls := [Call(restricted, 0, [], 5 * SECOND), Call(original, 0, [], 20 * SECOND)];
            && VerdictAt(rules, map[], calls, 0).Ok?
            && VerdictAt(rules, map[], calls, 1) == VerdictAt(rules, map[], calls, 0)
  {
    var calls := [Call(restricted, 0, [], 5 * SECOND), Call(original, 0, [], 20 * SECOND)];
    OneShotFactsSpend(rules, calls[0], [1000, 10]);
    OneShotFactsSpend(rules, calls[1], [1000]);
    EarliestOfTwo(1000, 10);
    SpentTwice(rules, calls);
  }

  function RestrictedOrNot(raw: seq<byte>): Option<TokenFacts> {
    Some(OneShotFacts(if raw == [1] then [1000, 10] else [1000]))
  }

  /** Such rules and credentials exist. */
  lemma RestrictedTokensExist() returns (rules: Rules, restricted: Credential, original: Credential)
    ensures rules.selfId == Some(CALLEE_ANY)
    ensures FactsOf(rules, restricted) == Some(OneShotFacts([1000, 10]))
    ensures FactsOf(rules, original) == Some(OneShotFacts([1000]))
  {
    rules := Rules({}, true, Some(CALLEE_ANY), RestrictedOrNot);
    restricted := CredentialOf([1]);
    original := CredentialOf([2]);
  }

  lemma CredentialOf(raw: seq<byte>) returns (c: Credential)
    requires |raw| <= MAX_CREDENTIAL_DECODED_LEN
    ensures Base64.Decode(c) == Some(raw)
  {
    Base64.DecodeEncode(raw);
    c := Base64.Encode(raw);
  }

  /**
   No replay within a running node, from any live entries: after a one-shot token is admitted, its id
   is refused for as long as no decision is made at or after the token's earliest expiry.
   */
  lemma OneShotAdmittedOnce(rules: Rules, live: Entries, calls: seq<Call>, i: nat, k: nat)
    requires i < k < |calls|
    requires VerdictAt(rules, live, calls, i).Ok? && IsOneShot(rules, calls[i].credential)
    requires forall j :: i < j <= k ==> calls[j].now < Earliest(FactsOf(rules, calls[i].credential).value.expires)
    requires IsOneShot(rules, calls[k].credential)
    ensures VerdictAt(rules, live, calls, k) != VerdictAt(rules, live, calls, i)
  {
    var first := FactsOf(rules, calls[i].credential).value;
    var id := BiscuitIdOf(first.revocationIds[0]);
    var expires := Earliest(first.expires);
    assert calls[..i + 1][..i] == calls[..i];
    var after := LiveAfter(rules, live, calls[..i + 1]);
    assert id in after && after[id] == expires;
    assert calls[..k][..i + 1] == calls[..i + 1];
    EntryStays(rules, live, calls[..k], i + 1, id, expires);
  }

  /** In particular when both tokens expire together and the clock does not go backwards from one to the other. */
  lemma SameExpiryAdmittedOnce(rules: Rules, live: Entries, calls: seq<Call>, i: nat, k: nat)
    requires i < k < |calls|
    requires forall j :: i <= j < k ==> calls[j].now <= calls[k].now
    requires VerdictAt(rules, live, calls, i).Ok? && IsOneShot(rules, calls[i].credential)
    requires IsOneShot(rules, calls[k].credential) && FactsOf(rules, calls[k].credential).value.expires != []
    requires Earliest(FactsOf(rules, calls[k].credential).value.expires)
          == Earliest(FactsOf(rules, calls[i].credential).value.expires)
    ensures VerdictAt(rules, live, calls, k) != VerdictAt(rules, live, calls, i)
  {
    if VerdictAt(rules, live, calls, k).Ok? {
      var second := FactsOf(rules, calls[k].credential).value;
      HoldsOnlyWhileRetained(second, rules.selfId.value, calls[k].deadline, calls[k].contentType, calls[k].now);
      OneShotAdmittedOnce(rules, live, calls, i, k);
    }
  }
}
