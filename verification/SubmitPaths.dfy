/**
 The two ways a Submit frame is admitted: decoding with the policy as authorizer, and splitting the
 frame, verifying the header and only then attaching the body.
 */
module SubmitPaths {
  import opened Bytes
  import opened WireTypes
  import opened CallErrors
  import opened MessageHeader
  import opened Codec
  import opened SpentSet
  import opened TokenPolicy

  datatype AdmitError = BadFrame(codec: CodecError) | Refused(auth: AuthError)

  // ----- decoding with the policy as authorizer -----

  function PolicyAllows(rules: Rules, live: Entries, header: Message, peer: NodeId, now: SystemTime): (bool, Entries) {
    match FromHeader(header)
    case Err(_) => (false, live)
    case Ok(unverified) =>
      var (verdict, live') := Verdict(rules, live, unverified.message, peer, now);
      (verdict.Ok?, live')
  }

  /** The authorizer allows exactly a bodiless Submit that the policy admits, and touches the set only for such. */
  lemma PolicyAllowsExactly(rules: Rules, live: Entries, header: Message, peer: NodeId, now: SystemTime)
    ensures var (allowed, live') := PolicyAllows(rules, live, header, peer, now);
            var (verdict, after) := Verdict(rules, live, header, peer, now);
            && (allowed <==> header.Submit? && header.body == [] && verdict.Ok?)
            && live' == if header.Submit? && header.body == [] then after else live
  {
    FromHeaderExactly(header);
  }

  function PolicyDecoded(buf: seq<byte>, rules: Rules, live: Entries, peer: NodeId, now: SystemTime):
    (Result<Message, CodecError>, Entries)
  {
    match DecodeParts(buf)
    case Err(e) => (Err(e), live)
    case Ok((header, body)) =>
      if header.Submit? then
        var (allowed, live') := PolicyAllows(rules, live, header, peer, now);
        (Finished(header, body, allowed), live')
      else (Finished(header, body, true), live)
  }

  method AuthorizeSubmit(policy: Policy, header: Message, peer: NodeId, now: SystemTime) returns (allowed: bool)
    modifies policy.spent
    ensures (allowed, policy.spent.inner) == PolicyAllows(policy.rules, old(policy.spent.inner), header, peer, now)
  {
    var unverified := FromHeader(header);
    if unverified.Err? {
      return false;
    }
    var verified := Verify(unverified.value, policy, peer, now);
    allowed := verified.Ok?;
  }

  /** `decode` with the policy's authorizer. */
  method DecodeWithPolicy(buf: seq<byte>, policy: Policy, peer: NodeId, now: SystemTime)
    returns (r: Result<Message, CodecError>)
    modifies policy.spent
    ensures (r, policy.spent.inner) == PolicyDecoded(buf, policy.rules, old(policy.spent.inner), peer, now)
  {
    var parts := DecodeParts(buf);
    if parts.Err? {
      return Err(parts.error);
    }
    var (message, body) := parts.value;
    if message.Submit? {
      var allowed := AuthorizeSubmit(policy, message, peer, now);
      if !allowed {
        return Err(SubmitDenied);
      }
      message := SetBody(message, body);
    } else if message.Input? || message.Completed? {
      message := SetBody(message, body);
    } else if body != [] {
      return Err(BadLength);
    }
    r := Ok(message);
  }

  // ----- splitting, verifying, then attaching the body -----

  function SplitAdmitted(buf: seq<byte>, rules: Rules, live: Entries, peer: NodeId, now: SystemTime):
    (Result<AuthorizedSubmit, AdmitError>, Entries)
  {
    match SplitFrame(buf)
    case Err(e) => (Err(BadFrame(e)), live)
    case Ok((header, body)) =>
      match FromHeader(header)
      case Err(e) => (Err(Refused(e)), live)
      case Ok(unverified) =>
        var (verdict, live') := Verdict(rules, live, unverified.message, peer, now);
        (match verdict
         case Err(e) => Err(Refused(e))
         case Ok(rule) => Ok(AuthorizedSubmit(rule, unverified.message).WithBody(body)),
         live')
  }

  /** What the callee does with the first frame of a call. */
  method AdmitFrame(frame: seq<byte>, policy: Policy, peer: NodeId, now: SystemTime)
    returns (r: Result<AuthorizedSubmit, AdmitError>)
    modifies policy.spent
    ensures (r, policy.spent.inner) == SplitAdmitted(frame, policy.rules, old(policy.spent.inner), peer, now)
  {
    var parts := SplitFrame(frame);
    if parts.Err? {
      return Err(BadFrame(parts.error));
    }
    var (header, body) := parts.value;
    var unverified := FromHeader(header);
    if unverified.Err? {
      return Err(Refused(unverified.error));
    }
    var verified := Verify(unverified.value, policy, peer, now);
    if verified.Err? {
      return Err(Refused(verified.error));
    }
    r := Ok(verified.value.WithBody(body));
  }

  /** Which error refuses a frame, and what admits it: the frame's, the header's, or the verdict's. */
  lemma FrameAdmittedExactly(buf: seq<byte>, rules: Rules, live: Entries, peer: NodeId, now: SystemTime)
    ensures var (admitted, after) := SplitAdmitted(buf, rules, live, peer, now);
            match DecodeParts(buf)
            case Err(e) => admitted == Err(BadFrame(e)) && after == live
            case Ok((header, body)) =>
              if !header.Submit? then admitted == Err(Refused(NotSubmit)) && after == live
              else
                var (verdict, live') := Verdict(rules, live, header, peer, now);
                && after == live'
                && (forall e :: admitted == Err(Refused(e)) <==> verdict == Err(e))
                && (forall e :: admitted != Err(BadFrame(e)))
                && (forall rule :: admitted == Ok(AuthorizedSubmit(rule, SetBody(header, body))) <==>
                      verdict == Ok(rule))
  {
    BodyComesLast(buf, ALLOW_ALL);
  }

  // ----- they agree -----

  /**
   For every byte string that carries a Submit header, one path admits exactly when the other does,
   with the same final message, and both leave the spent set alike. For every other byte string
   neither touches the spent set, and the second never admits.
   */
  lemma PathsAgree(buf: seq<byte>, rules: Rules, live: Entries, peer: NodeId, now: SystemTime)
    ensures var (decoded, after) := PolicyDecoded(buf, rules, live, peer, now);
            var (admitted, after') := SplitAdmitted(buf, rules, live, peer, now);
            && after == after'
            && (admitted.Ok? <==> decoded.Ok? && decoded.value.Submit?)
            && (admitted.Ok? ==> admitted.value.message == decoded.value)
            && (!(DecodeParts(buf).Ok? && DecodeParts(buf).value.0.Submit?) ==> after == live && admitted.Err?)
  {
    BodyComesLast(buf, ALLOW_ALL);
  }

  /** A denied Submit is reported as such and as nothing else, and then nothing of its body was taken. */
  lemma DeniedExactly(buf: seq<byte>, rules: Rules, live: Entries, peer: NodeId, now: SystemTime)
    ensures PolicyDecoded(buf, rules, live, peer, now).0 == Err(SubmitDenied) <==>
            && DecodeParts(buf).Ok? && DecodeParts(buf).value.0.Submit?
            && Verdict(rules, live, DecodeParts(buf).value.0, peer, now).0.Err?
    ensures DecodeParts(buf).Ok? ==> MessageBody(DecodeParts(buf).value.0) == []
  {
    BodyComesLast(buf, ALLOW_ALL);
    if SplitLengths(buf).Ok? {
      HeaderErrorsOnly(buf);
    }
  }

  lemma HeaderErrorsOnly(buf: seq<byte>)
    ensures DecodeParts(buf) != Err(SubmitDenied)
  {}

  /** The body never decides: frames with the same header and different bodies get the same decision. */
  lemma BodyNeverDecides(header: seq<byte>, body: seq<byte>, other: seq<byte>, rules: Rules, live: Entries,
                         peer: NodeId, now: SystemTime)
    requires Framed(header, body).Ok? && Framed(header, other).Ok?
    requires ReadHeader(header).Some? && ReadHeader(header).value.Submit?
    ensures var a := SplitAdmitted(Framed(header, body).value, rules, live, peer, now);
            var b := SplitAdmitted(Framed(header, other).value, rules, live, peer, now);
            && a.1 == b.1
            && (a.0.Ok? <==> b.0.Ok?)
            && (a.0.Ok? ==> a.0.value.rule == b.0.value.rule && b.0.value == a.0.value.WithBody(other))
            && (a.0.Err? ==> a.0 == b.0)
  {
    FramedShape(header, body, []);
    FramedShape(header, other, []);
    assert Framed(header, body).value + [] == Framed(header, body).value;
    assert Framed(header, other).value + [] == Framed(header, other).value;
  }
}
