/** The error types of the codec, the frame reader and the call drivers, with their mapping to close codes. */
module CallErrors {
  import opened Bytes
  import opened WireTypes

  datatype CodecError =
    | FrameTooLarge | Truncated | BadLength | MalformedHeader | HeaderTooLarge | EncodeTooLarge | SubmitDenied

  function CodecCloseCode(e: CodecError): Option<CloseCode> {
    match e
    case FrameTooLarge => Some(CloseCode.FrameTooLarge)
    case MalformedHeader | BadLength | Truncated => Some(MalformedFrame)
    case HeaderTooLarge | EncodeTooLarge | SubmitDenied => None
  }

  datatype FrameIoError =
    | Codec(error: CodecError)
    | Read(finishedEarly: bool)
    | Write
    | UnexpectedEnd

  function FrameCloseCode(e: FrameIoError): Option<CloseCode> {
    match e
    case Codec(error) => CodecCloseCode(error)
    case Read(finishedEarly) => if finishedEarly then Some(MalformedFrame) else None
    case UnexpectedEnd => Some(MalformedFrame)
    case Write => None
  }

  datatype CallError =
    | StreamSetup
    | Frame(error: FrameIoError)
    | IllegalTransition
    | NotAuthorized
    | Cancelled
    | Connection
    | NetworkTimeout

  /** The audit outcome of a call that ended in an error. */
  function OutcomeFromCallError(e: CallError): Outcome {
    match e
    case Cancelled => Outcome.Canceled
    case NotAuthorized => Outcome.Failed(Unauthorized)
    case NetworkTimeout => Closed(CloseCode.Timeout)
    case IllegalTransition => Closed(ProtocolViolation)
    case Frame(fe) =>
      (match FrameCloseCode(fe)
       case Some(code) => Closed(code)
       case None =>
         match fe
         case UnexpectedEnd | Read(_) | Write => PeerLost
         case _ => Closed(ProtocolViolation))
    case StreamSetup | Connection => PeerLost
  }

  /** What an error's outcome gives away: no error reads as success, and each kind of outcome has one kind of cause. */
  lemma ErrorOutcomesExplained(e: CallError)
    ensures var o := OutcomeFromCallError(e);
            && !o.Completed?
            && (o == Outcome.Canceled <==> e == Cancelled)
            && (o.Failed? <==> e == NotAuthorized)
            && (o == Closed(CloseCode.Timeout) <==> e == NetworkTimeout)
            && (o == PeerLost <==>
                  e.StreamSetup? || e.Connection? || e == Frame(Write) || e == Frame(Read(false)))
            && o != Closed(Normal) && o != Closed(CloseCode.RateLimited)
            && (o == Closed(CloseCode.FrameTooLarge) <==> e == Frame(Codec(CodecError.FrameTooLarge)))
            && (o == Closed(MalformedFrame) <==>
                  || e == Frame(Codec(Truncated)) || e == Frame(Codec(BadLength)) || e == Frame(Codec(MalformedHeader))
                  || e == Frame(UnexpectedEnd) || e == Frame(Read(true)))
            && (o == Closed(ProtocolViolation) <==>
                  || e == IllegalTransition
                  || e == Frame(Codec(HeaderTooLarge)) || e == Frame(Codec(EncodeTooLarge))
                  || e == Frame(Codec(SubmitDenied)))
            && (o.Failed? ==> o.code == Unauthorized)
  {}
}
