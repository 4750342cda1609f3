/** Reading and writing frames on a byte stream. */
module FrameIo {
  import opened Bytes
  import opened WireTypes
  import opened CallErrors
  import opened Codec
  import opened MessageHeader

  /** A receive stream: the bytes still to come, and whether it then breaks instead of finishing. */
  class RecvStream {
    var pending: seq<byte>
    const breaks: bool

    constructor (pending: seq<byte>, breaks: bool)
      ensures this.pending == pending && this.breaks == breaks
    {
      this.pending := pending;
      this.breaks := breaks;
    }

    method ReadExact(n: nat) returns (r: Result<seq<byte>, FrameIoError>)
      modifies this
      ensures if n <= |old(pending)| then r == Ok(old(pending)[..n]) && pending == old(pending)[n..]
              else r == Err(StreamEnd(breaks)) && pending == []
    {
      if n <= |pending| {
        r := Ok(pending[..n]);
        pending := pending[n..];
      } else {
        r := Err(StreamEnd(breaks));
        pending := [];
      }
    }
  }

  class SendStream {
    var written: seq<byte>

    constructor ()
      ensures written == []
    {
      written := [];
    }

    method WriteAll(bytes: seq<byte>, accepts: bool) returns (r: Result<(), FrameIoError>)
      modifies this
      ensures r == if accepts then Ok(()) else Err(Write)
      ensures written == if accepts then old(written) + bytes else old(written)
    {
      if !accepts {
        return Err(Write);
      }
      written := written + bytes;
      r := Ok(());
    }
  }

  /** How a stream that ends inside a frame is reported. */
  function StreamEnd(breaks: bool): FrameIoError {
    if breaks then Read(false) else UnexpectedEnd
  }

  /** One frame off the front of a stream, and what is left. */
  function FrameRead(bytes: seq<byte>, breaks: bool): (Result<seq<byte>, FrameIoError>, seq<byte>) {
    if |bytes| < 4 then (Err(StreamEnd(breaks)), [])
    else
      var len := U32Value(bytes[0], bytes[1], bytes[2], bytes[3]);
      if len > MAX_FRAME then (Err(FrameIoError.Codec(CodecError.FrameTooLarge)), bytes[4..])
      else if |bytes| < 4 + len then (Err(StreamEnd(breaks)), [])
      else (Ok(bytes[..4 + len]), bytes[4 + len..])
  }

  /**
   What reading one frame comes to on every stream: a length field above 64 KiB is refused as soon as its four
   bytes are taken, a frame names its own size, and a stream that ends within it is used up.
   */
  predicate TakesOneFrame(b: seq<byte>, breaks: bool, r: Result<seq<byte>, FrameIoError>, rest: seq<byte>) {
    var n: seq<int> := b;
    var len: nat := if |b| < 4 then 0 else n[0] * 16_777_216 + n[1] * 65_536 + n[2] * 256 + n[3];
    && (r == Err(FrameIoError.Codec(CodecError.FrameTooLarge)) <==> len > 65_536)
    && (len > 65_536 ==> rest == b[4..])
    && (r.Ok? <==> |b| >= 4 && len <= 65_536 && 4 + len <= |b|)
    && (r.Ok? ==> r.value == b[..4 + len] && rest == b[4 + len..])
    && (|b| < 4 || (len <= 65_536 && 4 + len > |b|) ==>
          r == Err(if breaks then Read(false) else UnexpectedEnd) && rest == [])
  }

  lemma FrameReadExactly(b: seq<byte>, breaks: bool)
    ensures var (r, rest) := FrameRead(b, breaks); TakesOneFrame(b, breaks, r, rest)
  {}

  method ReadFrame(recv: RecvStream) returns (r: Result<seq<byte>, FrameIoError>)
    modifies recv
    ensures (r, recv.pending) == FrameRead(old(recv.pending), recv.breaks)
    ensures TakesOneFrame(old(recv.pending), recv.breaks, r, recv.pending)
  {
    FrameReadExactly(recv.pending, recv.breaks);
    ghost var before := recv.pending;
    var lenBuf := recv.ReadExact(4);
    if lenBuf.Err? {
      return lenBuf;
    }
    var b := lenBuf.value;
    var len := U32Value(b[0], b[1], b[2], b[3]);
    if len > MAX_FRAME {
      return Err(FrameIoError.Codec(CodecError.FrameTooLarge));
    }
    var payload := recv.ReadExact(len);
    if payload.Err? {
      return payload;
    }
    assert before[..4] + before[4..][..len] == before[..4 + len];
    assert before[4..][len..] == before[4 + len..];
    r := Ok(b + payload.value);
  }

  function MessageRead(bytes: seq<byte>, breaks: bool): (Result<Message, FrameIoError>, seq<byte>) {
    var (frame, rest) := FrameRead(bytes, breaks);
    match frame
    case Err(e) => (Err(e), rest)
    case Ok(f) => (match Decoded(f, ALLOW_ALL) case Ok(m) => Ok(m) case Err(e) => Err(FrameIoError.Codec(e)), rest)
  }

  /**
   Reading a message fails with the stream, on an oversized frame or header length, on lengths that do not
   fit, or on a malformed header; never for truncation, since the frame it decodes is whole.
   */
  lemma MessageReadExactly(b: seq<byte>, breaks: bool)
    ensures var (r, rest) := MessageRead(b, breaks);
            var (frame, rest') := FrameRead(b, breaks);
            && rest == rest'
            && (forall m :: r == Ok(m) <==> frame.Ok? && Decoded(frame.value, ALLOW_ALL) == Ok(m))
            && (frame.Err? ==> r == Err(frame.error))
            && (frame.Ok? && r.Err? ==>
                  && r.error == FrameIoError.Codec(Decoded(frame.value, ALLOW_ALL).error)
                  && r.error.error in {CodecError.FrameTooLarge, BadLength, MalformedHeader})
  {
    var frame := FrameRead(b, breaks).0;
    FrameReadExactly(b, breaks);
    if frame.Ok? {
      SplitFailsExactly(frame.value);
      assert Arrived(frame.value);
      DecodedExactly(frame.value, ALLOW_ALL);
    }
  }

  method ReadMessage(recv: RecvStream) returns (r: Result<Message, FrameIoError>)
    modifies recv
    ensures (r, recv.pending) == MessageRead(old(recv.pending), recv.breaks)
  {
    var frame := ReadFrame(recv);
    match frame {
      case Err(e) => r := Err(e);
      case Ok(f) =>
        var decoded := Decoded(f, ALLOW_ALL);
        r := match decoded case Ok(m) => Ok(m) case Err(e) => Err(FrameIoError.Codec(e));
    }
  }

  /** `accepts` is whether the transport takes the bytes. */
  method WriteMessage(send: SendStream, message: Message, accepts: bool) returns (r: Result<(), FrameIoError>)
    modifies send
    ensures match Encoded(message)
            case Err(e) => r == Err(FrameIoError.Codec(e)) && send.written == old(send.written)
            case Ok(frame) =>
              if accepts then r == Ok(()) && send.written == old(send.written) + frame
              else r == Err(Write) && send.written == old(send.written)
  {
    var buf := new Buffer();
    var encoded := Encode(message, buf);
    if encoded.Err? {
      return Err(FrameIoError.Codec(encoded.error));
    }
    assert buf.bytes == Encoded(message).value;
    r := send.WriteAll(buf.bytes, accepts);
  }

  // ----- streams of messages -----

  function Concat(frames: seq<seq<byte>>): seq<byte> {
    if frames == [] then [] else frames[0] + Concat(frames[1..])
  }

  /** How many of the frames lie wholly within the first `n` bytes of their concatenation. */
  function WholeFrames(frames: seq<seq<byte>>, n: nat): (k: nat)
    ensures k <= |frames|
  {
    if frames == [] || n < |frames[0]| then 0 else 1 + WholeFrames(frames[1..], n - |frames[0]|)
  }

  /** `frames` are the frames of `ms`, one for one. */
  predicate FramesOf(ms: seq<Message>, frames: seq<seq<byte>>) {
    |frames| == |ms| && forall i :: 0 <= i < |ms| ==> Encoded(ms[i]) == Ok(frames[i])
  }

  type Reader = seq<byte> -> (Result<Message, FrameIoError>, seq<byte>)

  /** Reading until the stream ends or a read fails: the messages, and the failure if there was one. */
  function ReadAll(read: Reader, bytes: seq<byte>): (seq<Message>, Option<FrameIoError>)
    decreases |bytes|
  {
    if bytes == [] then ([], None)
    else
      var (m, rest) := read(bytes);
      match m
      case Err(e) => ([], Some(e))
      case Ok(msg) =>
        if |rest| >= |bytes| then ([msg], None)
        else var (later, end) := ReadAll(read, rest); ([msg] + later, end)
  }

  function MessageReader(breaks: bool): Reader {
    bytes => MessageRead(bytes, breaks)
  }

  /**
   A reader that takes exactly one message off its own frame, whatever follows, and reports a frame
   that stops short.
   */
  ghost predicate Delimits(read: Reader, m: Message, frame: seq<byte>, short: FrameIoError) {
    && frame != []
    && (forall rest :: read(frame + rest) == (Ok(m), rest))
    && (forall n :: 0 < n < |frame| ==> read(frame[..n]) == (Err(short), []))
  }

  lemma FrameLength(m: Message, frame: seq<byte>)
    requires Encoded(m) == Ok(frame)
    ensures 6 <= |frame| <= 4 + MAX_FRAME && U32Value(frame[0], frame[1], frame[2], frame[3]) == |frame| - 4
  {
    FramedShape(Header(m), MessageBody(m), []);
  }

  lemma FrameReadOf(frame: seq<byte>, rest: seq<byte>, breaks: bool)
    requires 6 <= |frame| <= 4 + MAX_FRAME && U32Value(frame[0], frame[1], frame[2], frame[3]) == |frame| - 4
    ensures FrameRead(frame + rest, breaks) == (Ok(frame), rest)
  {
    assert (frame + rest)[..|frame|] == frame && (frame + rest)[|frame|..] == rest;
  }

  /** One frame followed by anything: the message is read and exactly its frame is consumed. */
  lemma ReadEncoded(m: Message, frame: seq<byte>, rest: seq<byte>, breaks: bool)
    requires Encoded(m) == Ok(frame)
    ensures MessageRead(frame + rest, breaks) == (Ok(m), rest)
  {
    FrameLength(m, frame);
    FrameReadOf(frame, rest, breaks);
    DecodeEncode(m, []);
    assert frame + [] == frame;
  }

  lemma ShortRead(bytes: seq<byte>, breaks: bool)
    requires bytes != []
    requires |bytes| >= 4 ==> |bytes| - 4 < U32Value(bytes[0], bytes[1], bytes[2], bytes[3]) <= MAX_FRAME
    ensures MessageRead(bytes, breaks) == (Err(StreamEnd(breaks)), [])
  {}

  lemma ReadPrefix(frame: seq<byte>, n: nat, breaks: bool)
    requires 6 <= |frame| <= 4 + MAX_FRAME && U32Value(frame[0], frame[1], frame[2], frame[3]) == |frame| - 4
    requires 0 < n < |frame|
    ensures MessageRead(frame[..n], breaks) == (Err(StreamEnd(breaks)), [])
  {
    ShortRead(frame[..n], breaks);
  }

  lemma MessagesDelimit(m: Message, frame: seq<byte>, breaks: bool)
    requires Encoded(m) == Ok(frame)
    ensures Delimits(MessageReader(breaks), m, frame, StreamEnd(breaks))
  {
    FrameLength(m, frame);
    var read := MessageReader(breaks);
    forall rest ensures read(frame + rest) == (Ok(m), rest) {
      ReadEncoded(m, frame, rest, breaks);
    }
    forall n | 0 < n < |frame| ensures read(frame[..n]) == (Err(StreamEnd(breaks)), []) {
      ReadPrefix(frame, n, breaks);
    }
  }

  ghost predicate EachDelimits(read: Reader, ms: seq<Message>, frames: seq<seq<byte>>, short: FrameIoError) {
    && |frames| == |ms|
    && (ms != [] ==> Delimits(read, ms[0], frames[0], short) && EachDelimits(read, ms[1..], frames[1..], short))
  }

  lemma ConcatCons(frame: seq<byte>, frames: seq<seq<byte>>)
    ensures Concat([frame] + frames) == frame + Concat(frames)
  {
    assert ([frame] + frames)[1..] == frames;
  }

  /** The end of a read of `n` bytes: clean on a frame boundary, a failure inside a frame. */
  function EndAt(frames: seq<seq<byte>>, n: nat, short: FrameIoError): Option<FrameIoError> {
    if n == |Concat(frames[..WholeFrames(frames, n)])| then None else Some(short)
  }

  lemma EndAtCons(frame: seq<byte>, frames: seq<seq<byte>>, n: nat, short: FrameIoError)
    requires n >= |frame|
    ensures WholeFrames([frame] + frames, n) == 1 + WholeFrames(frames, n - |frame|)
    ensures EndAt([frame] + frames, n, short) == EndAt(frames, n - |frame|, short)
  {
    assert ([frame] + frames)[1..] == frames;
    var k := WholeFrames(frames, n - |frame|);
    assert ([frame] + frames)[..1 + k] == [frame] + frames[..k];
    ConcatCons(frame, frames[..k]);
  }

  lemma CutInside(read: Reader, m: Message, frame: seq<byte>, later: seq<seq<byte>>, n: nat, short: FrameIoError)
    requires Delimits(read, m, frame, short) && 0 < n < |frame|
    ensures ReadAll(read, Concat([frame] + later)[..n]) == ([], Some(short))
    ensures WholeFrames([frame] + later, n) == 0 && EndAt([frame] + later, n, short) == Some(short)
  {
    ConcatCons(frame, later);
    assert (frame + Concat(later))[..n] == frame[..n];
    assert ([frame] + later)[..0] == [];
  }

  lemma CutBeyond(read: Reader, m: Message, frame: seq<byte>, later: seq<seq<byte>>, n: nat, short: FrameIoError)
    requires Delimits(read, m, frame, short) && |frame| <= n <= |frame| + |Concat(later)|
    ensures var (ms, end) := ReadAll(read, Concat(later)[..n - |frame|]);
            ReadAll(read, Concat([frame] + later)[..n]) == ([m] + ms, end)
  {
    ConcatCons(frame, later);
    assert (frame + Concat(later))[..n] == frame + Concat(later)[..n - |frame|];
  }

  lemma PrefixCons<T>(s: seq<T>, k: nat)
    requires 1 + k <= |s|
    ensures s[..1 + k] == [s[0]] + s[1..][..k]
  {}

  lemma {:induction false} CutConcat(read: Reader, ms: seq<Message>, frames: seq<seq<byte>>, n: nat,
                                     short: FrameIoError)
    requires EachDelimits(read, ms, frames, short) && n <= |Concat(frames)|
    ensures ReadAll(read, Concat(frames)[..n]) == (ms[..WholeFrames(frames, n)], EndAt(frames, n, short))
    decreases |ms|
  {
    if n == 0 {
      assert frames[..0] == [] && ms[..0] == [];
    } else {
      var frame, later := frames[0], frames[1..];
      assert frames == [frame] + later;
      if n < |frame| {
        CutInside(read, ms[0], frame, later, n, short);
      } else {
        CutBeyond(read, ms[0], frame, later, n, short);
        CutConcat(read, ms[1..], later, n - |frame|, short);
        EndAtCons(frame, later, n, short);
        PrefixCons(ms, WholeFrames(later, n - |frame|));
      }
    }
  }

  /**
   A stream of encoded messages cut anywhere: every message whose frame arrived whole is read back, in
   order and unchanged, and the read fails exactly when the cut falls inside a frame.
   */
  lemma CutStream(ms: seq<Message>, frames: seq<seq<byte>>, n: nat, breaks: bool)
    requires FramesOf(ms, frames) && n <= |Concat(frames)|
    ensures ReadAll(MessageReader(breaks), Concat(frames)[..n])
         == (ms[..WholeFrames(frames, n)], EndAt(frames, n, StreamEnd(breaks)))
  {
    AllDelimit(ms, frames, breaks);
    CutConcat(MessageReader(breaks), ms, frames, n, StreamEnd(breaks));
  }

  lemma {:induction false} AllFramesWhole(frames: seq<seq<byte>>)
    ensures WholeFrames(frames, |Concat(frames)|) == |frames|
    decreases |frames|
  {
    if frames != [] {
      AllFramesWhole(frames[1..]);
    }
  }

  lemma NothingShort(frames: seq<seq<byte>>, short: FrameIoError)
    ensures EndAt(frames, |Concat(frames)|, short) == None
  {
    AllFramesWhole(frames);
    assert frames[..|frames|] == frames;
  }

  lemma WholeConcat(read: Reader, ms: seq<Message>, frames: seq<seq<byte>>, short: FrameIoError)
    requires EachDelimits(read, ms, frames, short)
    ensures ReadAll(read, Concat(frames)) == (ms, None)
  {
    AllFramesWhole(frames);
    NothingShort(frames, short);
    CutConcat(read, ms, frames, |Concat(frames)|, short);
    assert ms[..|ms|] == ms;
    assert Concat(frames)[..|Concat(frames)|] == Concat(frames);
  }

  lemma {:induction false} AllDelimit(ms: seq<Message>, frames: seq<seq<byte>>, breaks: bool)
    requires FramesOf(ms, frames)
    ensures EachDelimits(MessageReader(breaks), ms, frames, StreamEnd(breaks))
    decreases |ms|
  {
    if ms != [] {
      MessagesDelimit(ms[0], frames[0], breaks);
      AllDelimit(ms[1..], frames[1..], breaks);
    }
  }

  /** Stream round trip: the whole stream reads back as the list that was written, with nothing left over. */
  lemma StreamRoundTrip(ms: seq<Message>, frames: seq<seq<byte>>, breaks: bool)
    requires FramesOf(ms, frames)
    ensures ReadAll(MessageReader(breaks), Concat(frames)) == (ms, None)
  {
    AllDelimit(ms, frames, breaks);
    WholeConcat(MessageReader(breaks), ms, frames, StreamEnd(breaks));
  }
}
