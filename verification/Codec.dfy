/** The frame codec: a length prefix, a header length, the JSON header and the raw body. */
module Codec {
  import opened Bytes
  import opened WireTypes
  import opened CallErrors
  import opened MessageHeader

  const MAX_FRAME: nat := 65_536
  const MAX_HDR_LEN: nat := 4_096

  /** A growing output buffer. */
  class Buffer {
    var bytes: seq<byte>

    constructor ()
      ensures bytes == []
    {
      bytes := [];
    }

    method Extend(more: seq<byte>)
      modifies this
      ensures bytes == old(bytes) + more
    {
      bytes := bytes + more;
    }
  }

  /** The frame around a serialized header and a body, or why there is none. */
  function Framed(header: seq<byte>, body: seq<byte>): Result<seq<byte>, CodecError> {
    var len := 2 + |header| + |body|;
    if |header| > MAX_HDR_LEN then Err(HeaderTooLarge)
    else if len > MAX_FRAME then Err(EncodeTooLarge)
    else Ok(U32Bytes(len) + U16Bytes(|header|) + header + body)
  }

  function Encoded(m: Message): Result<seq<byte>, CodecError> {
    Framed(Header(m), MessageBody(m))
  }

  method EncodeParts(header: seq<byte>, body: seq<byte>, out: Buffer) returns (r: Result<(), CodecError>)
    modifies out
    ensures match Framed(header, body)
            case Ok(frame) => r == Ok(()) && out.bytes == old(out.bytes) + frame
            case Err(e) => r == Err(e) && out.bytes == old(out.bytes)
  {
    if |header| > MAX_HDR_LEN {
      return Err(HeaderTooLarge);
    }
    var len := 2 + |header| + |body|;
    if len > MAX_FRAME {
      return Err(EncodeTooLarge);
    }
    ghost var start := out.bytes;
    out.Extend(U32Bytes(len));
    out.Extend(U16Bytes(|header|));
    out.Extend(header);
    out.Extend(body);
    assert out.bytes == start + (U32Bytes(len) + U16Bytes(|header|) + header + body);
    r := Ok(());
  }

  /** Appends the message's frame to `out`, or nothing at all. */
  method Encode(message: Message, out: Buffer) returns (r: Result<(), CodecError>)
    modifies out
    ensures match Encoded(message)
            case Ok(frame) => r == Ok(()) && out.bytes == old(out.bytes) + frame
            case Err(e) => r == Err(e) && out.bytes == old(out.bytes)
  {
    r := EncodeParts(Header(message), MessageBody(message), out);
  }

  /** The length fields: the header's bytes and the body's. */
  function SplitLengths(buf: seq<byte>): Result<(seq<byte>, seq<byte>), CodecError> {
    if |buf| < 4 then Err(Truncated)
    else
      var len := U32Value(buf[0], buf[1], buf[2], buf[3]);
      if len > MAX_FRAME then Err(CodecError.FrameTooLarge)
      else if |buf| < 4 + len then Err(Truncated)
      else
        var payload := buf[4..4 + len];
        if |payload| < 2 then Err(BadLength)
        else
          var hdrLen := U16Value(payload[0], payload[1]);
          if hdrLen > MAX_HDR_LEN then Err(CodecError.FrameTooLarge)
          else if |payload| < 2 + hdrLen then Err(BadLength)
          else Ok((payload[2..2 + hdrLen], payload[2 + hdrLen..]))
  }

  /** The header's message and the raw body, without copying the body anywhere. */
  function DecodeParts(buf: seq<byte>): Result<(Message, seq<byte>), CodecError> {
    match SplitLengths(buf)
    case Err(e) => Err(e)
    case Ok((header, body)) =>
      match ReadHeader(header)
      case None => Err(MalformedHeader)
      case Some(m) => Ok((m, body))
  }

  function SplitFrame(buf: seq<byte>): Result<(Message, seq<byte>), CodecError> {
    DecodeParts(buf)
  }

  /** Attaches the body, which a Submit only gets when it is allowed. */
  function Finished(header: Message, body: seq<byte>, allowed: bool): Result<Message, CodecError> {
    if header.Submit? && !allowed then Err(SubmitDenied)
    else if !HasBody(header) && body != [] then Err(BadLength)
    else Ok(SetBody(header, body))
  }

  function Decoded(buf: seq<byte>, auth: Message -> bool): Result<Message, CodecError> {
    match DecodeParts(buf)
    case Err(e) => Err(e)
    case Ok((header, body)) => Finished(header, body, auth(header))
  }

  const ALLOW_ALL: Message -> bool := m => true

  // ----- encoding never fails for the wrong reason -----

  /** The header limit is never hit, and encoding fails exactly when the frame would be above 64 KiB. */
  lemma EncodeFailsExactly(m: Message)
    ensures Encoded(m) != Err(HeaderTooLarge)
    ensures Encoded(m).Ok? <==> 2 + |Header(m)| + |MessageBody(m)| <= 65_536
    ensures Encoded(m).Err? ==> Encoded(m) == Err(EncodeTooLarge)
    ensures |MessageBody(m)| <= MAX_FRAME - 2 - WORST_HEADER ==> Encoded(m).Ok?
  {
    HeaderBounded(m);
  }

  /** Which limit a header and a body break; the header's is tested first. */
  lemma FramedFailsExactly(header: seq<byte>, body: seq<byte>)
    ensures Framed(header, body) == Err(HeaderTooLarge) <==> |header| > 4_096
    ensures Framed(header, body) == Err(EncodeTooLarge) <==> |header| <= 4_096 && 2 + |header| + |body| > 65_536
    ensures Framed(header, body).Err? <==> |header| > 4_096 || 2 + |header| + |body| > 65_536
  {}

  /** Where everything stands in a frame. */
  lemma FrameLayout(header: seq<byte>, body: seq<byte>)
    requires Framed(header, body).Ok?
    ensures var frame := Framed(header, body).value;
            var b: seq<int> := frame;
            && |b| == 6 + |header| + |body|
            && b[0] * 16_777_216 + b[1] * 65_536 + b[2] * 256 + b[3] == 2 + |header| + |body|
            && b[4] * 256 + b[5] == |header|
            && frame[6..6 + |header|] == header && frame[6 + |header|..] == body
  {
    LengthFieldsAreBigEndian(2 + |header| + |body|);
    LengthFieldsAreBigEndian(|header|);
  }

  // ----- frames delimit themselves -----

  lemma SplitOfParts(l: seq<byte>, h: seq<byte>, header: seq<byte>, body: seq<byte>, rest: seq<byte>)
    requires |l| == 4 && U32Value(l[0], l[1], l[2], l[3]) == 2 + |header| + |body| <= MAX_FRAME
    requires |h| == 2 && U16Value(h[0], h[1]) == |header| <= MAX_HDR_LEN
    ensures SplitLengths(l + h + header + body + rest) == Ok((header, body))
  {
    var buf := l + h + header + body + rest;
    var len := 2 + |header| + |body|;
    assert buf[..4] == l;
    var payload := buf[4..4 + len];
    assert payload == h + header + body;
    assert payload[2..2 + |header|] == header && payload[2 + |header|..] == body;
  }

  lemma FramedShape(header: seq<byte>, body: seq<byte>, rest: seq<byte>)
    requires Framed(header, body).Ok?
    ensures var frame := Framed(header, body).value;
            && |frame| == 6 + |header| + |body| <= 4 + MAX_FRAME
            && U32Value(frame[0], frame[1], frame[2], frame[3]) == |frame| - 4
            && SplitLengths(frame + rest) == Ok((header, body))
  {
    var len := 2 + |header| + |body|;
    U32RoundTrip(len);
    SplitOfParts(U32Bytes(len), U16Bytes(|header|), header, body, rest);
  }

  lemma DecodeOfParts(buf: seq<byte>, header: seq<byte>, m: Message)
    requires SplitLengths(buf) == Ok((header, MessageBody(m))) && ReadHeader(header) == Some(SetBody(m, []))
    ensures Decoded(buf, ALLOW_ALL) == Ok(m)
  {}

  /** Decoding an encoded frame, followed by anything at all, gives the message back. */
  lemma DecodeEncode(m: Message, rest: seq<byte>)
    ensures Encoded(m).Ok? ==> Decoded(Encoded(m).value + rest, ALLOW_ALL) == Ok(m)
  {
    if Encoded(m).Ok? {
      FramedShape(Header(m), MessageBody(m), rest);
      HeaderRoundTrip(m);
      DecodeOfParts(Encoded(m).value + rest, Header(m), m);
    }
  }

  lemma SliceOfSlice(s: seq<byte>, a: nat, b: nat, c: nat, d: nat)
    requires a <= b <= |s| && c <= d <= b - a
    ensures s[a..b][c..d] == s[a + c..a + d]
    ensures forall i :: 0 <= i < b - a ==> s[a..b][i] == s[a + i]
  {
    var inner, direct := s[a..b][c..d], s[a + c..a + d];
    forall i | 0 <= i < d - c ensures inner[i] == direct[i] {
      assert inner[i] == s[a..b][c + i] == s[a + (c + i)];
    }
    assert inner == direct;
  }

  lemma SplitShape(buf: seq<byte>)
    requires SplitLengths(buf).Ok?
    ensures var (header, body) := SplitLengths(buf).value;
            var len := 2 + |header| + |body|;
            && |header| <= MAX_HDR_LEN && len <= MAX_FRAME && 4 + len <= |buf|
            && U32Value(buf[0], buf[1], buf[2], buf[3]) == len && U16Value(buf[4], buf[5]) == |header|
            && buf[6..6 + |header|] == header && buf[6 + |header|..4 + len] == body
  {
    var len := U32Value(buf[0], buf[1], buf[2], buf[3]);
    var hdr := U16Value(buf[4], buf[5]);
    SliceOfSlice(buf, 4, 4 + len, 2, 2 + hdr);
    SliceOfSlice(buf, 4, 4 + len, 2 + hdr, len);
  }

  lemma Reassemble(buf: seq<byte>, hdr: nat, len: nat)
    requires 2 + hdr <= len && 4 + len <= |buf|
    ensures [buf[0], buf[1], buf[2], buf[3]] + [buf[4], buf[5]] + buf[6..6 + hdr] + buf[6 + hdr..4 + len]
         == buf[..4 + len]
  {}

  lemma SplitBuildsBack(buf: seq<byte>)
    requires SplitLengths(buf).Ok?
    ensures var (header, body) := SplitLengths(buf).value;
            && Framed(header, body).Ok?
            && Framed(header, body).value <= buf
  {
    var (header, body) := SplitLengths(buf).value;
    SplitShape(buf);
    var len := 2 + |header| + |body|;
    U32OfBytes(buf[0], buf[1], buf[2], buf[3]);
    U16OfBytes(buf[4], buf[5]);
    assert U32Bytes(len) == [buf[0], buf[1], buf[2], buf[3]] && U16Bytes(|header|) == [buf[4], buf[5]];
    Reassemble(buf, |header|, len);
  }

  /** Framing is canonical: a buffer splits into a header and a body exactly when it starts with their frame. */
  lemma SplitExactly(buf: seq<byte>, header: seq<byte>, body: seq<byte>)
    ensures SplitLengths(buf) == Ok((header, body)) <==> Framed(header, body).Ok? && Framed(header, body).value <= buf
  {
    if Framed(header, body).Ok? && Framed(header, body).value <= buf {
      var frame := Framed(header, body).value;
      FramedShape(header, body, buf[|frame|..]);
      assert frame + buf[|frame|..] == buf;
    }
    if SplitLengths(buf) == Ok((header, body)) {
      SplitBuildsBack(buf);
    }
  }

  /** The whole frame its length field announces is there. */
  predicate Arrived(buf: seq<byte>) {
    |buf| >= 4 && |buf| >= 4 + U32Value(buf[0], buf[1], buf[2], buf[3])
  }

  /**
   An oversized frame, above 64 KiB, is refused on its length field alone; an oversized header length, above 4 KiB, is
   refused before the header is looked at; lengths that do not fit into each other are bad.
   */
  lemma SplitFailsExactly(buf: seq<byte>)
    ensures var len := if |buf| >= 4 then U32Value(buf[0], buf[1], buf[2], buf[3]) else 0;
            var hdr := if |buf| >= 6 then U16Value(buf[4], buf[5]) else 0;
            && (SplitLengths(buf) == Err(CodecError.FrameTooLarge) <==>
                  len > 65_536 || (Arrived(buf) && len >= 2 && hdr > 4_096))
            && (SplitLengths(buf) == Err(BadLength) <==>
                  Arrived(buf) && len <= 65_536 && (len < 2 || (hdr <= 4_096 && len < 2 + hdr)))
            && (SplitLengths(buf) == Err(Truncated) <==> len <= 65_536 && !Arrived(buf))
            && (SplitLengths(buf).Ok? <==> Arrived(buf) && len <= 65_536 && hdr <= 4_096 && 2 + hdr <= len)
  {}

  /** How decoding fails, once the lengths fit: on the header's text, on the authorizer's word, or on a stray body. */
  lemma DecodedExactly(buf: seq<byte>, auth: Message -> bool)
    ensures SplitLengths(buf).Err? ==> Decoded(buf, auth) == Err(SplitLengths(buf).error)
    ensures SplitLengths(buf).Ok? ==>
              var (text, body) := SplitLengths(buf).value;
              var header := ReadHeader(text);
              var stray := header.Some? && !header.value.Submit? && !header.value.Input? && !header.value.Completed?
                           && body != [];
              && (Decoded(buf, auth) == Err(MalformedHeader) <==> header.None?)
              && (Decoded(buf, auth) == Err(SubmitDenied) <==>
                    header.Some? && header.value.Submit? && !auth(header.value))
              && (Decoded(buf, auth) == Err(BadLength) <==> stray)
              && (Decoded(buf, auth).Ok? <==>
                    header.Some? && (header.value.Submit? ==> auth(header.value)) && !stray)
  {}

  /** Truncated means exactly that more bytes can still change the answer. */
  lemma TruncatedExactly(buf: seq<byte>)
    ensures SplitLengths(buf) == Err(Truncated) <==> exists more :: SplitLengths(buf + more) != SplitLengths(buf)
  {
    if SplitLengths(buf) == Err(Truncated) {
      var more: seq<byte> := seq(4 + MAX_FRAME, i => 0);
      assert SplitLengths(buf + more) != Err(Truncated);
    } else {
      forall more ensures SplitLengths(buf + more) == SplitLengths(buf) {
        SplitIgnoresTail(buf, more);
      }
    }
  }

  lemma PrefixTruncated(frame: seq<byte>, n: nat)
    requires n < |frame| && 4 < |frame| <= 4 + MAX_FRAME
    requires U32Value(frame[0], frame[1], frame[2], frame[3]) == |frame| - 4
    ensures SplitLengths(frame[..n]) == Err(Truncated)
  {}

  /** Every strict prefix of a frame is recognized as truncated. */
  lemma StrictPrefixTruncated(m: Message, n: nat)
    requires Encoded(m).Ok? && n < |Encoded(m).value|
    ensures DecodeParts(Encoded(m).value[..n]) == Err(Truncated)
  {
    FramedShape(Header(m), MessageBody(m), []);
    PrefixTruncated(Encoded(m).value, n);
  }

  /** Whatever the bytes are, once a buffer is not truncated, nothing appended to it changes the result. */
  lemma TailIgnored(buf: seq<byte>, rest: seq<byte>)
    requires DecodeParts(buf) != Err(Truncated)
    ensures DecodeParts(buf + rest) == DecodeParts(buf)
  {
    SplitIgnoresTail(buf, rest);
  }

  lemma SplitIgnoresTail(buf: seq<byte>, rest: seq<byte>)
    requires SplitLengths(buf) != Err(Truncated)
    ensures SplitLengths(buf + rest) == SplitLengths(buf)
  {
    var len := U32Value(buf[0], buf[1], buf[2], buf[3]);
    if len <= MAX_FRAME {
      assert (buf + rest)[4..4 + len] == buf[4..4 + len];
    }
  }

  /** The authorizer only ever sees a bodiless header, and the body of what decodes is the frame's own. */
  lemma BodyComesLast(buf: seq<byte>, auth: Message -> bool)
    ensures DecodeParts(buf).Ok? ==> MessageBody(DecodeParts(buf).value.0) == []
    ensures Decoded(buf, auth).Ok? ==>
              && SetBody(Decoded(buf, auth).value, []) == DecodeParts(buf).value.0
              && MessageBody(Decoded(buf, auth).value) == DecodeParts(buf).value.1
              && (Decoded(buf, auth).value.Submit? ==> auth(DecodeParts(buf).value.0))
  {}
}
