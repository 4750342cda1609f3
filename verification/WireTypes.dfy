/** The wire newtypes with their constructors, the code enumerations, and the call messages. */
module WireTypes {
  import opened Bytes
  import Base64

  const MAX_DEADLINE_MS: nat := 600_000
  const MAX_CONTENT_TYPE_LEN: nat := 64
  const MAX_CREDENTIAL_DECODED_LEN: nat := 2_048

  type NodeId = b: seq<byte> | |b| == 32 witness seq(32, i => 0)

  datatype TypeError =
    | TaskIdBadHex
    | DeadlineTooLarge(ms: nat)
    | ContentTypeTooLong(got: nat)
    | CredentialBadEncoding
    | CredentialTooLong(decoded: nat)

  // ----- task ids: 128-bit numbers written as 32 hexadecimal digits -----

  function Pow16(k: nat): (p: nat)
    ensures p > 0
  {
    if k == 0 then 1 else 16 * Pow16(k - 1)
  }

  type TaskId = v: nat | v < Pow16(32)

  type nibble = v: int | 0 <= v < 16

  function HexChar(v: nibble): (c: byte) {
    if v < 10 then '0' as int + v else 'a' as int + (v - 10)
  }

  predicate IsHex(c: byte) {
    '0' as int <= c <= '9' as int || 'a' as int <= c <= 'f' as int || 'A' as int <= c <= 'F' as int
  }

  function HexNibble(c: byte): (v: nibble)
    requires IsHex(c)
  {
    if c <= '9' as int then c - '0' as int
    else if c <= 'F' as int then c - 'A' as int + 10
    else c - 'a' as int + 10
  }

  /** The low `k` hexadecimal digits of `v`, most significant first. */
  function HexDigits(v: nat, k: nat): (s: seq<byte>)
    ensures |s| == k
    ensures forall i :: 0 <= i < |s| ==> IsHex(s[i])
  {
    if k == 0 then [] else HexDigits(v / 16, k - 1) + [HexChar(v % 16)]
  }

  function HexValue(s: seq<byte>): (v: nat)
    requires forall i :: 0 <= i < |s| ==> IsHex(s[i])
    ensures v < Pow16(|s|)
  {
    if s == [] then 0 else 16 * HexValue(s[..|s| - 1]) + HexNibble(s[|s| - 1])
  }

  function ToHex(task: TaskId): seq<byte> {
    HexDigits(task, 32)
  }

  function FromHex(s: seq<byte>): Result<TaskId, TypeError> {
    if |s| != 32 then Err(TaskIdBadHex)
    else if !(forall i :: 0 <= i < |s| ==> IsHex(s[i])) then Err(TaskIdBadHex)
    else Ok(HexValue(s))
  }

  lemma {:induction false} HexValueOfDigits(v: nat, k: nat)
    requires v < Pow16(k)
    ensures HexValue(HexDigits(v, k)) == v
  {
    if k > 0 {
      HexValueOfDigits(v / 16, k - 1);
      var s := HexDigits(v, k);
      assert s[..|s| - 1] == HexDigits(v / 16, k - 1);
    }
  }

  /** Lower case of a hexadecimal digit. */
  function Lower(c: byte): byte {
    if 'A' as int <= c <= 'Z' as int then c + 32 else c
  }

  lemma CharOfNibble(c: byte)
    requires IsHex(c)
    ensures HexChar(HexNibble(c)) == Lower(c)
  {}

  lemma {:induction false} HexDigitsOfValue(s: seq<byte>)
    requires forall i :: 0 <= i < |s| ==> IsHex(s[i])
    ensures HexDigits(HexValue(s), |s|) == seq(|s|, i requires 0 <= i < |s| => Lower(s[i]))
  {
    if s != [] {
      var n := |s| - 1;
      HexDigitsOfValue(s[..n]);
      CharOfNibble(s[n]);
      Base64.By16(HexValue(s[..n]), HexNibble(s[n]));
    }
  }

  /**
   Task ids round trip, and the other way a parsed string prints back as itself in lower case:
   upper-case digits are accepted but never written.
   */
  lemma TaskIdRoundTrip(task: TaskId, s: seq<byte>)
    ensures FromHex(ToHex(task)) == Ok(task)
    ensures FromHex(s).Ok? <==> |s| == 32 && forall i :: 0 <= i < |s| ==> IsHex(s[i])
    ensures FromHex(s).Err? ==> FromHex(s) == Err(TaskIdBadHex)
    ensures FromHex(s).Ok? ==> ToHex(FromHex(s).value) == seq(|s|, i requires 0 <= i < |s| => Lower(s[i]))
  {
    HexValueOfDigits(task, 32);
    if FromHex(s).Ok? {
      HexDigitsOfValue(s);
    }
  }

  lemma HexCharText(v: nibble)
    ensures HexChar(v) == Ascii("0123456789abcdef")[v]
  {}

  /** The digits in either case. */
  lemma IsHexExactly(c: byte)
    ensures IsHex(c) <==> exists v: nibble :: HexChar(v) == Lower(c)
  {
    if IsHex(c) {
      CharOfNibble(c);
    }
  }

  lemma DivideTwice(v: nat, p: nat)
    requires p > 0
    ensures v / 16 / p == v / (16 * p)
  {
    var q := v / 16 / p;
    var r := v / 16 % p;
    assert v / 16 == q * p + r;
    var rest := 16 * r + v % 16;
    assert v == 16 * (v / 16) + v % 16;
    assert v == 16 * (q * p + r) + v % 16;
    Distribute(q, p, r);
    assert v == q * (16 * p) + rest && 0 <= rest < 16 * p;
    QuotientIs(v, 16 * p, q, rest);
  }

  lemma Distribute(q: nat, p: nat, r: nat)
    ensures 16 * (q * p + r) == q * (16 * p) + 16 * r
  {}

  lemma ProductGrows(a: nat, b: nat, d: nat)
    requires a < b
    ensures a * d + d <= b * d
  {
    assert (a + 1) * d <= b * d;
  }

  lemma QuotientIs(v: nat, d: nat, q: nat, r: nat)
    requires d > 0 && v == q * d + r && r < d
    ensures v / d == q
  {
    var other := v / d;
    assert v == other * d + v % d;
    if other < q {
      ProductGrows(other, q, d);
    } else if q < other {
      ProductGrows(q, other, d);
    }
  }

  /** Digit by digit: position i of k holds the digit of weight 16 to the k - 1 - i. */
  lemma {:induction false} DigitAt(v: nat, k: nat, i: nat)
    requires i < k
    ensures HexDigits(v, k)[i] == HexChar(v / Pow16(k - 1 - i) % 16)
    decreases k
  {
    if i == k - 1 {
      assert Pow16(0) == 1 && v / 1 == v;
    } else {
      DigitAt(v / 16, k - 1, i);
      DivideTwice(v, Pow16(k - 2 - i));
      assert Pow16(k - 1 - i) == 16 * Pow16(k - 2 - i);
    }
  }

  /** A task id is written as its 32 hexadecimal digits in lower case, most significant first. */
  lemma ToHexText(task: TaskId, i: nat)
    requires i < 32
    ensures |ToHex(task)| == 32
    ensures ToHex(task)[i] == Ascii("0123456789abcdef")[task / Pow16(31 - i) % 16]
  {
    DigitAt(task, 32, i);
    HexCharText(task / Pow16(31 - i) % 16);
  }

  // ----- deadlines, content types, credentials -----

  type Deadline = ms: nat | ms <= MAX_DEADLINE_MS

  function DeadlineNew(ms: nat): Result<Deadline, TypeError> {
    if ms > MAX_DEADLINE_MS then Err(DeadlineTooLarge(ms)) else Ok(ms)
  }

  /** A content type, as the bytes of its string. */
  type ContentType = s: seq<byte> | |s| <= MAX_CONTENT_TYPE_LEN

  function ContentTypeNew(s: seq<byte>): Result<ContentType, TypeError> {
    if |s| > MAX_CONTENT_TYPE_LEN then Err(ContentTypeTooLong(|s|)) else Ok(s)
  }

  predicate IsCredential(s: seq<byte>) {
    var decoded := Base64.Decode(s);
    decoded.Some? && |decoded.value| <= MAX_CREDENTIAL_DECODED_LEN
  }

  type Credential = s: seq<byte> | IsCredential(s)

  function CredentialNew(s: seq<byte>): Result<Credential, TypeError> {
    match Base64.Decode(s)
    case None => Err(CredentialBadEncoding)
    case Some(decoded) =>
      if |decoded| > MAX_CREDENTIAL_DECODED_LEN then Err(CredentialTooLong(|decoded|)) else Ok(s)
  }

  /**
   The credential constructor accepts exactly the encodings of at most 2048 bytes,
   and what it accepts is at most 2731 characters long.
   */
  lemma CredentialAcceptsExactly(s: seq<byte>)
    ensures CredentialNew(s).Ok? <==>
            exists b: seq<byte> :: |b| <= MAX_CREDENTIAL_DECODED_LEN && Base64.Encode(b) == s
    ensures CredentialNew(s).Ok? ==> |s| <= 2731
  {
    if CredentialNew(s).Ok? {
      Base64.EncodeDecode(s);
    }
    forall b: seq<byte> | |b| <= MAX_CREDENTIAL_DECODED_LEN && Base64.Encode(b) == s
      ensures CredentialNew(s).Ok?
    {
      Base64.DecodeEncode(b);
    }
  }

  /** The three bounds, with what each refusal reports. */
  lemma BoundsExactly(ms: nat, s: seq<byte>)
    ensures if ms <= 600_000 then DeadlineNew(ms) == Ok(ms) else DeadlineNew(ms) == Err(DeadlineTooLarge(ms))
    ensures if |s| <= 64 then ContentTypeNew(s) == Ok(s) else ContentTypeNew(s) == Err(ContentTypeTooLong(|s|))
    ensures CredentialNew(s) == Err(CredentialBadEncoding) <==> forall b: seq<byte> :: Base64.Encode(b) != s
    ensures forall b: seq<byte> :: Base64.Encode(b) == s ==>
              CredentialNew(s) == if |b| <= 2_048 then Ok(s) else Err(CredentialTooLong(|b|))
  {
    if Base64.Decode(s).Some? {
      Base64.EncodeDecode(s);
    }
    forall b: seq<byte> | Base64.Encode(b) == s ensures Base64.Decode(s) == Some(b) {
      Base64.DecodeEncode(b);
    }
  }

  // ----- codes, outcomes, messages -----

  datatype FailureCode = Unauthorized | Rejected | DeadlineExceeded | HandlerError

  datatype CloseCode = Normal | RateLimited | FrameTooLarge | MalformedFrame | ProtocolViolation | Timeout

  datatype Outcome = Completed | Failed(code: FailureCode) | Canceled | Closed(close: CloseCode) | PeerLost

  datatype Message =
    | Submit(task: TaskId, deadline: Deadline, contentType: ContentType,
             credential: Option<Credential>, body: seq<byte>)
    | Accepted
    | Progress
    | NeedInput
    | Input(body: seq<byte>)
    | Completed(body: seq<byte>)
    | Failed(code: FailureCode)
    | Cancel
    | Canceled
}
