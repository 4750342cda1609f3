/**
 The JSON text of a header: one flat object of string, unsigned-integer and null members. The writer
 is compact; the reader takes any member order, insignificant white space and any string escape
 outside the surrogate range (RFC 8259, sections 2, 6 and 7).
 */
module JsonObject {
  import opened Bytes
  import opened WireTypes

  const QUOTE: byte := 0x22
  const BACKSLASH: byte := 0x5C
  const COLON: byte := 0x3A
  const COMMA: byte := 0x2C
  const OPEN_BRACE: byte := 0x7B
  const CLOSE_BRACE: byte := 0x7D
  const LETTER_U: byte := 0x75
  const DIGIT_0: byte := 0x30

  // ----- strings -----

  /** The letter of a two-character escape, for the bytes the writer escapes that way. */
  function ShortEscape(b: byte): Option<byte> {
    if b == QUOTE || b == BACKSLASH then Some(b)
    else if b == 0x08 then Some('b' as int)
    else if b == 0x09 then Some('t' as int)
    else if b == 0x0A then Some('n' as int)
    else if b == 0x0C then Some('f' as int)
    else if b == 0x0D then Some('r' as int)
    else None
  }

  function EscapeByte(b: byte): (s: seq<byte>)
    ensures 1 <= |s| <= 6
  {
    match ShortEscape(b)
    case Some(letter) => [BACKSLASH, letter]
    case None =>
      if b < 0x20 then [BACKSLASH, LETTER_U, DIGIT_0, DIGIT_0, HexChar(b / 16), HexChar(b % 16)] else [b]
  }

  function Escape(s: seq<byte>): (r: seq<byte>)
    ensures |r| <= 6 * |s|
  {
    if s == [] then [] else EscapeByte(s[0]) + Escape(s[1..])
  }

  function Quoted(s: seq<byte>): seq<byte> {
    [QUOTE] + Escape(s) + [QUOTE]
  }

  /** The UTF-8 bytes of a code point below 0x10000. */
  function Utf8(cp: nat): seq<byte>
    requires cp < 0x1_0000
  {
    if cp < 0x80 then [cp]
    else if cp < 0x800 then [0xC0 + cp / 64, 0x80 + cp % 64]
    else [0xE0 + cp / 4096, 0x80 + cp / 64 % 64, 0x80 + cp % 64]
  }

  /** What an escape after its backslash stands for, and how many bytes it takes. */
  function ReadEscape(s: seq<byte>): (r: Option<(seq<byte>, nat)>)
    ensures r.Some? ==> 1 <= r.value.1 <= |s|
  {
    if s == [] then None
    else if s[0] == QUOTE || s[0] == BACKSLASH || s[0] == '/' as int then Some(([s[0]], 1))
    else if s[0] == 'b' as int then Some(([0x08], 1))
    else if s[0] == 't' as int then Some(([0x09], 1))
    else if s[0] == 'n' as int then Some(([0x0A], 1))
    else if s[0] == 'f' as int then Some(([0x0C], 1))
    else if s[0] == 'r' as int then Some(([0x0D], 1))
    else if s[0] != LETTER_U || |s| < 5 || !(forall i :: 1 <= i < 5 ==> IsHex(s[i])) then None
    else
      var cp := HexNibble(s[1]) * 4096 + HexNibble(s[2]) * 256 + HexNibble(s[3]) * 16 + HexNibble(s[4]);
      if 0xD800 <= cp < 0xE000 then None else Some((Utf8(cp), 5))
  }

  /** The rest of a string after its opening quote, and what follows its closing one. */
  function ReadChars(s: seq<byte>): (r: Option<(seq<byte>, seq<byte>)>)
    ensures r.Some? ==> |r.value.1| < |s|
    decreases |s|
  {
    if s == [] || s[0] < 0x20 then None
    else if s[0] == QUOTE then Some(([], s[1..]))
    else if s[0] == BACKSLASH then
      match ReadEscape(s[1..])
      case None => None
      case Some((bytes, n)) =>
        (match ReadChars(s[1 + n..])
         case None => None
         case Some((content, rest)) => Some((bytes + content, rest)))
    else
      match ReadChars(s[1..])
      case None => None
      case Some((content, rest)) => Some(([s[0]] + content, rest))
  }

  lemma ReadShortEscape(b: byte, tail: seq<byte>)
    requires ShortEscape(b).Some?
    ensures ReadEscape([ShortEscape(b).value] + tail) == Some(([b], 1))
  {}

  lemma HexPair(b: byte)
    requires b < 0x20
    ensures IsHex(HexChar(b / 16)) && IsHex(HexChar(b % 16)) && IsHex(DIGIT_0) && HexNibble(DIGIT_0) == 0
    ensures HexNibble(HexChar(b / 16)) * 16 + HexNibble(HexChar(b % 16)) == b
  {
    assert HexNibble(HexChar(b / 16)) == b / 16 && HexNibble(HexChar(b % 16)) == b % 16;
  }

  lemma ReadHexEscape(b: byte, tail: seq<byte>)
    requires b < 0x20
    ensures ReadEscape([LETTER_U, DIGIT_0, DIGIT_0, HexChar(b / 16), HexChar(b % 16)] + tail) == Some(([b], 5))
  {
    HexPair(b);
    var s := [LETTER_U, DIGIT_0, DIGIT_0, HexChar(b / 16), HexChar(b % 16)] + tail;
    assert s[1] == DIGIT_0 && s[2] == DIGIT_0 && s[3] == HexChar(b / 16) && s[4] == HexChar(b % 16);
  }

  /** After a backslash and an escape of `n` bytes the reader goes on with what follows. */
  lemma ReadAfterEscape(escape: seq<byte>, bytes: seq<byte>, rest: seq<byte>)
    requires ReadEscape(escape + rest) == Some((bytes, |escape|))
    ensures ReadChars([BACKSLASH] + escape + rest)
         == match ReadChars(rest) case None => None case Some((content, end)) => Some((bytes + content, end))
  {
    var s := [BACKSLASH] + escape + rest;
    assert s[1..] == escape + rest && s[1 + |escape|..] == rest;
  }

  lemma ReadEscapedByte(b: byte, rest: seq<byte>)
    ensures ReadChars(EscapeByte(b) + rest)
         == match ReadChars(rest) case None => None case Some((content, end)) => Some(([b] + content, end))
  {
    if ShortEscape(b).Some? {
      var escape := [ShortEscape(b).value];
      ReadShortEscape(b, rest);
      ReadAfterEscape(escape, [b], rest);
      assert EscapeByte(b) == [BACKSLASH] + escape;
    } else if b < 0x20 {
      var escape := [LETTER_U, DIGIT_0, DIGIT_0, HexChar(b / 16), HexChar(b % 16)];
      ReadHexEscape(b, rest);
      ReadAfterEscape(escape, [b], rest);
      assert EscapeByte(b) == [BACKSLASH] + escape;
    } else {
      assert (EscapeByte(b) + rest)[1..] == rest;
    }
  }

  /** Reading what was written gives the string back, whatever its bytes and whatever follows. */
  lemma {:induction false} ReadQuoted(s: seq<byte>, rest: seq<byte>)
    ensures ReadChars(Escape(s) + [QUOTE] + rest) == Some((s, rest))
    decreases |s|
  {
    if s == [] {
      assert Escape(s) + [QUOTE] + rest == [QUOTE] + rest;
      assert ([QUOTE] + rest)[1..] == rest;
    } else {
      var tail := Escape(s[1..]) + [QUOTE] + rest;
      assert Escape(s) + [QUOTE] + rest == EscapeByte(s[0]) + tail;
      ReadEscapedByte(s[0], tail);
      ReadQuoted(s[1..], rest);
      assert [s[0]] + s[1..] == s;
    }
  }

  // ----- numbers -----

  function Decimal(n: nat): (s: seq<byte>)
    ensures |s| >= 1 && (forall i :: 0 <= i < |s| ==> IsDigit(s[i]))
    ensures n > 0 ==> s[0] != DIGIT_0
    ensures n == 0 ==> s == [DIGIT_0]
  {
    if n < 10 then [DIGIT_0 + n] else Decimal(n / 10) + [DIGIT_0 + n % 10]
  }

  predicate IsDigit(c: byte) {
    DIGIT_0 <= c <= DIGIT_0 + 9
  }

  function DigitsValue(s: seq<byte>): nat
    requires forall i :: 0 <= i < |s| ==> IsDigit(s[i])
  {
    if s == [] then 0
    else
      assert IsDigit(s[|s| - 1]);
      10 * DigitsValue(s[..|s| - 1]) + (s[|s| - 1] - DIGIT_0)
  }

  function DigitRun(s: seq<byte>): (n: nat)
    ensures n <= |s| && (forall i :: 0 <= i < n ==> IsDigit(s[i]))
    ensures n < |s| ==> !IsDigit(s[n])
  {
    if s == [] || !IsDigit(s[0]) then 0 else 1 + DigitRun(s[1..])
  }

  predicate StartsFraction(s: seq<byte>) {
    s != [] && (s[0] == '.' as int || s[0] == 'e' as int || s[0] == 'E' as int)
  }

  /** An unsigned integer; a leading zero, a sign, a fraction or an exponent is not one. */
  function ReadNumber(s: seq<byte>): (r: Option<(nat, seq<byte>)>)
    ensures r.Some? ==> |r.value.1| < |s|
  {
    var n := DigitRun(s);
    if n == 0 || (n > 1 && s[0] == DIGIT_0) || StartsFraction(s[n..]) then None
    else Some((DigitsValue(s[..n]), s[n..]))
  }

  /** The digits themselves. */
  lemma DecimalText(n: nat)
    ensures Decimal(n) == (if n < 10 then [] else Decimal(n / 10)) + [Ascii("0123456789")[n % 10]]
  {}

  lemma {:induction false} DecimalValue(n: nat)
    ensures DigitsValue(Decimal(n)) == n
  {
    if n >= 10 {
      DecimalValue(n / 10);
      var s := Decimal(n);
      assert s[..|s| - 1] == Decimal(n / 10);
    }
  }

  lemma {:induction false} DigitRunOf(d: seq<byte>, rest: seq<byte>)
    requires forall i :: 0 <= i < |d| ==> IsDigit(d[i])
    requires rest == [] || !IsDigit(rest[0])
    ensures DigitRun(d + rest) == |d|
    decreases |d|
  {
    if d == [] {
      assert d + rest == rest;
    } else {
      assert (d + rest)[1..] == d[1..] + rest;
      DigitRunOf(d[1..], rest);
    }
  }

  lemma ReadDecimal(n: nat, rest: seq<byte>)
    requires (rest == [] || !IsDigit(rest[0])) && !StartsFraction(rest)
    ensures ReadNumber(Decimal(n) + rest) == Some((n, rest))
  {
    var d := Decimal(n);
    DigitRunOf(d, rest);
    DecimalValue(n);
    assert (d + rest)[..|d|] == d && (d + rest)[|d|..] == rest;
  }

  lemma LastDigit(v: nat, c: byte)
    requires v > 0 && IsDigit(c)
    ensures Decimal(10 * v + (c - DIGIT_0)) == Decimal(v) + [c]
  {
    var digit: nat := c - DIGIT_0;
    var n := 10 * v + digit;
    assert n / 10 == v && n % 10 == digit && n >= 10;
  }

  lemma {:induction false} DigitsAreDecimal(d: seq<byte>)
    requires |d| >= 1 && (forall i :: 0 <= i < |d| ==> IsDigit(d[i])) && (|d| == 1 || d[0] != DIGIT_0)
    ensures Decimal(DigitsValue(d)) == d
    ensures d[0] != DIGIT_0 ==> DigitsValue(d) > 0
    decreases |d|
  {
    var n := |d| - 1;
    if n == 0 {
      assert d[..0] == [] && DigitsValue(d) == d[0] - DIGIT_0;
      assert d == [d[0]];
    } else {
      DigitsAreDecimal(d[..n]);
      LastDigit(DigitsValue(d[..n]), d[n]);
      assert d == d[..n] + [d[n]];
    }
  }

  /** Numbers have one form: reading succeeds exactly on the decimal form followed by no more of a number. */
  lemma NumbersAreCanonical(s: seq<byte>, n: nat, rest: seq<byte>)
    ensures ReadNumber(s) == Some((n, rest)) <==>
            s == Decimal(n) + rest && (rest == [] || !IsDigit(rest[0])) && !StartsFraction(rest)
  {
    if ReadNumber(s) == Some((n, rest)) {
      var k := DigitRun(s);
      DigitsAreDecimal(s[..k]);
      assert s == s[..k] + s[k..];
    }
    if s == Decimal(n) + rest && (rest == [] || !IsDigit(rest[0])) && !StartsFraction(rest) {
      ReadDecimal(n, rest);
    }
  }

  // ----- objects -----

  datatype Scalar = Str(s: seq<byte>) | Num(n: nat) | Null

  datatype Field = Field(name: seq<byte>, value: Scalar)

  function WriteScalar(v: Scalar): (s: seq<byte>)
    ensures |s| >= 1
  {
    match v
    case Str(s) => Quoted(s)
    case Num(n) => Decimal(n)
    case Null => NULL
  }

  const NULL: seq<byte> := ['n' as int, 'u' as int, 'l' as int, 'l' as int]

  function WriteField(f: Field): seq<byte> {
    Quoted(f.name) + [COLON] + WriteScalar(f.value)
  }

  /** The members after the first, each with its comma, and the closing brace. */
  function WriteRest(fs: seq<Field>): seq<byte> {
    if fs == [] then [CLOSE_BRACE] else [COMMA] + WriteField(fs[0]) + WriteRest(fs[1..])
  }

  function WriteObject(fs: seq<Field>): seq<byte> {
    if fs == [] then [OPEN_BRACE, CLOSE_BRACE] else [OPEN_BRACE] + WriteField(fs[0]) + WriteRest(fs[1..])
  }

  predicate IsSpace(c: byte) {
    c == 0x20 || c == 0x09 || c == 0x0A || c == 0x0D
  }

  function SkipSpace(s: seq<byte>): (r: seq<byte>)
    ensures |r| <= |s|
  {
    if s != [] && IsSpace(s[0]) then SkipSpace(s[1..]) else s
  }

  function ReadScalar(s: seq<byte>): (r: Option<(Scalar, seq<byte>)>)
    ensures r.Some? ==> |r.value.1| < |s|
  {
    if s == [] then None
    else if s[0] == QUOTE then
      match ReadChars(s[1..])
      case None => None
      case Some((content, rest)) => Some((Str(content), rest))
    else if NULL <= s then Some((Null, s[4..]))
    else
      match ReadNumber(s)
      case None => None
      case Some((n, rest)) => Some((Num(n), rest))
  }

  function ReadField(s: seq<byte>): (r: Option<(Field, seq<byte>)>)
    ensures r.Some? ==> |r.value.1| < |s|
  {
    if s == [] || s[0] != QUOTE then None
    else
      match ReadChars(s[1..])
      case None => None
      case Some((name, afterName)) =>
        var colon := SkipSpace(afterName);
        if colon == [] || colon[0] != COLON then None
        else
          match ReadScalar(SkipSpace(colon[1..]))
          case None => None
          case Some((value, rest)) => Some((Field(name, value), rest))
  }

  /** From after a member: the remaining members and what follows the closing brace. */
  function ReadRest(s: seq<byte>): (r: Option<(seq<Field>, seq<byte>)>)
    decreases |s|
  {
    var t := SkipSpace(s);
    if t == [] then None
    else if t[0] == CLOSE_BRACE then Some(([], t[1..]))
    else if t[0] != COMMA then None
    else
      match ReadField(SkipSpace(t[1..]))
      case None => None
      case Some((f, rest)) =>
        match ReadRest(rest)
        case None => None
        case Some((fs, end)) => Some(([f] + fs, end))
  }

  /** A whole text: one object with nothing but white space around it. */
  function ReadObject(s: seq<byte>): Option<seq<Field>> {
    var t := SkipSpace(s);
    if t == [] || t[0] != OPEN_BRACE then None
    else
      var first := SkipSpace(t[1..]);
      if first != [] && first[0] == CLOSE_BRACE then (if SkipSpace(first[1..]) == [] then Some([]) else None)
      else
        match ReadField(first)
        case None => None
        case Some((f, rest)) =>
          match ReadRest(rest)
          case None => None
          case Some((fs, end)) => if SkipSpace(end) == [] then Some([f] + fs) else None
  }

  /** The marks and the white space of the grammar. */
  lemma Marks(c: byte)
    ensures [OPEN_BRACE, QUOTE, COLON, COMMA, CLOSE_BRACE] == Ascii("{\":,}") && NULL == Ascii("null")
    ensures IsSpace(c) <==> c in Ascii(" \t\n\r")
  {
    if IsSpace(c) {
      var space := Ascii(" \t\n\r");
      assert space[0] == 0x20 && space[1] == 0x09 && space[2] == 0x0A && space[3] == 0x0D;
    }
  }

  // ----- what a string may hold, and its escapes -----

  predicate NoControls(s: seq<byte>) {
    forall i :: 0 <= i < |s| ==> s[i] >= 0x20
  }

  /** The text of a string holds no control character, however it is spelled, and ends with its closing quote. */
  lemma {:induction false} StringsHaveNoControls(t: seq<byte>)
    requires ReadChars(t).Some? && ReadChars(t).value.1 == []
    ensures NoControls(t) && t[|t| - 1] == QUOTE
    decreases |t|
  {
    if t[0] == BACKSLASH {
      var n := ReadEscape(t[1..]).value.1;
      EscapeHasNoControls(t[1..]);
      StringsHaveNoControls(t[1 + n..]);
      assert t == [t[0]] + t[1..][..n] + t[1 + n..];
    } else if t[0] != QUOTE {
      StringsHaveNoControls(t[1..]);
      assert t == [t[0]] + t[1..];
    }
  }

  lemma EscapeHasNoControls(s: seq<byte>)
    requires ReadEscape(s).Some?
    ensures NoControls(s[..ReadEscape(s).value.1])
  {}

  /** How the writer puts each byte. */
  lemma EscapeTexts(b: byte)
    ensures EscapeByte(0x22) == [0x5C, 0x22] && EscapeByte(0x5C) == [0x5C, 0x5C]
    ensures EscapeByte(0x08) == ['\\' as int, 'b' as int] && EscapeByte(0x09) == ['\\' as int, 't' as int]
    ensures EscapeByte(0x0A) == ['\\' as int, 'n' as int] && EscapeByte(0x0C) == ['\\' as int, 'f' as int]
    ensures EscapeByte(0x0D) == ['\\' as int, 'r' as int]
    ensures b >= 0x20 && b != 0x22 && b != 0x5C ==> EscapeByte(b) == [b]
    ensures b < 0x20 && !(0x08 <= b <= 0x0D && b != 0x0B) ==>
              && |EscapeByte(b)| == 6 && EscapeByte(b)[..4] == ['\\' as int, 'u' as int, '0' as int, '0' as int]
              && EscapeByte(b)[4] == '0' as int + b / 16
              && EscapeByte(b)[5] == if b % 16 < 10 then '0' as int + b % 16 else 'a' as int + (b % 16 - 10)
  {}

  /** Which bytes may follow a backslash, and what they stand for; `u` needs four hexadecimal digits. */
  lemma EscapesExactly(c: byte, rest: seq<byte>)
    ensures ReadEscape([]) == None
    ensures c != 'u' as int ==>
              ReadEscape([c] + rest) == if c == '"' as int || c == '\\' as int || c == '/' as int then Some(([c], 1))
                                        else if c == 'b' as int then Some(([0x08], 1))
                                        else if c == 't' as int then Some(([0x09], 1))
                                        else if c == 'n' as int then Some(([0x0A], 1))
                                        else if c == 'f' as int then Some(([0x0C], 1))
                                        else if c == 'r' as int then Some(([0x0D], 1))
                                        else None
    ensures c == 'u' as int && ReadEscape([c] + rest).Some? ==>
              |rest| >= 4 && forall i :: 0 <= i < 4 ==> IsHex(rest[i])
  {
    var s := [c] + rest;
    assert s[0] == c;
    if c == 'u' as int && ReadEscape(s).Some? {
      assert s[1] == rest[0] && s[2] == rest[1] && s[3] == rest[2] && s[4] == rest[3];
    }
  }

  /** The number that one to three bytes of UTF-8 stand for. */
  function Utf8Value(s: seq<int>): int {
    if |s| == 1 then s[0]
    else if |s| == 2 then (s[0] - 0xC0) * 64 + (s[1] - 0x80)
    else if |s| == 3 then (s[0] - 0xE0) * 4096 + (s[1] - 0x80) * 64 + (s[2] - 0x80)
    else 0
  }

  /** The shortest form, with the lead and continuation bytes of RFC 3629. */
  lemma Utf8RoundTrip(cp: nat)
    requires cp < 0x1_0000
    ensures Utf8Value(Utf8(cp)) == cp
    ensures |Utf8(cp)| == if cp <= 0x7F then 1 else if cp <= 0x7FF then 2 else 3
    ensures cp > 0x7F ==> forall i :: 1 <= i < |Utf8(cp)| ==> 0x80 <= Utf8(cp)[i] <= 0xBF
    ensures |Utf8(cp)| == 2 ==> 0xC2 <= Utf8(cp)[0] <= 0xDF
    ensures |Utf8(cp)| == 3 ==> 0xE0 <= Utf8(cp)[0] <= 0xEF
  {
    var q := cp / 64;
    assert cp == q * 64 + cp % 64;
    assert q == q / 64 * 64 + q % 64;
    assert cp / 4096 == q / 64;
  }

  /** Four hexadecimal digits in either case name a code point, except for the surrogates. */
  lemma UnicodeEscapeReads(d: seq<byte>, rest: seq<byte>)
    requires |d| == 4 && forall i :: 0 <= i < 4 ==> IsHex(d[i])
    ensures HexValue(d) < 0x1_0000
    ensures ReadEscape([LETTER_U] + d + rest)
         == if 0xD800 <= HexValue(d) <= 0xDFFF then None else Some((Utf8(HexValue(d)), 5))
  {
    FourDigits(d);
    var s := [LETTER_U] + d + rest;
    assert s[1] == d[0] && s[2] == d[1] && s[3] == d[2] && s[4] == d[3];
  }

  lemma FourDigits(d: seq<byte>)
    requires |d| == 4 && forall i :: 0 <= i < 4 ==> IsHex(d[i])
    ensures HexValue(d)
         == HexNibble(d[0]) * 4096 + HexNibble(d[1]) * 256 + HexNibble(d[2]) * 16 + HexNibble(d[3]) < 0x1_0000
  {
    assert d[..3][..2] == d[..2] && d[..2][..1] == d[..1] && d[..1][..0] == [];
    assert HexValue(d[..1]) == HexNibble(d[0]);
    assert HexValue(d[..2]) == 16 * HexNibble(d[0]) + HexNibble(d[1]);
    assert HexValue(d[..3]) == 16 * HexValue(d[..2]) + HexNibble(d[2]);
  }
}
