/**
 The base64url alphabet without padding (section 5 of RFC 4648), as the credential
 newtype uses it: strict about the alphabet, about the impossible length 4k+1, and
 about unused trailing bits being zero.
 */
module Base64 {
  import opened Bytes

  type sextet = v: int | 0 <= v < 64

  function Char(v: sextet): (c: byte) {
    if v < 26 then 'A' as int + v
    else if v < 52 then 'a' as int + (v - 26)
    else if v < 62 then '0' as int + (v - 52)
    else if v == 62 then '-' as int
    else '_' as int
  }

  predicate InAlphabet(c: byte) {
    'A' as int <= c <= 'Z' as int || 'a' as int <= c <= 'z' as int || '0' as int <= c <= '9' as int
    || c == '-' as int || c == '_' as int
  }

  function Value(c: byte): (v: sextet)
    requires InAlphabet(c)
    ensures Char(v) == c
  {
    if 'A' as int <= c <= 'Z' as int then c - 'A' as int
    else if 'a' as int <= c <= 'z' as int then c - 'a' as int + 26
    else if '0' as int <= c <= '9' as int then c - '0' as int + 52
    else if c == '-' as int then 62
    else 63
  }

  lemma CharThenValue(v: sextet)
    ensures InAlphabet(Char(v)) && Value(Char(v)) == v
  {}

  // Three bytes as four sextets, and back.

  function Sextets(b0: byte, b1: byte, b2: byte): (v: (sextet, sextet, sextet, sextet)) {
    (b0 / 4, b0 % 4 * 16 + b1 / 16, b1 % 16 * 4 + b2 / 64, b2 % 64)
  }

  function Octets(v0: sextet, v1: sextet, v2: sextet, v3: sextet): (b: (byte, byte, byte)) {
    (v0 * 4 + v1 / 16, v1 % 16 * 16 + v2 / 4, v2 % 4 * 64 + v3)
  }

  lemma By4(a: nat, b: nat)
    requires b < 4
    ensures (a * 4 + b) / 4 == a && (a * 4 + b) % 4 == b
  {}

  lemma By16(a: nat, b: nat)
    requires b < 16
    ensures (a * 16 + b) / 16 == a && (a * 16 + b) % 16 == b
  {}

  lemma By64(a: nat, b: nat)
    requires b < 64
    ensures (a * 64 + b) / 64 == a && (a * 64 + b) % 64 == b
  {}

  lemma Whole(b: byte)
    ensures b / 4 * 4 + b % 4 == b && b / 16 * 16 + b % 16 == b && b / 64 * 64 + b % 64 == b
  {}

  lemma SextetsThenOctets(b0: byte, b1: byte, b2: byte)
    ensures var v := Sextets(b0, b1, b2); Octets(v.0, v.1, v.2, v.3) == (b0, b1, b2)
  {
    By16(b0 % 4, b1 / 16);
    By4(b1 % 16, b2 / 64);
    Whole(b0);
    Whole(b1);
    Whole(b2);
  }

  lemma OctetsThenSextets(v0: sextet, v1: sextet, v2: sextet, v3: sextet)
    ensures var b := Octets(v0, v1, v2, v3); Sextets(b.0, b.1, b.2) == (v0, v1, v2, v3)
  {
    By4(v0, v1 / 16);
    By16(v1 % 16, v2 / 4);
    By64(v2 % 4, v3);
  }

  /** A trailing group of one or two bytes is padded with zero bytes and cut after its last used sextet. */
  function Encode(b: seq<byte>): (s: seq<byte>)
    ensures |s| == (4 * |b| + 2) / 3
    ensures forall i :: 0 <= i < |s| ==> InAlphabet(s[i])
    decreases |b|
  {
    if |b| == 0 then []
    else
      var v := Sextets(b[0], if |b| > 1 then b[1] else 0, if |b| > 2 then b[2] else 0);
      if |b| == 1 then [Char(v.0), Char(v.1)]
      else if |b| == 2 then [Char(v.0), Char(v.1), Char(v.2)]
      else [Char(v.0), Char(v.1), Char(v.2), Char(v.3)] + Encode(b[3..])
  }

  predicate GroupInAlphabet(s: seq<byte>) {
    forall i :: 0 <= i < |s| && i < 4 ==> InAlphabet(s[i])
  }

  function Group(s: seq<byte>): (b: (byte, byte, byte))
    requires |s| >= 2 && GroupInAlphabet(s)
  {
    Octets(Value(s[0]), Value(s[1]),
           if |s| > 2 then Value(s[2]) else 0, if |s| > 3 then Value(s[3]) else 0)
  }

  function Decode(s: seq<byte>): (r: Option<seq<byte>>)
    decreases |s|
  {
    if |s| == 0 then Some([])
    else if |s| == 1 || !GroupInAlphabet(s) then None
    else
      var b := Group(s);
      if |s| == 2 then (if b.1 == 0 then Some([b.0]) else None)
      else if |s| == 3 then (if b.2 == 0 then Some([b.0, b.1]) else None)
      else
        match Decode(s[4..])
        case None => None
        case Some(rest) => Some([b.0, b.1, b.2] + rest)
  }

  lemma GroupOfEncoding(b: seq<byte>)
    requires |b| > 0
    ensures GroupInAlphabet(Encode(b)) && |Encode(b)| >= 2
    ensures Group(Encode(b)) == (b[0], if |b| > 1 then b[1] else 0, if |b| > 2 then b[2] else 0)
  {
    var b1, b2 := if |b| > 1 then b[1] else 0, if |b| > 2 then b[2] else 0;
    var v := Sextets(b[0], b1, b2);
    CharThenValue(v.0); CharThenValue(v.1); CharThenValue(v.2); CharThenValue(v.3);
    SextetsThenOctets(b[0], b1, b2);
  }

  /** Decoding undoes encoding. */
  lemma {:induction false} DecodeEncode(b: seq<byte>)
    ensures Decode(Encode(b)) == Some(b)
    decreases |b|
  {
    if |b| > 0 {
      GroupOfEncoding(b);
      if |b| == 1 {
        assert b == [b[0]];
      } else if |b| == 2 {
        assert b == [b[0], b[1]];
      } else {
        DecodeEncode(b[3..]);
        assert Encode(b)[4..] == Encode(b[3..]);
        assert b == [b[0], b[1], b[2]] + b[3..];
      }
    }
  }

  lemma EncodingOfGroup(s: seq<byte>)
    requires |s| >= 2 && GroupInAlphabet(s)
    ensures var b := Group(s); var v := Sextets(b.0, b.1, b.2);
            && Char(v.0) == s[0] && Char(v.1) == s[1]
            && (|s| > 2 ==> Char(v.2) == s[2]) && (|s| > 3 ==> Char(v.3) == s[3])
  {
    OctetsThenSextets(Value(s[0]), Value(s[1]),
                      if |s| > 2 then Value(s[2]) else 0, if |s| > 3 then Value(s[3]) else 0);
  }

  /** Every accepted string is the encoding of what it decodes to: the wire form is canonical. */
  lemma {:induction false} EncodeDecode(s: seq<byte>)
    requires Decode(s).Some?
    ensures Encode(Decode(s).value) == s
    decreases |s|
  {
    if |s| > 0 {
      EncodingOfGroup(s);
      if |s| == 2 {
        assert s == [s[0], s[1]];
      } else if |s| == 3 {
        assert s == [s[0], s[1], s[2]];
      } else {
        EncodeDecode(s[4..]);
        assert Decode(s).value[3..] == Decode(s[4..]).value;
        assert s == [s[0], s[1], s[2], s[3]] + s[4..];
      }
    }
  }

  /** The accepted strings are exactly the encodings. */
  lemma AcceptsExactlyEncodings(s: seq<byte>)
    ensures Decode(s).Some? <==> exists b: seq<byte> :: Encode(b) == s
  {
    if Decode(s).Some? {
      EncodeDecode(s);
    }
    forall b: seq<byte> | Encode(b) == s ensures Decode(s).Some? {
      DecodeEncode(b);
    }
  }

  // ----- the wire form itself -----

  /** The alphabet in the order of the values: A to Z, a to z, 0 to 9, and the two URL-safe characters. */
  lemma AlphabetExactly(v: sextet)
    ensures Char(0) == 'A' as int && Char(25) == 'Z' as int && Char(26) == 'a' as int && Char(51) == 'z' as int
    ensures Char(52) == '0' as int && Char(61) == '9' as int && Char(62) == '-' as int && Char(63) == '_' as int
    ensures v < 61 && v != 25 && v != 51 ==> Char(v + 1) == Char(v) + 1
  {}

  /** Three bytes and their four sextets are the same 24-bit number, most significant first. */
  lemma GroupIsNumber(b0: byte, b1: byte, b2: byte)
    ensures var v := Sextets(b0, b1, b2);
            v.0 * 262_144 + v.1 * 4_096 + v.2 * 64 + v.3 == b0 * 65_536 + b1 * 256 + b2
  {
    Whole(b0);
    Whole(b1);
    Whole(b2);
  }

  /** An encoding goes group by group; a last group of one or two bytes is cut to two or three characters. */
  lemma EncodeByGroups(b0: byte, b1: byte, b2: byte, rest: seq<byte>)
    ensures var v := Sextets(b0, b1, b2);
            Encode([b0, b1, b2] + rest) == [Char(v.0), Char(v.1), Char(v.2), Char(v.3)] + Encode(rest)
    ensures var v := Sextets(b0, b1, 0); Encode([b0, b1]) == [Char(v.0), Char(v.1), Char(v.2)]
    ensures var v := Sextets(b0, 0, 0); Encode([b0]) == [Char(v.0), Char(v.1)] && Encode([]) == []
  {
    assert ([b0, b1, b2] + rest)[3..] == rest;
  }
}
