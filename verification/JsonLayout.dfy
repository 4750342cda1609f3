/** Which texts are an object: every layout of its members, and nothing else. */
module JsonLayout {
  import opened Bytes
  import opened WireTypes
  import opened JsonObject

  /** Where a value may end: before white space, a comma or a closing brace. */
  predicate EndsValue(rest: seq<byte>) {
    rest != [] && (IsSpace(rest[0]) || rest[0] == COMMA || rest[0] == CLOSE_BRACE)
  }

  lemma ReadWrittenNumber(n: nat, rest: seq<byte>)
    requires EndsValue(rest)
    ensures ReadScalar(Decimal(n) + rest) == Some((Num(n), rest))
    ensures IsDigit((Decimal(n) + rest)[0])
  {
    ReadDecimal(n, rest);
  }

  // ----- the texts of strings and scalars -----

  /** A string with its quotes, in any spelling that reads as `content`. */
  predicate StringText(t: seq<byte>, content: seq<byte>) {
    t != [] && t[0] == QUOTE && ReadChars(t[1..]) == Some((content, []))
  }

  predicate ScalarText(t: seq<byte>, v: Scalar) {
    match v
    case Str(s) => StringText(t, s)
    case Num(n) => t == Decimal(n)
    case Null => t == NULL
  }

  lemma EscapeIgnoresTail(s: seq<byte>, rest: seq<byte>)
    requires ReadEscape(s).Some?
    ensures ReadEscape(s + rest) == ReadEscape(s) && ReadEscape(s[..ReadEscape(s).value.1]) == ReadEscape(s)
  {}

  lemma {:induction false} CharsIgnoreTail(s: seq<byte>, rest: seq<byte>)
    requires ReadChars(s).Some?
    ensures ReadChars(s + rest) == Some((ReadChars(s).value.0, ReadChars(s).value.1 + rest))
    decreases |s|
  {
    if s[0] == QUOTE {
      assert (s + rest)[1..] == s[1..] + rest;
    } else if s[0] == BACKSLASH {
      var n := ReadEscape(s[1..]).value.1;
      EscapeIgnoresTail(s[1..], rest);
      assert (s + rest)[1..] == s[1..] + rest && (s + rest)[1 + n..] == s[1 + n..] + rest;
      CharsIgnoreTail(s[1 + n..], rest);
    } else {
      assert (s + rest)[1..] == s[1..] + rest;
      CharsIgnoreTail(s[1..], rest);
    }
  }

  /** What a string's reader took off the front reads alike on its own. */
  lemma {:induction false} CharsTaken(s: seq<byte>) returns (t: seq<byte>)
    requires ReadChars(s).Some?
    ensures s == t + ReadChars(s).value.1 && ReadChars(t) == Some((ReadChars(s).value.0, []))
    decreases |s|
  {
    if s[0] == QUOTE {
      t := [QUOTE];
    } else if s[0] == BACKSLASH {
      var (bytes, n) := ReadEscape(s[1..]).value;
      var later := CharsTaken(s[1 + n..]);
      var escape := s[1..][..n];
      EscapeTaken(s[1..], later);
      ReadAfterEscape(escape, bytes, later);
      t := [BACKSLASH] + escape + later;
      assert s == [BACKSLASH] + escape + s[1 + n..];
    } else {
      var later := CharsTaken(s[1..]);
      t := [s[0]] + later;
      assert t[1..] == later;
    }
  }

  lemma EscapeTaken(s: seq<byte>, later: seq<byte>)
    requires ReadEscape(s).Some?
    ensures ReadEscape(s[..ReadEscape(s).value.1] + later) == ReadEscape(s)
  {
    var n := ReadEscape(s).value.1;
    EscapeIgnoresTail(s, []);
    EscapeIgnoresTail(s[..n], later);
  }

  lemma ReadStringText(t: seq<byte>, content: seq<byte>, rest: seq<byte>)
    requires StringText(t, content)
    ensures (t + rest)[0] == QUOTE && ReadChars((t + rest)[1..]) == Some((content, rest))
  {
    CharsIgnoreTail(t[1..], rest);
    TailOfSum(t, rest);
    assert [] + rest == rest;
  }

  lemma TailOfSum(t: seq<byte>, rest: seq<byte>)
    requires t != []
    ensures (t + rest)[0] == t[0] && (t + rest)[1..] == t[1..] + rest
  {}

  lemma ReadScalarText(t: seq<byte>, v: Scalar, rest: seq<byte>)
    requires ScalarText(t, v) && EndsValue(rest)
    ensures t + rest != [] && !IsSpace((t + rest)[0]) && ReadScalar(t + rest) == Some((v, rest))
  {
    match v {
      case Str(content) => ReadStringText(t, content, rest);
      case Num(n) => ReadWrittenNumber(n, rest);
      case Null =>
        var s := NULL + rest;
        assert s[..4] == NULL && s[4..] == rest;
    }
  }

  lemma StringTaken(s: seq<byte>) returns (t: seq<byte>)
    requires s != [] && s[0] == QUOTE && ReadChars(s[1..]).Some?
    ensures s == t + ReadChars(s[1..]).value.1 && StringText(t, ReadChars(s[1..]).value.0)
  {
    var later := CharsTaken(s[1..]);
    t := [QUOTE] + later;
    assert t[1..] == later;
  }

  lemma ScalarTaken(s: seq<byte>) returns (t: seq<byte>)
    requires ReadScalar(s).Some?
    ensures s == t + ReadScalar(s).value.1 && ScalarText(t, ReadScalar(s).value.0)
  {
    if s[0] == QUOTE {
      t := StringTaken(s);
    } else if NULL <= s {
      t := NULL;
    } else {
      var (n, rest) := ReadNumber(s).value;
      NumbersAreCanonical(s, n, rest);
      t := Decimal(n);
    }
  }

  lemma WrittenStringText(content: seq<byte>)
    ensures StringText(Quoted(content), content)
  {
    ReadQuoted(content, []);
    assert Quoted(content)[1..] == Escape(content) + [QUOTE] + [];
  }

  lemma WrittenScalarText(v: Scalar)
    ensures ScalarText(WriteScalar(v), v)
  {
    if v.Str? {
      WrittenStringText(v.s);
    }
  }

  // ----- every layout of an object -----

  predicate Blank(s: seq<byte>) {
    forall i :: 0 <= i < |s| ==> IsSpace(s[i])
  }

  /** A member as it may be spelled, with the white space around its tokens. */
  datatype Spaced = Spaced(
    field: Field, nameText: seq<byte>, valueText: seq<byte>,
    beforeName: seq<byte>, beforeColon: seq<byte>, afterColon: seq<byte>, afterValue: seq<byte>)

  predicate WellSpaced(f: Spaced) {
    && StringText(f.nameText, f.field.name) && ScalarText(f.valueText, f.field.value)
    && Blank(f.beforeName) && Blank(f.beforeColon) && Blank(f.afterColon) && Blank(f.afterValue)
  }

  /** From the colon on. */
  function SpreadValue(f: Spaced): seq<byte> {
    [COLON] + (f.afterColon + (f.valueText + f.afterValue))
  }

  function Spread(f: Spaced): seq<byte> {
    f.beforeName + (f.nameText + (f.beforeColon + SpreadValue(f)))
  }

  function SpreadRest(fs: seq<Spaced>): seq<byte> {
    if fs == [] then [CLOSE_BRACE] else [COMMA] + Spread(fs[0]) + SpreadRest(fs[1..])
  }

  /** The members with their braces; `inside` is the white space of an empty object. */
  function SpreadObject(fs: seq<Spaced>, inside: seq<byte>): seq<byte> {
    [OPEN_BRACE] + if fs == [] then inside + [CLOSE_BRACE] else Spread(fs[0]) + SpreadRest(fs[1..])
  }

  function Fields(fs: seq<Spaced>): (r: seq<Field>)
    ensures |r| == |fs|
  {
    if fs == [] then [] else [fs[0].field] + Fields(fs[1..])
  }

  lemma {:induction false} SkipBlank(space: seq<byte>, rest: seq<byte>)
    requires Blank(space) && (rest == [] || !IsSpace(rest[0]))
    ensures SkipSpace(space + rest) == rest
    decreases |space|
  {
    if space == [] {
      assert space + rest == rest;
    } else {
      assert (space + rest)[1..] == space[1..] + rest;
      SkipBlank(space[1..], rest);
    }
  }

  lemma {:induction false} OnlyBlankIsSkipped(s: seq<byte>)
    ensures SkipSpace(s) == [] <==> Blank(s)
    decreases |s|
  {
    if s != [] {
      OnlyBlankIsSkipped(s[1..]);
    }
  }

  lemma ReadFieldParts(s: seq<byte>, name: seq<byte>, space: seq<byte>, after: seq<byte>, value: seq<byte>, v: Scalar,
                       rest: seq<byte>)
    requires s != [] && s[0] == QUOTE && ReadChars(s[1..]) == Some((name, space + ([COLON] + (after + value))))
    requires Blank(space) && Blank(after)
    requires value != [] && !IsSpace(value[0]) && ReadScalar(value) == Some((v, rest))
    ensures ReadField(s) == Some((Field(name, v), rest))
  {
    var colon := [COLON] + (after + value);
    SkipBlank(space, colon);
    assert colon[1..] == after + value;
    SkipBlank(after, value);
  }

  lemma Regroup(a: seq<byte>, b: seq<byte>, c: seq<byte>, rest: seq<byte>)
    ensures a + (b + c) + rest == a + (b + (c + rest))
  {}

  /** One member with any white space, from its name on. */
  lemma ReadSpreadField(f: Spaced, rest: seq<byte>)
    requires WellSpaced(f) && EndsValue(f.afterValue + rest)
    ensures SkipSpace(Spread(f) + rest) != [] && SkipSpace(Spread(f) + rest)[0] == QUOTE
    ensures ReadField(SkipSpace(Spread(f) + rest)) == Some((f.field, f.afterValue + rest))
  {
    var value := f.valueText + (f.afterValue + rest);
    var tail := f.beforeColon + ([COLON] + (f.afterColon + value));
    var s := f.nameText + tail;
    assert SpreadValue(f) + rest == [COLON] + (f.afterColon + value);
    Regroup(f.nameText, f.beforeColon, SpreadValue(f), rest);
    assert Spread(f) + rest == f.beforeName + s;
    ReadStringText(f.nameText, f.field.name, tail);
    SkipBlank(f.beforeName, s);
    ReadScalarText(f.valueText, f.field.value, f.afterValue + rest);
    ReadFieldParts(s, f.field.name, f.beforeColon, f.afterColon, value, f.field.value, f.afterValue + rest);
  }

  lemma AfterValueEnds(space: seq<byte>, rest: seq<byte>)
    requires Blank(space) && rest != [] && (rest[0] == COMMA || rest[0] == CLOSE_BRACE)
    ensures EndsValue(space + rest) && SkipSpace(space + rest) == rest == SkipSpace(rest)
  {
    SkipBlank(space, rest);
    SkipBlank([], rest);
    assert [] + rest == rest;
  }

  lemma RestStarts(fs: seq<Spaced>, tail: seq<byte>)
    ensures SpreadRest(fs) + tail != []
    ensures (SpreadRest(fs) + tail)[0] == COMMA || (SpreadRest(fs) + tail)[0] == CLOSE_BRACE
  {}

  lemma ReadRestParts(s: seq<byte>, t: seq<byte>, f: Field, rest: seq<byte>)
    requires SkipSpace(s) == [COMMA] + t && ReadField(SkipSpace(t)) == Some((f, rest))
    ensures ReadRest(s) == match ReadRest(rest) case None => None case Some((fs, end)) => Some(([f] + fs, end))
  {
    assert ([COMMA] + t)[1..] == t;
  }

  lemma ReadRestOfSpread(f: Spaced, later: seq<byte>, space: seq<byte>)
    requires WellSpaced(f) && Blank(space) && later != [] && (later[0] == COMMA || later[0] == CLOSE_BRACE)
    ensures ReadRest(space + ([COMMA] + (Spread(f) + later)))
         == match ReadRest(f.afterValue + later) case None => None case Some((fs, end)) => Some(([f.field] + fs, end))
  {
    var t := Spread(f) + later;
    AfterValueEnds(space, [COMMA] + t);
    AfterValueEnds(f.afterValue, later);
    ReadSpreadField(f, later);
    ReadRestParts(space + ([COMMA] + t), t, f.field, f.afterValue + later);
  }

  lemma Regrouped(mark: seq<byte>, first: seq<byte>, rest: seq<byte>, tail: seq<byte>)
    ensures mark + first + rest + tail == mark + (first + (rest + tail))
  {}

  lemma {:induction false} ReadSpreadRest(fs: seq<Spaced>, space: seq<byte>, tail: seq<byte>)
    requires (forall i :: 0 <= i < |fs| ==> WellSpaced(fs[i])) && Blank(space)
    ensures ReadRest(space + (SpreadRest(fs) + tail)) == Some((Fields(fs), tail))
    decreases |fs|
  {
    if fs == [] {
      AfterValueEnds(space, [CLOSE_BRACE] + tail);
      assert ([CLOSE_BRACE] + tail)[1..] == tail;
    } else {
      var later := SpreadRest(fs[1..]) + tail;
      RestStarts(fs[1..], tail);
      Regrouped([COMMA], Spread(fs[0]), SpreadRest(fs[1..]), tail);
      ReadRestOfSpread(fs[0], later, space);
      ReadSpreadRest(fs[1..], fs[0].afterValue, tail);
    }
  }

  lemma ReadObjectParts(s: seq<byte>, first: seq<byte>, f: Field, rest: seq<byte>, fs: seq<Field>, end: seq<byte>)
    requires SkipSpace(s) == [OPEN_BRACE] + first && SkipSpace(first) != [] && SkipSpace(first)[0] == QUOTE
    requires ReadField(SkipSpace(first)) == Some((f, rest)) && ReadRest(rest) == Some((fs, end))
    ensures ReadObject(s) == if Blank(end) then Some([f] + fs) else None
  {
    assert ([OPEN_BRACE] + first)[1..] == first;
    OnlyBlankIsSkipped(end);
  }

  lemma EmptyObjectReads(before: seq<byte>, inside: seq<byte>, tail: seq<byte>)
    requires Blank(before) && Blank(inside)
    ensures ReadObject(before + ([OPEN_BRACE] + (inside + [CLOSE_BRACE])) + tail)
         == if Blank(tail) then Some([]) else None
  {
    var first := inside + ([CLOSE_BRACE] + tail);
    var s := [OPEN_BRACE] + first;
    assert before + ([OPEN_BRACE] + (inside + [CLOSE_BRACE])) + tail == before + s;
    SkipBlank(before, s);
    assert s[1..] == first;
    SkipBlank(inside, [CLOSE_BRACE] + tail);
    assert ([CLOSE_BRACE] + tail)[1..] == tail;
    OnlyBlankIsSkipped(tail);
  }

  lemma MembersRead(before: seq<byte>, f: Spaced, fs: seq<Spaced>, tail: seq<byte>)
    requires Blank(before) && WellSpaced(f) && forall i :: 0 <= i < |fs| ==> WellSpaced(fs[i])
    ensures ReadObject(before + ([OPEN_BRACE] + (Spread(f) + (SpreadRest(fs) + tail))))
         == if Blank(tail) then Some([f.field] + Fields(fs)) else None
  {
    var later := SpreadRest(fs) + tail;
    var first := Spread(f) + later;
    SkipBlank(before, [OPEN_BRACE] + first);
    RestStarts(fs, tail);
    AfterValueEnds(f.afterValue, later);
    ReadSpreadField(f, later);
    ReadSpreadRest(fs, f.afterValue, tail);
    ReadObjectParts(before + ([OPEN_BRACE] + first), first, f.field, f.afterValue + later, Fields(fs), tail);
  }

  lemma ObjectText(before: seq<byte>, first: seq<byte>, rest: seq<byte>, tail: seq<byte>)
    ensures before + ([OPEN_BRACE] + (first + rest)) + tail == before + ([OPEN_BRACE] + (first + (rest + tail)))
  {}

  /**
   Any list of members in any layout, with any white space before, between and after its tokens, reads as
   those members; anything but white space after the closing brace makes the text no object.
   */
  lemma LayoutDoesNotMatter(before: seq<byte>, fs: seq<Spaced>, inside: seq<byte>, tail: seq<byte>)
    requires Blank(before) && Blank(inside) && forall i :: 0 <= i < |fs| ==> WellSpaced(fs[i])
    ensures ReadObject(before + SpreadObject(fs, inside) + tail) == if Blank(tail) then Some(Fields(fs)) else None
  {
    if fs == [] {
      EmptyObjectReads(before, inside, tail);
    } else {
      MembersRead(before, fs[0], fs[1..], tail);
      ObjectText(before, Spread(fs[0]), SpreadRest(fs[1..]), tail);
    }
  }

  // ----- nothing else is an object -----

  lemma {:induction false} SpaceTaken(s: seq<byte>) returns (space: seq<byte>)
    ensures Blank(space) && s == space + SkipSpace(s)
    ensures SkipSpace(s) == [] || !IsSpace(SkipSpace(s)[0])
    decreases |s|
  {
    if s != [] && IsSpace(s[0]) {
      var later := SpaceTaken(s[1..]);
      space := [s[0]] + later;
    } else {
      space := [];
    }
  }

  lemma FieldTaken(s: seq<byte>) returns (f: Spaced)
    requires ReadField(s).Some?
    ensures WellSpaced(f) && f.field == ReadField(s).value.0 && f.beforeName == [] && f.afterValue == []
    ensures s == Spread(f) + ReadField(s).value.1
  {
    var (name, afterName) := ReadChars(s[1..]).value;
    var nameText := StringTaken(s);
    var beforeColon := SpaceTaken(afterName);
    var colon := SkipSpace(afterName);
    var afterColon := SpaceTaken(colon[1..]);
    var value := SkipSpace(colon[1..]);
    var valueText := ScalarTaken(value);
    f := Spaced(ReadField(s).value.0, nameText, valueText, [], beforeColon, afterColon, []);
    FieldParts(f, ReadField(s).value.1);
    assert colon == [COLON] + (afterColon + value);
  }

  lemma FieldParts(f: Spaced, rest: seq<byte>)
    requires f.beforeName == [] && f.afterValue == []
    ensures Spread(f) + rest
         == f.nameText + (f.beforeColon + ([COLON] + (f.afterColon + (f.valueText + rest))))
  {}

  lemma SpreadWithin(f: Spaced, before: seq<byte>, after: seq<byte>, rest: seq<byte>)
    requires f.beforeName == [] && f.afterValue == []
    ensures Spread(f.(beforeName := before, afterValue := after)) + rest == before + (Spread(f) + (after + rest))
  {}

  /** A member with the white space around it, the members after it, and what follows. */
  lemma MemberText(f: Spaced, before: seq<byte>, after: seq<byte>, later: seq<Spaced>, end: seq<byte>, rest: seq<byte>)
    requires f.beforeName == [] && f.afterValue == [] && rest == after + (SpreadRest(later) + end)
    ensures var first := f.(beforeName := before, afterValue := after);
            && SpreadRest([first] + later) + end == [COMMA] + (before + (Spread(f) + rest))
            && SpreadObject([first] + later, []) + end == [OPEN_BRACE] + (before + (Spread(f) + rest))
  {
    var first := f.(beforeName := before, afterValue := after);
    SpreadWithin(f, before, after, SpreadRest(later) + end);
    assert ([first] + later)[1..] == later;
    Regrouped([COMMA], Spread(first), SpreadRest(later), end);
    Regrouped([OPEN_BRACE], Spread(first), SpreadRest(later), end);
    assert SpreadObject([first] + later, []) == [OPEN_BRACE] + Spread(first) + SpreadRest(later);
  }

  lemma HeadAndTail(t: seq<byte>, head: byte)
    requires t != [] && t[0] == head
    ensures t == [head] + t[1..]
  {}

  lemma {:induction false} RestTaken(s: seq<byte>) returns (space: seq<byte>, fs: seq<Spaced>)
    requires ReadRest(s).Some?
    ensures Blank(space) && forall i :: 0 <= i < |fs| ==> WellSpaced(fs[i])
    ensures Fields(fs) == ReadRest(s).value.0 && s == space + (SpreadRest(fs) + ReadRest(s).value.1)
    decreases |s|
  {
    var end := ReadRest(s).value.1;
    space := SpaceTaken(s);
    var t := SkipSpace(s);
    if t[0] == CLOSE_BRACE {
      fs := [];
    } else {
      var before := SpaceTaken(t[1..]);
      var f := FieldTaken(SkipSpace(t[1..]));
      var rest := ReadField(SkipSpace(t[1..])).value.1;
      var after, later := RestTaken(rest);
      fs := [f.(beforeName := before, afterValue := after)] + later;
      MemberText(f, before, after, later, end, rest);
      HeadAndTail(t, COMMA);
    }
  }

  /** A text of an object: its members as they are spelled, and the white space around them. */
  datatype Layout = Layout(before: seq<byte>, members: seq<Spaced>, inside: seq<byte>, after: seq<byte>)

  predicate Lays(l: Layout, fs: seq<Field>, s: seq<byte>) {
    && Blank(l.before) && Blank(l.inside) && Blank(l.after)
    && (forall i :: 0 <= i < |l.members| ==> WellSpaced(l.members[i]))
    && Fields(l.members) == fs && s == l.before + SpreadObject(l.members, l.inside) + l.after
  }

  lemma EmptyTaken(before: seq<byte>, inside: seq<byte>, first: seq<byte>)
    requires first != [] && first[0] == CLOSE_BRACE
    ensures before + ([OPEN_BRACE] + (inside + first)) == before + SpreadObject([], inside) + first[1..]
  {
    HeadAndTail(first, CLOSE_BRACE);
  }

  lemma MembersTaken(first: seq<byte>, inside: seq<byte>) returns (members: seq<Spaced>)
    requires Blank(inside) && ReadField(first).Some? && ReadRest(ReadField(first).value.1).Some?
    ensures forall i :: 0 <= i < |members| ==> WellSpaced(members[i])
    ensures var (f, rest) := ReadField(first).value;
            var (fs, end) := ReadRest(rest).value;
            Fields(members) == [f] + fs && [OPEN_BRACE] + (inside + first) == SpreadObject(members, []) + end
  {
    var f := FieldTaken(first);
    var rest := ReadField(first).value.1;
    var after, later := RestTaken(rest);
    members := [f.(beforeName := inside, afterValue := after)] + later;
    MemberText(f, inside, after, later, ReadRest(rest).value.1, rest);
    assert members[1..] == later;
  }

  lemma ObjectTaken(s: seq<byte>) returns (l: Layout)
    requires ReadObject(s).Some?
    ensures Lays(l, ReadObject(s).value, s)
  {
    var before := SpaceTaken(s);
    var t := SkipSpace(s);
    var inside := SpaceTaken(t[1..]);
    var first := SkipSpace(t[1..]);
    HeadAndTail(t, OPEN_BRACE);
    if first[0] == CLOSE_BRACE {
      OnlyBlankIsSkipped(first[1..]);
      l := Layout(before, [], inside, first[1..]);
      EmptyTaken(before, inside, first);
    } else {
      var members := MembersTaken(first, inside);
      var end := ReadRest(ReadField(first).value.1).value.1;
      OnlyBlankIsSkipped(end);
      l := Layout(before, members, [], end);
      Associate(before, SpreadObject(members, []), end);
    }
  }

  lemma Associate(a: seq<byte>, b: seq<byte>, c: seq<byte>)
    ensures a + (b + c) == a + b + c
  {}

  /**
   The reader accepts exactly the layouts of an object: any spelling of each string, any white space between the
   tokens, and nothing but white space around the whole.
   */
  lemma ReadObjectExactly(s: seq<byte>, fs: seq<Field>)
    ensures ReadObject(s) == Some(fs) <==> exists l :: Lays(l, fs, s)
  {
    if ReadObject(s) == Some(fs) {
      var l := ObjectTaken(s);
    }
    forall l | Lays(l, fs, s) ensures ReadObject(s) == Some(fs) {
      LayoutDoesNotMatter(l.before, l.members, l.inside, l.after);
    }
  }

  // ----- what the writer writes -----

  function CompactField(f: Field): Spaced {
    Spaced(f, Quoted(f.name), WriteScalar(f.value), [], [], [], [])
  }

  function Compact(fs: seq<Field>): (r: seq<Spaced>)
    ensures |r| == |fs|
  {
    if fs == [] then [] else [CompactField(fs[0])] + Compact(fs[1..])
  }

  lemma CompactFieldText(f: Field)
    ensures Spread(CompactField(f)) == WriteField(f) && WellSpaced(CompactField(f))
  {
    var c := CompactField(f);
    WrittenStringText(f.name);
    WrittenScalarText(f.value);
    assert SpreadValue(c) == [COLON] + WriteScalar(f.value);
    assert Spread(c) == Quoted(f.name) + ([COLON] + WriteScalar(f.value));
  }

  lemma {:induction false} CompactRest(fs: seq<Field>)
    ensures SpreadRest(Compact(fs)) == WriteRest(fs) && Fields(Compact(fs)) == fs
    decreases |fs|
  {
    if fs != [] {
      CompactFieldText(fs[0]);
      CompactRest(fs[1..]);
      assert Compact(fs)[1..] == Compact(fs[1..]);
    }
  }

  lemma {:induction false} CompactIsWellSpaced(fs: seq<Field>)
    ensures forall i :: 0 <= i < |fs| ==> WellSpaced(Compact(fs)[i])
    decreases |fs|
  {
    if fs != [] {
      CompactFieldText(fs[0]);
      CompactIsWellSpaced(fs[1..]);
    }
  }

  lemma CompactObject(fs: seq<Field>)
    ensures SpreadObject(Compact(fs), []) == WriteObject(fs)
  {
    if fs != [] {
      CompactFieldText(fs[0]);
      CompactRest(fs[1..]);
      assert Compact(fs)[1..] == Compact(fs[1..]);
    } else {
      assert [] + [CLOSE_BRACE] == [CLOSE_BRACE];
    }
  }

  lemma NothingBefore(s: seq<byte>, tail: seq<byte>)
    ensures [] + s + tail == s + tail
  {}

  /** Any list of members, with any names, strings and numbers, reads back as written; only space may follow it. */
  lemma ObjectRoundTrip(fs: seq<Field>, tail: seq<byte>)
    ensures ReadObject(WriteObject(fs) + tail) == if Blank(tail) then Some(fs) else None
  {
    CompactObject(fs);
    CompactRest(fs);
    CompactIsWellSpaced(fs);
    LayoutDoesNotMatter([], Compact(fs), [], tail);
    NothingBefore(WriteObject(fs), tail);
  }
}
