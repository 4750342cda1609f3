/** The JSON header of each message. Bodies are never part of it. */
module MessageHeader {
  import opened Bytes
  import opened WireTypes
  import opened JsonObject
  import JsonLayout
  import Base64

  const TYPE: seq<byte> := Ascii("type")
  const TASK: seq<byte> := Ascii("task")
  const DEADLINE: seq<byte> := Ascii("deadline")
  const CONTENT_TYPE: seq<byte> := Ascii("content_type")
  const CREDENTIAL: seq<byte> := Ascii("credential")
  const CODE: seq<byte> := Ascii("code")

  function CodeName(code: FailureCode): seq<byte> {
    match code
    case Unauthorized => Ascii("unauthorized")
    case Rejected => Ascii("rejected")
    case DeadlineExceeded => Ascii("deadline_exceeded")
    case HandlerError => Ascii("handler_error")
  }

  function CodeOf(name: seq<byte>): Option<FailureCode> {
    if name == CodeName(Unauthorized) then Some(Unauthorized)
    else if name == CodeName(Rejected) then Some(Rejected)
    else if name == CodeName(DeadlineExceeded) then Some(DeadlineExceeded)
    else if name == CodeName(HandlerError) then Some(HandlerError)
    else None
  }

  function TagName(m: Message): seq<byte> {
    match m
    case Submit(_, _, _, _, _) => Ascii("submit")
    case Accepted => Ascii("accepted")
    case Progress => Ascii("progress")
    case NeedInput => Ascii("need_input")
    case Input(_) => Ascii("input")
    case Completed(_) => Ascii("completed")
    case Failed(_) => Ascii("failed")
    case Cancel => Ascii("cancel")
    case Canceled => Ascii("canceled")
  }

  /** The members the serializer writes, tag first. */
  function Members(m: Message): seq<Field> {
    var tag := Field(TYPE, Str(TagName(m)));
    match m
    case Submit(task, deadline, contentType, credential, _) =>
      [tag, Field(TASK, Str(ToHex(task))), Field(DEADLINE, Num(deadline)), Field(CONTENT_TYPE, Str(contentType))]
      + (if credential.Some? then [Field(CREDENTIAL, Str(credential.value))] else [])
    case Failed(code) => [tag, Field(CODE, Str(CodeName(code)))]
    case _ => [tag]
  }

  function Header(m: Message): seq<byte> {
    WriteObject(Members(m))
  }

  // ----- reading -----

  datatype Found = Absent | Once(value: Scalar) | Twice

  function Find(fs: seq<Field>, name: seq<byte>): Found {
    if fs == [] then Absent
    else
      var later := Find(fs[1..], name);
      if fs[0].name != name then later
      else if later.Absent? then Once(fs[0].value)
      else Twice
  }

  function FindString(fs: seq<Field>, name: seq<byte>): Option<seq<byte>> {
    match Find(fs, name)
    case Once(Str(s)) => Some(s)
    case _ => None
  }

  function ReadCredential(fs: seq<Field>): Option<Option<Credential>> {
    match Find(fs, CREDENTIAL)
    case Absent => Some(None)
    case Once(Null) => Some(None)
    case Once(Str(s)) => (match CredentialNew(s) case Ok(c) => Some(Some(c)) case Err(_) => None)
    case _ => None
  }

  function ReadSubmit(fs: seq<Field>): (r: Option<Message>)
    ensures r.Some? ==> r.value.Submit? && r.value.body == []
  {
    var task := FindString(fs, TASK);
    var deadline := Find(fs, DEADLINE);
    var contentType := FindString(fs, CONTENT_TYPE);
    var credential := ReadCredential(fs);
    if task.None? || FromHex(task.value).Err? then None
    else if !(deadline.Once? && deadline.value.Num? && deadline.value.n < U32_SIZE) then None
    else if DeadlineNew(deadline.value.n).Err? then None
    else if contentType.None? || ContentTypeNew(contentType.value).Err? then None
    else if credential.None? then None
    else Some(Submit(FromHex(task.value).value, DeadlineNew(deadline.value.n).value,
                     ContentTypeNew(contentType.value).value, credential.value, []))
  }

  function ReadFailed(fs: seq<Field>): (r: Option<Message>)
    ensures r.Some? ==> r.value.Failed?
  {
    match FindString(fs, CODE)
    case None => None
    case Some(name) => match CodeOf(name) case None => None case Some(code) => Some(Message.Failed(code))
  }

  /** The message a list of members stands for; members it does not know are ignored. */
  function Interpret(fs: seq<Field>): (r: Option<Message>)
    ensures r.Some? ==> MessageBody(r.value) == []
  {
    match FindString(fs, TYPE)
    case None => None
    case Some(tag) =>
      if tag == Ascii("submit") then ReadSubmit(fs)
      else if tag == Ascii("accepted") then Some(Accepted)
      else if tag == Ascii("progress") then Some(Progress)
      else if tag == Ascii("need_input") then Some(NeedInput)
      else if tag == Ascii("input") then Some(Input([]))
      else if tag == Ascii("completed") then Some(Message.Completed([]))
      else if tag == Ascii("failed") then ReadFailed(fs)
      else if tag == Ascii("cancel") then Some(Cancel)
      else if tag == Ascii("canceled") then Some(Message.Canceled)
      else None
  }

  /** The header reader never produces a body. */
  function ReadHeader(s: seq<byte>): (r: Option<Message>)
    ensures r.Some? ==> MessageBody(r.value) == []
  {
    match ReadObject(s) case None => None case Some(fs) => Interpret(fs)
  }

  predicate HasBody(m: Message) {
    m.Submit? || m.Input? || m.Completed?
  }

  function SetBody(m: Message, body: seq<byte>): Message {
    if HasBody(m) then m.(body := body) else m
  }

  function MessageBody(m: Message): seq<byte> {
    if HasBody(m) then m.body else []
  }

  // ----- round trip -----

  lemma {:induction false} FindOnly(fs: seq<Field>, name: seq<byte>, k: nat)
    requires k < |fs| && fs[k].name == name
    requires forall i :: 0 <= i < |fs| && i != k ==> fs[i].name != name
    ensures Find(fs, name) == Once(fs[k].value)
    decreases |fs|
  {
    if k == 0 {
      FindNone(fs[1..], name);
    } else {
      FindOnly(fs[1..], name, k - 1);
    }
  }

  lemma {:induction false} FindNone(fs: seq<Field>, name: seq<byte>)
    requires forall i :: 0 <= i < |fs| ==> fs[i].name != name
    ensures Find(fs, name) == Absent
    decreases |fs|
  {
    if fs != [] {
      FindNone(fs[1..], name);
    }
  }

  lemma AsciiDistinct(a: string, b: string)
    requires forall i :: 0 <= i < |a| ==> a[i] as int < 128
    requires forall i :: 0 <= i < |b| ==> b[i] as int < 128
    ensures Ascii(a) == Ascii(b) <==> a == b
  {
    if Ascii(a) == Ascii(b) {
      forall i | 0 <= i < |a| ensures a[i] == b[i] {
        assert Ascii(a)[i] == Ascii(b)[i];
      }
    }
  }

  lemma NamesDistinct()
    ensures TYPE != TASK && TYPE != DEADLINE && TYPE != CONTENT_TYPE && TYPE != CREDENTIAL && TYPE != CODE
    ensures TASK != DEADLINE && TASK != CONTENT_TYPE && TASK != CREDENTIAL
    ensures DEADLINE != CONTENT_TYPE && DEADLINE != CREDENTIAL && CONTENT_TYPE != CREDENTIAL
  {
    AsciiDistinct("type", "task");
    AsciiDistinct("type", "code");
  }

  lemma ReadSubmitParts(fs: seq<Field>, m: Message)
    requires m.Submit?
    requires Find(fs, TASK) == Once(Str(ToHex(m.task))) && FromHex(ToHex(m.task)) == Ok(m.task)
    requires Find(fs, DEADLINE) == Once(Num(m.deadline)) && Find(fs, CONTENT_TYPE) == Once(Str(m.contentType))
    requires Find(fs, CREDENTIAL) == if m.credential.Some? then Once(Str(m.credential.value)) else Absent
    ensures ReadSubmit(fs) == Some(SetBody(m, []))
  {}

  lemma SubmitRoundTrip(m: Message)
    requires m.Submit?
    ensures ReadSubmit(Members(m)) == Some(SetBody(m, []))
  {
    NamesDistinct();
    var fs := Members(m);
    FindOnly(fs, TASK, 1);
    FindOnly(fs, DEADLINE, 2);
    FindOnly(fs, CONTENT_TYPE, 3);
    TaskIdRoundTrip(m.task, []);
    if m.credential.Some? {
      FindOnly(fs, CREDENTIAL, 4);
    } else {
      FindNone(fs, CREDENTIAL);
    }
    ReadSubmitParts(fs, m);
  }

  lemma CodeRoundTrip(code: FailureCode)
    ensures CodeOf(CodeName(code)) == Some(code)
  {}

  lemma TagFound(m: Message)
    ensures FindString(Members(m), TYPE) == Some(TagName(m))
  {
    NamesDistinct();
    FindOnly(Members(m), TYPE, 0);
  }

  lemma LongTagDecides(m: Message, fs: seq<Field>)
    requires |TagName(m)| != 6 && FindString(fs, TYPE) == Some(TagName(m))
    ensures Interpret(fs) == Some(SetBody(m, []))
  {
    AsciiDistinct("accepted", "progress");
    AsciiDistinct("accepted", "canceled");
    AsciiDistinct("progress", "canceled");
  }

  lemma SubmitTagDecides(fs: seq<Field>)
    requires FindString(fs, TYPE) == Some(Ascii("submit"))
    ensures Interpret(fs) == ReadSubmit(fs)
  {}

  lemma FailedTagDecides(fs: seq<Field>)
    requires FindString(fs, TYPE) == Some(Ascii("failed"))
    ensures Interpret(fs) == ReadFailed(fs)
  {
    AsciiDistinct("submit", "failed");
  }

  lemma CancelTagDecides(fs: seq<Field>)
    requires FindString(fs, TYPE) == Some(Ascii("cancel"))
    ensures Interpret(fs) == Some(Cancel)
  {
    AsciiDistinct("submit", "cancel");
    AsciiDistinct("failed", "cancel");
  }

  lemma TagSizes(m: Message)
    ensures |TagName(m)| <= 10 && (|TagName(m)| == 6 <==> m.Submit? || m.Failed? || m.Cancel?)
  {}

  /** No tag is taken for another one. */
  lemma TagDecides(m: Message, fs: seq<Field>)
    requires FindString(fs, TYPE) == Some(TagName(m))
    ensures Interpret(fs) == if m.Submit? then ReadSubmit(fs)
                             else if m.Failed? then ReadFailed(fs) else Some(SetBody(m, []))
  {
    TagSizes(m);
    match m {
      case Submit(_, _, _, _, _) => SubmitTagDecides(fs);
      case Failed(_) => FailedTagDecides(fs);
      case Cancel => CancelTagDecides(fs);
      case _ => LongTagDecides(m, fs);
    }
  }

  lemma FailedRoundTrip(m: Message)
    requires m.Failed?
    ensures ReadFailed(Members(m)) == Some(m)
  {
    NamesDistinct();
    FindOnly(Members(m), CODE, 1);
    CodeRoundTrip(m.code);
  }

  /** Header round trip: everything but the body comes back. */
  lemma HeaderRoundTrip(m: Message)
    ensures ReadHeader(Header(m)) == Some(SetBody(m, []))
  {
    JsonLayout.ObjectRoundTrip(Members(m), []);
    assert Header(m) + [] == Header(m);
    TagFound(m);
    TagDecides(m, Members(m));
    if m.Submit? {
      SubmitRoundTrip(m);
    } else if m.Failed? {
      FailedRoundTrip(m);
    }
  }

  // ----- names -----

  predicate Spells(s: seq<byte>, text: string) {
    |s| == |text| && forall i :: 0 <= i < |s| ==> s[i] == text[i] as int
  }

  lemma NamesSpelled()
    ensures Spells(TYPE, "type") && Spells(TASK, "task") && Spells(DEADLINE, "deadline")
    ensures Spells(CONTENT_TYPE, "content_type") && Spells(CREDENTIAL, "credential") && Spells(CODE, "code")
  {}

  lemma TagsSpelled(m: Message)
    ensures Spells(TagName(m), match m
                               case Submit(_, _, _, _, _) => "submit"
                               case Accepted => "accepted"
                               case Progress => "progress"
                               case NeedInput => "need_input"
                               case Input(_) => "input"
                               case Completed(_) => "completed"
                               case Failed(_) => "failed"
                               case Cancel => "cancel"
                               case Canceled => "canceled")
  {}

  lemma CodesSpelled(code: FailureCode)
    ensures Spells(CodeName(code), match code
                                   case Unauthorized => "unauthorized"
                                   case Rejected => "rejected"
                                   case DeadlineExceeded => "deadline_exceeded"
                                   case HandlerError => "handler_error")
  {}

  /** The members of every header by their names on the wire, the tag first. */
  lemma MembersExactly(m: Message)
    ensures var fs := Members(m);
            && |fs| >= 1 && Spells(fs[0].name, "type") && fs[0].value == Str(TagName(m))
            && (!m.Submit? && !m.Failed? ==> |fs| == 1)
            && (m.Failed? ==> |fs| == 2 && Spells(fs[1].name, "code") && fs[1].value == Str(CodeName(m.code)))
            && (m.Submit? ==>
                  && |fs| == (if m.credential.Some? then 5 else 4)
                  && Spells(fs[1].name, "task") && fs[1].value == Str(ToHex(m.task))
                  && Spells(fs[2].name, "deadline") && fs[2].value == Num(m.deadline)
                  && Spells(fs[3].name, "content_type") && fs[3].value == Str(m.contentType)
                  && (m.credential.Some? ==>
                        Spells(fs[4].name, "credential") && fs[4].value == Str(m.credential.value)))
  {
    NamesSpelled();
  }

  // ----- what the reader accepts -----

  /** What a list of members says of a credential, when it is well formed. */
  predicate CredentialMember(f: Found, credential: Option<Credential>) {
    match credential
    case None => f == Absent || f == Once(Null)
    case Some(c) => f == Once(Str(c))
  }

  /**
   A Submit is read exactly when each of its members is there once and within its bound; the credential,
   when there is one, is an encoding of at most 2048 bytes.
   */
  lemma ReadSubmitExactly(fs: seq<Field>, m: Message)
    requires m.Submit?
    ensures ReadSubmit(fs) == Some(m) <==>
              && m.body == []
              && (exists s :: Find(fs, TASK) == Once(Str(s)) && |s| == 32 && IsTaskText(s, m.task))
              && Find(fs, DEADLINE) == Once(Num(m.deadline))
              && Find(fs, CONTENT_TYPE) == Once(Str(m.contentType))
              && CredentialMember(Find(fs, CREDENTIAL), m.credential)
  {
    if ReadSubmit(fs) == Some(m) {
      assert IsTaskText(FindString(fs, TASK).value, m.task);
    }
    if m.credential.Some? {
      assert CredentialNew(m.credential.value) == Ok(m.credential.value);
    }
  }

  predicate IsTaskText(s: seq<byte>, task: TaskId) {
    (forall i :: 0 <= i < |s| ==> IsHex(s[i])) && HexValue(s) == task
  }

  /** A failure is read exactly from one of the four code names, and every other list is told by its tag. */
  lemma InterpretExactly(fs: seq<Field>, m: Message)
    ensures Interpret(fs) == Some(m) <==>
              && FindString(fs, TYPE) == Some(TagName(m)) && MessageBody(m) == []
              && (m.Submit? ==> ReadSubmit(fs) == Some(m))
              && (m.Failed? ==> FindString(fs, CODE) == Some(CodeName(m.code)))
  {
    if Interpret(fs) == Some(m) {
      TagOf(fs, m);
    }
    if FindString(fs, TYPE) == Some(TagName(m)) {
      TagDecides(m, fs);
      if m.Failed? {
        ReadFailedExactly(fs, m.code);
      }
    }
  }

  lemma TagOf(fs: seq<Field>, m: Message)
    requires Interpret(fs) == Some(m)
    ensures FindString(fs, TYPE) == Some(TagName(m))
  {}

  lemma ReadFailedExactly(fs: seq<Field>, code: FailureCode)
    ensures ReadFailed(fs) == Some(Message.Failed(code)) <==> FindString(fs, CODE) == Some(CodeName(code))
  {
    CodeRoundTrip(code);
  }

  // ----- what the reader tolerates -----  // ----- what the reader tolerates -----

  lemma {:induction false} FindSplit(a: seq<Field>, b: seq<Field>, name: seq<byte>)
    ensures Find(a + b, name)
         == if Find(a, name).Absent? then Find(b, name) else if Find(b, name).Absent? then Find(a, name) else Twice
    decreases |a|
  {
    if a == [] {
      assert a + b == b;
    } else {
      assert (a + b)[1..] == a[1..] + b;
      FindSplit(a[1..], b, name);
    }
  }

  lemma FindSkips(a: seq<Field>, f: Field, b: seq<Field>, name: seq<byte>)
    requires f.name != name
    ensures Find(a + [f] + b, name) == Find(a + b, name)
  {
    FindNone([f], name);
    FindSplit(a + [f], b, name);
    FindSplit(a, [f], name);
    FindSplit(a, b, name);
  }

  /** What a reader looks up. */
  predicate SameFinds(fs: seq<Field>, gs: seq<Field>) {
    && Find(fs, TYPE) == Find(gs, TYPE) && Find(fs, TASK) == Find(gs, TASK) && Find(fs, DEADLINE) == Find(gs, DEADLINE)
    && Find(fs, CONTENT_TYPE) == Find(gs, CONTENT_TYPE) && Find(fs, CREDENTIAL) == Find(gs, CREDENTIAL)
    && Find(fs, CODE) == Find(gs, CODE)
  }

  lemma FindsDecide(fs: seq<Field>, gs: seq<Field>)
    requires SameFinds(fs, gs)
    ensures Interpret(fs) == Interpret(gs)
  {}

  /** A member the protocol does not know changes nothing, wherever it stands. */
  lemma UnknownMembersIgnored(a: seq<Field>, f: Field, b: seq<Field>)
    requires f.name != TYPE && f.name != TASK && f.name != DEADLINE && f.name != CONTENT_TYPE
    requires f.name != CREDENTIAL && f.name != CODE
    ensures Interpret(a + [f] + b) == Interpret(a + b)
  {
    FindSkips(a, f, b, TYPE);
    FindSkips(a, f, b, TASK);
    FindSkips(a, f, b, DEADLINE);
    FindSkips(a, f, b, CONTENT_TYPE);
    FindSkips(a, f, b, CREDENTIAL);
    FindSkips(a, f, b, CODE);
    FindsDecide(a + [f] + b, a + b);
  }

  lemma FindCommutes(a: seq<Field>, b: seq<Field>, name: seq<byte>)
    ensures Find(a + b, name) == Find(b + a, name)
  {
    FindSplit(a, b, name);
    FindSplit(b, a, name);
  }

  /** The order of members does not matter: any two blocks of them may trade places. */
  lemma OrderDoesNotMatter(a: seq<Field>, b: seq<Field>)
    ensures Interpret(a + b) == Interpret(b + a)
  {
    FindCommutes(a, b, TYPE);
    FindCommutes(a, b, TASK);
    FindCommutes(a, b, DEADLINE);
    FindCommutes(a, b, CONTENT_TYPE);
    FindCommutes(a, b, CREDENTIAL);
    FindCommutes(a, b, CODE);
    FindsDecide(a + b, b + a);
  }

  /** A null credential is an absent one; any known member given twice is refused where it is needed. */
  lemma NullAndDoubledMembers(fs: seq<Field>)
    ensures Find(fs, CREDENTIAL) == Absent || Find(fs, CREDENTIAL) == Once(Null) <==> ReadCredential(fs) == Some(None)
    ensures Find(fs, TYPE) == Twice ==> Interpret(fs) == None
    ensures Find(fs, TASK) == Twice || Find(fs, DEADLINE) == Twice ==> ReadSubmit(fs) == None
    ensures Find(fs, CONTENT_TYPE) == Twice || Find(fs, CREDENTIAL) == Twice ==> ReadSubmit(fs) == None
  {}

  // ----- size -----

  predicate Plain(s: seq<byte>) {
    forall i :: 0 <= i < |s| ==> s[i] >= 0x20 && s[i] != QUOTE && s[i] != BACKSLASH
  }

  lemma {:induction false} EscapePlain(s: seq<byte>)
    requires Plain(s)
    ensures Escape(s) == s
    decreases |s|
  {
    if s != [] {
      EscapePlain(s[1..]);
    }
  }

  lemma {:induction false} DecimalLength(n: nat, bound: nat, k: nat)
    requires k >= 1 && bound == Pow10(k) && n < bound
    ensures |Decimal(n)| <= k
    decreases k
  {
    if n >= 10 {
      DecimalLength(n / 10, Pow10(k - 1), k - 1);
    }
  }

  function Pow10(k: nat): (p: nat)
    ensures p > 0
  {
    if k == 0 then 1 else 10 * Pow10(k - 1)
  }

  lemma StringMemberLength(name: seq<byte>, s: seq<byte>)
    requires Plain(name)
    ensures |WriteField(Field(name, Str(s)))| == |name| + 5 + |Escape(s)|
  {
    EscapePlain(name);
  }

  lemma NumberMemberLength(name: seq<byte>, n: nat)
    requires Plain(name)
    ensures |WriteField(Field(name, Num(n)))| == |name| + 3 + |Decimal(n)|
  {
    EscapePlain(name);
  }

  /** Each member with the comma or brace before it. */
  function MembersLength(fs: seq<Field>): nat {
    if fs == [] then 0 else 1 + |WriteField(fs[0])| + MembersLength(fs[1..])
  }

  lemma {:induction false} RestLength(fs: seq<Field>)
    ensures |WriteRest(fs)| == MembersLength(fs) + 1
    decreases |fs|
  {
    if fs != [] {
      RestLength(fs[1..]);
    }
  }

  lemma ObjectLength(fs: seq<Field>)
    requires fs != []
    ensures |WriteObject(fs)| == MembersLength(fs) + 1
  {
    RestLength(fs[1..]);
  }

  lemma CredentialPlain(c: Credential)
    ensures Plain(c) && |c| <= 2731
  {
    CredentialAcceptsExactly(c);
    Base64.EncodeDecode(c);
    forall i | 0 <= i < |c| ensures c[i] >= 0x20 && c[i] != QUOTE && c[i] != BACKSLASH {
      assert Base64.InAlphabet(c[i]);
    }
  }

  lemma HexPlain(task: TaskId)
    ensures Plain(ToHex(task))
  {
    var s := ToHex(task);
    forall i | 0 <= i < |s| ensures s[i] >= 0x20 && s[i] != QUOTE && s[i] != BACKSLASH {
      assert IsHex(s[i]);
    }
  }

  lemma NamesPlain()
    ensures Plain(TYPE) && Plain(TASK) && Plain(DEADLINE) && Plain(CONTENT_TYPE) && Plain(CREDENTIAL) && Plain(CODE)
    ensures |TYPE| == 4 && |TASK| == 4 && |DEADLINE| == 8 && |CONTENT_TYPE| == 12 && |CREDENTIAL| == 10 && |CODE| == 4
  {}

  lemma TagPlain(m: Message)
    ensures Plain(TagName(m))
  {}

  lemma TagLength(m: Message)
    ensures |WriteField(Field(TYPE, Str(TagName(m))))| == 9 + |TagName(m)| && |TagName(m)| <= 10
    ensures m.Submit? ==> |TagName(m)| == 6
  {
    NamesPlain();
    TagSizes(m);
    TagPlain(m);
    EscapePlain(TagName(m));
    StringMemberLength(TYPE, TagName(m));
  }

  lemma TaskLength(task: TaskId)
    ensures |WriteField(Field(TASK, Str(ToHex(task))))| == 41
  {
    NamesPlain();
    HexPlain(task);
    EscapePlain(ToHex(task));
    StringMemberLength(TASK, ToHex(task));
  }

  lemma CredentialLength(c: Credential)
    ensures |WriteField(Field(CREDENTIAL, Str(c)))| == 15 + |c|
  {
    NamesPlain();
    CredentialPlain(c);
    EscapePlain(c);
    StringMemberLength(CREDENTIAL, c);
  }

  lemma CodeLength(code: FailureCode)
    ensures |WriteField(Field(CODE, Str(CodeName(code))))| <= 40
  {
    NamesPlain();
    assert Plain(CodeName(code));
    EscapePlain(CodeName(code));
    StringMemberLength(CODE, CodeName(code));
  }

  lemma LengthOfTwo(a: Field, b: Field)
    ensures MembersLength([a, b]) == 2 + |WriteField(a)| + |WriteField(b)|
  {
    assert [a, b][1..] == [b] && [b][1..] == [];
    assert MembersLength([b]) == 1 + |WriteField(b)|;
  }

  lemma LengthOfFour(a: Field, b: Field, c: Field, d: Field)
    ensures MembersLength([a, b, c, d]) == 4 + |WriteField(a)| + |WriteField(b)| + |WriteField(c)| + |WriteField(d)|
  {
    assert [a, b, c, d][1..] == [b, c, d] && [b, c, d][1..] == [c, d] && [c, d][1..] == [d] && [d][1..] == [];
    assert MembersLength([d]) == 1 + |WriteField(d)|;
    assert MembersLength([c, d]) == 2 + |WriteField(c)| + |WriteField(d)|;
  }

  lemma LengthAppend(fs: seq<Field>, f: Field)
    ensures MembersLength(fs + [f]) == MembersLength(fs) + 1 + |WriteField(f)|
    decreases |fs|
  {
    if fs == [] {
      assert fs + [f] == [f] && [f][1..] == [];
    } else {
      assert (fs + [f])[1..] == fs[1..] + [f];
      LengthAppend(fs[1..], f);
    }
  }

  /** The exact size of a Submit header. */
  lemma SubmitHeaderLength(m: Message)
    requires m.Submit?
    ensures |Header(m)| == 89 + |Decimal(m.deadline)| + |Escape(m.contentType)|
                         + if m.credential.Some? then 16 + |m.credential.value| else 0
  {
    NamesPlain();
    var tag, task := Field(TYPE, Str(TagName(m))), Field(TASK, Str(ToHex(m.task)));
    var deadline, contentType := Field(DEADLINE, Num(m.deadline)), Field(CONTENT_TYPE, Str(m.contentType));
    TagLength(m);
    TaskLength(m.task);
    NumberMemberLength(DEADLINE, m.deadline);
    StringMemberLength(CONTENT_TYPE, m.contentType);
    LengthOfFour(tag, task, deadline, contentType);
    ObjectLength(Members(m));
    if m.credential.Some? {
      CredentialLength(m.credential.value);
      LengthAppend([tag, task, deadline, contentType], Field(CREDENTIAL, Str(m.credential.value)));
    } else {
      assert Members(m) == [tag, task, deadline, contentType];
    }
  }

  lemma FailedHeaderLength(m: Message)
    requires m.Failed?
    ensures |Header(m)| <= 100
  {
    var tag, code := Field(TYPE, Str(TagName(m))), Field(CODE, Str(CodeName(m.code)));
    TagLength(m);
    CodeLength(m.code);
    LengthOfTwo(tag, code);
    ObjectLength([tag, code]);
  }

  lemma BareHeaderLength(m: Message)
    requires !m.Submit? && !m.Failed?
    ensures |Header(m)| <= 100
  {
    var tag := Field(TYPE, Str(TagName(m)));
    TagLength(m);
    LengthAppend([], tag);
    assert [] + [tag] == [tag];
    ObjectLength([tag]);
    assert Members(m) == [tag];
  }

  const WORST_HEADER: nat := 3226

  /** No message the constructors can build has a header above 3226 bytes. */
  lemma HeaderBounded(m: Message)
    ensures |Header(m)| <= WORST_HEADER
  {
    if m.Submit? {
      SubmitHeaderLength(m);
      assert Pow10(6) == 1_000_000 by {
        assert Pow10(3) == 1000 && Pow10(4) == 10_000 && Pow10(5) == 100_000;
      }
      DecimalLength(m.deadline, 1_000_000, 6);
      if m.credential.Some? {
        CredentialPlain(m.credential.value);
      }
    } else if m.Failed? {
      FailedHeaderLength(m);
    } else {
      BareHeaderLength(m);
    }
  }

  lemma {:induction false} EscapeControls(n: nat)
    ensures |Escape(seq(n, i => 1))| == 6 * n
  {
    if n > 0 {
      var s: seq<byte> := seq(n, i => 1);
      assert s[1..] == seq(n - 1, i => 1);
      EscapeControls(n - 1);
    }
  }

  lemma SixDigits()
    ensures |Decimal(600_000)| == 6
  {
    assert |Decimal(60)| == 2;
    assert |Decimal(600)| == 3;
    assert |Decimal(6_000)| == 4;
    assert |Decimal(60_000)| == 5;
  }

  lemma WorstHeaderLength(contentType: ContentType, credential: Credential, deadline: Deadline)
    requires |Escape(contentType)| == 384 && |credential| == 2731 && |Decimal(deadline)| == 6
    ensures |Header(Submit(0, deadline, contentType, Some(credential), []))| == WORST_HEADER
  {
    SubmitHeaderLength(Submit(0, deadline, contentType, Some(credential), []));
  }

  lemma LongestCredential() returns (c: Credential)
    ensures |c| == 2731
  {
    var raw: seq<byte> := seq(2048, i => 0);
    Base64.DecodeEncode(raw);
    c := Base64.Encode(raw);
  }

  /** The bound is reached: 64 control characters, the latest deadline and 2048 credential bytes do. */
  lemma BoundIsReached()
    ensures exists m :: |Header(m)| == WORST_HEADER
  {
    var contentType: ContentType := seq(64, i => 1);
    EscapeControls(64);
    SixDigits();
    var credential := LongestCredential();
    WorstHeaderLength(contentType, credential, 600_000);
  }
}
