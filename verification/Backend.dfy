/** Backend messages: the bytes of each, and how a client reads them back
    (PostgreSQL 16 documentation, section 55.7). */
module Backend {
  import opened Text
  import opened Wire

  datatype Field = Field(name: Text, tableOID: int, attr: int, typeOID: int, typeSize: int, modifier: int, format: int)

  datatype ErrorField = ErrorField(kind: byte, value: Text)

  datatype Reply =
    | AuthOk
    | ParameterStatus(name: Text, value: Text)
    | BackendKeyData(pid: int, secret: int)
    | ReadyForQuery(status: byte)
    | RowDescription(fields: seq<Field>)
    | DataRow(values: Params)
    | CommandComplete(tag: Text)
    | EmptyQueryResponse
    | ErrorResponse(errors: seq<ErrorField>)
    | ParseComplete
    | BindComplete
    | CloseComplete
    | NoData
    | ParameterDescription(oids: seq<int>)

  function Kind(m: Reply): byte {
    match m
    case AuthOk => 'R'
    case ParameterStatus(_, _) => 'S'
    case BackendKeyData(_, _) => 'K'
    case ReadyForQuery(_) => 'Z'
    case RowDescription(_) => 'T'
    case DataRow(_) => 'D'
    case CommandComplete(_) => 'C'
    case EmptyQueryResponse => 'I'
    case ErrorResponse(_) => 'E'
    case ParseComplete => '1'
    case BindComplete => '2'
    case CloseComplete => '3'
    case NoData => 'n'
    case ParameterDescription(_) => 't'
  }

  // ---------- Writing ----------

  function PutField(f: Field): Text {
    Terminated(f.name) + (Be32(f.tableOID) + (Be16(f.attr) + (Be32(f.typeOID) +
    (Be16(f.typeSize) + (Be32(f.modifier) + Be16(f.format))))))
  }

  function PutFields(fs: seq<Field>): Text {
    if fs == [] then [] else PutField(fs[0]) + PutFields(fs[1..])
  }

  function PutErrors(es: seq<ErrorField>): Text {
    if es == [] then [NUL] else [es[0].kind] + (Terminated(es[0].value) + PutErrors(es[1..]))
  }

  function Payload(m: Reply): Text {
    match m
    case AuthOk => Be32(0)
    case ParameterStatus(name, value) => Terminated(name) + Terminated(value)
    case BackendKeyData(pid, secret) => Be32(pid) + Be32(secret)
    case ReadyForQuery(status) => [status]
    case RowDescription(fields) => Be16(|fields|) + PutFields(fields)
    case DataRow(values) => Be16(|values|) + PutValues(values)
    case CommandComplete(tag) => Terminated(tag)
    case ErrorResponse(errors) => PutErrors(errors)
    case ParameterDescription(oids) => Be16(|oids|) + Be32s(oids)
    case _ => []
  }

  function Encode(m: Reply): Text {
    PutFrame(Frame(Kind(m), Payload(m)))
  }

  function EncodeAll(ms: seq<Reply>): Text {
    if ms == [] then [] else Encode(ms[0]) + EncodeAll(ms[1..])
  }

  lemma {:induction false} EncodeAppend(a: seq<Reply>, b: seq<Reply>)
    ensures EncodeAll(a + b) == EncodeAll(a) + EncodeAll(b)
  {
    hide Encode;
    if a == [] {
      assert a + b == b;
    } else {
      assert (a + b)[1..] == a[1..] + b;
      EncodeAppend(a[1..], b);
    }
  }

  // ---------- Reading ----------

  function GetField(s: Text): Read<Field> {
    var (name, s1) :- NullString(s);
    var (tableOID, s2) :- Int32(s1);
    var (attr, s3) :- Int16(s2);
    var (typeOID, s4) :- Int32(s3);
    var (typeSize, s5) :- Int16(s4);
    var (modifier, s6) :- Int32(s5);
    var (format, s7) :- Int16(s6);
    Got(Field(name, tableOID, attr, typeOID, typeSize, modifier, format), s7)
  }

  function GetFields(s: Text, n: nat): Read<seq<Field>> {
    if n == 0 then Got([], s)
    else
      var (f, s1) :- GetField(s);
      var (fs, s2) :- GetFields(s1, n - 1);
      Got([f] + fs, s2)
  }

  function GetErrors(s: Text): Read<seq<ErrorField>>
    decreases |s|
  {
    if s == [] then Failed(EOF)
    else if s[0] == NUL then Got([], s[1..])
    else
      var (value, s1) :- NullString(s[1..]);
      if |s1| >= |s| then Failed(EOF)
      else
        var (es, s2) :- GetErrors(s1);
        Got([ErrorField(s[0], value)] + es, s2)
  }

  /** A count as a client reads it: unsigned. */
  function Count(s: Text): Read<nat> {
    if |s| < 2 then Failed(Short(s)) else Got(Uint16(s), s[2..])
  }

  function GetDataRow(payload: Text): Read<Reply> {
    var (n, s1) :- Count(payload);
    var (values, s2) :- Parameters(s1, n);
    Got(DataRow(values), s2)
  }

  function GetRowDescription(payload: Text): Read<Reply> {
    var (n, s1) :- Count(payload);
    var (fields, s2) :- GetFields(s1, n);
    Got(RowDescription(fields), s2)
  }

  function GetParameterDescription(payload: Text): Read<Reply> {
    var (n, s1) :- Count(payload);
    var (oids, s2) :- Int32s(s1, n);
    Got(ParameterDescription(oids), s2)
  }

  function GetKeyData(payload: Text): Read<Reply> {
    var (pid, s1) :- Int32(payload);
    var (secret, s2) :- Int32(s1);
    Got(BackendKeyData(pid, secret), s2)
  }

  function GetParameterStatus(payload: Text): Read<Reply> {
    var (name, s1) :- NullString(payload);
    var (value, s2) :- NullString(s1);
    Got(ParameterStatus(name, value), s2)
  }

  function GetPayload(kind: byte, payload: Text): Read<Reply> {
    match kind
    case 'R' => Got(AuthOk, payload)
    case 'S' => GetParameterStatus(payload)
    case 'K' => GetKeyData(payload)
    case 'Z' => if payload == [] then Failed(EOF) else Got(ReadyForQuery(payload[0]), payload[1..])
    case 'T' => GetRowDescription(payload)
    case 'D' => GetDataRow(payload)
    case 'C' =>
      var (tag, s1) :- NullString(payload);
      Got(CommandComplete(tag), s1)
    case 'E' =>
      var (errors, s1) :- GetErrors(payload);
      Got(ErrorResponse(errors), s1)
    case 't' => GetParameterDescription(payload)
    case 'I' => Got(EmptyQueryResponse, payload)
    case '1' => Got(ParseComplete, payload)
    case '2' => Got(BindComplete, payload)
    case '3' => Got(CloseComplete, payload)
    case 'n' => Got(NoData, payload)
    case _ => Failed(EOF)
  }

  /** The messages in a byte stream, up to the first that is incomplete or
      does not read. */
  function Decode(s: Text): seq<Reply>
    decreases |s|
  {
    match NextFrame(s)
    case Whole(f, rest) =>
      var r := GetPayload(f.kind, f.payload);
      if r.Got? then [r.value] + Decode(rest) else []
    case _ => []
  }

  // ---------- What is written reads back ----------

  ghost predicate FieldFits(f: Field) {
    && NUL !in f.name
    && FitsSigned(f.tableOID, 32) && FitsSigned(f.attr, 16) && FitsSigned(f.typeOID, 32)
    && FitsSigned(f.typeSize, 16) && FitsSigned(f.modifier, 32) && FitsSigned(f.format, 16)
  }

  /** Counts, numbers and lengths fit their fields and no string holds a NUL. */
  ghost predicate PartsFit(m: Reply) {
    match m
    case ParameterStatus(name, value) => NUL !in name && NUL !in value
    case BackendKeyData(pid, secret) => FitsSigned(pid, 32) && FitsSigned(secret, 32)
    case RowDescription(fields) => |fields| < 0x1_0000 && forall i :: 0 <= i < |fields| ==> FieldFits(fields[i])
    case DataRow(values) => |values| < 0x1_0000 && ValuesFit(values)
    case CommandComplete(tag) => NUL !in tag
    case ErrorResponse(errors) =>
      forall i :: 0 <= i < |errors| ==> errors[i].kind != NUL && NUL !in errors[i].value
    case ParameterDescription(oids) => |oids| < 0x1_0000 && AllFit(oids, 32)
    case _ => true
  }

  /** The length in front of the message can count it. */
  predicate Countable(m: Reply) {
    FitsSigned(|Payload(m)|, 32)
  }

  ghost predicate Fits(m: Reply) {
    Countable(m) && PartsFit(m)
  }

  lemma CountBack(n: nat, rest: Text)
    requires n < 0x1_0000
    ensures Count(Be16(n) + rest) == Got(n, rest)
  {
    var s := Be16(n) + rest;
    Uint16Be(n);
    assert Uint16(s) == Uint16(Be16(n));
    assert s[2..] == rest;
  }

  lemma FieldBack(f: Field, rest: Text)
    requires FieldFits(f)
    ensures GetField(PutField(f) + rest) == Got(f, rest)
  {
    hide NullString, Int16, Int32, Terminated, Be16, Be32;
    var t6 := Be16(f.format) + rest;
    var t5 := Be32(f.modifier) + t6;
    var t4 := Be16(f.typeSize) + t5;
    var t3 := Be32(f.typeOID) + t4;
    var t2 := Be16(f.attr) + t3;
    var t1 := Be32(f.tableOID) + t2;
    assert PutField(f) + rest == Terminated(f.name) + t1;
    NullStringBack(f.name, t1);
    Int32Back(f.tableOID, t2);
    Int16Back(f.attr, t3);
    Int32Back(f.typeOID, t4);
    Int16Back(f.typeSize, t5);
    Int32Back(f.modifier, t6);
    Int16Back(f.format, rest);
  }

  lemma {:induction false} FieldsBack(fs: seq<Field>, rest: Text)
    requires forall i :: 0 <= i < |fs| ==> FieldFits(fs[i])
    ensures GetFields(PutFields(fs) + rest, |fs|) == Got(fs, rest)
  {
    hide GetField, PutField, FieldFits;
    if fs == [] {
      assert PutFields(fs) + rest == rest;
    } else {
      var tail := PutFields(fs[1..]) + rest;
      assert PutFields(fs) + rest == PutField(fs[0]) + tail;
      FieldBack(fs[0], tail);
      FieldsBack(fs[1..], rest);
      assert [fs[0]] + fs[1..] == fs;
    }
  }

  lemma {:induction false} ErrorsBack(es: seq<ErrorField>)
    requires forall i :: 0 <= i < |es| ==> es[i].kind != NUL && NUL !in es[i].value
    ensures GetErrors(PutErrors(es)) == Got(es, [])
  {
    hide NullString;
    if es != [] {
      var tail := PutErrors(es[1..]);
      var s := PutErrors(es);
      assert s[1..] == Terminated(es[0].value) + tail;
      NullStringBack(es[0].value, tail);
      ErrorsBack(es[1..]);
      assert [es[0]] + es[1..] == es;
    }
  }

  lemma KeyDataBack(pid: int, secret: int)
    requires FitsSigned(pid, 32) && FitsSigned(secret, 32)
    ensures GetKeyData(Be32(pid) + Be32(secret)) == Got(BackendKeyData(pid, secret), [])
  {
    hide Int32, Be32;
    Int32Back(pid, Be32(secret));
    Int32Back(secret, []);
    assert Be32(secret) + [] == Be32(secret);
  }

  lemma ListsBack(m: Reply)
    requires Fits(m) && (m.RowDescription? || m.DataRow? || m.ParameterDescription?)
    ensures GetPayload(Kind(m), Payload(m)) == Got(m, [])
  {
    hide Count, Be16, GetFields, PutFields, Parameters, PutValues, Int32s, Be32s, FieldFits, NullString;
    match m
    case RowDescription(fields) =>
      CountBack(|fields|, PutFields(fields));
      FieldsBack(fields, []);
      assert PutFields(fields) + [] == PutFields(fields);
    case DataRow(values) =>
      CountBack(|values|, PutValues(values));
      ParametersBack(values, []);
      assert PutValues(values) + [] == PutValues(values);
    case ParameterDescription(oids) =>
      CountBack(|oids|, Be32s(oids));
      Int32sBack(oids, []);
      assert Be32s(oids) + [] == Be32s(oids);
  }

  /** Reading a written backend message gives that message. */
  lemma PayloadBack(m: Reply)
    requires Fits(m)
    ensures GetPayload(Kind(m), Payload(m)).Got? && GetPayload(Kind(m), Payload(m)).value == m
  {
    hide NullString, GetRowDescription, GetDataRow, GetParameterDescription, GetErrors, GetKeyData, Terminated;
    match m
    case RowDescription(_) => ListsBack(m);
    case DataRow(_) => ListsBack(m);
    case ParameterDescription(_) => ListsBack(m);
    case ParameterStatus(name, value) =>
      NullStringBack(name, Terminated(value));
      LastStringBack(value);
    case BackendKeyData(pid, secret) => KeyDataBack(pid, secret);
    case CommandComplete(tag) => LastStringBack(tag);
    case ErrorResponse(errors) => ErrorsBack(errors);
    case _ =>
  }

  // ---------- What reads fits ----------

  lemma StringFits(s: Text)
    ensures NullString(s).Got? ==> NUL !in NullString(s).value
  {
    FindFirst(s, NUL);
  }

  lemma NumberFits(s: Text)
    ensures Int16(s).Got? ==> FitsSigned(Int16(s).value, 16)
    ensures Int32(s).Got? ==> FitsSigned(Int32(s).value, 32)
  {
  }

  lemma FieldReadFits(s: Text)
    ensures GetField(s).Got? ==> FieldFits(GetField(s).value)
  {
    hide NullString, Int16, Int32;
    forall t: Text
      ensures NullString(t).Got? ==> NUL !in NullString(t).value
      ensures Int16(t).Got? ==> FitsSigned(Int16(t).value, 16)
      ensures Int32(t).Got? ==> FitsSigned(Int32(t).value, 32)
    {
      StringFits(t);
      NumberFits(t);
    }
  }

  lemma {:induction false} FieldsReadFit(s: Text, n: nat)
    ensures var r := GetFields(s, n); r.Got? ==> |r.value| == n && forall i :: 0 <= i < n ==> FieldFits(r.value[i])
    decreases n
  {
    hide GetField, FieldFits;
    if n > 0 {
      FieldReadFits(s);
      var f := GetField(s);
      if f.Got? {
        FieldsReadFit(f.rest, n - 1);
      }
    }
  }

  lemma {:induction false} OidsReadFit(s: Text, n: nat)
    ensures var r := Int32s(s, n); r.Got? ==> |r.value| == n && AllFit(r.value, 32)
    decreases n
  {
    hide Int32;
    if n > 0 {
      NumberFits(s);
      var x := Int32(s);
      if x.Got? {
        OidsReadFit(x.rest, n - 1);
      }
    }
  }

  lemma {:induction false} ValuesReadFit(s: Text, n: nat)
    ensures var r := Parameters(s, n); r.Got? ==> |r.value| == n && ValuesFit(r.value)
    decreases n
  {
    hide Parameter;
    if n > 0 {
      ValueReadFits(s);
      var p := Parameter(s);
      if p.Got? {
        ValuesReadFit(p.rest, n - 1);
      }
    }
  }

  lemma ValueReadFits(s: Text)
    ensures var r := Parameter(s); r.Got? && r.value.Some? ==> FitsSigned(|r.value.value|, 32)
  {
    hide Int32;
    NumberFits(s);
  }

  lemma {:induction false} ErrorsReadFit(s: Text)
    ensures var r := GetErrors(s);
            r.Got? ==> forall i :: 0 <= i < |r.value| ==> r.value[i].kind != NUL && NUL !in r.value[i].value
    decreases |s|
  {
    hide NullString;
    if s != [] && s[0] != NUL {
      StringFits(s[1..]);
      var r := NullString(s[1..]);
      if r.Got? && |r.rest| < |s| {
        ErrorsReadFit(r.rest);
      }
    }
  }

  /** Whatever message a client makes out of a payload, its parts fit. */
  lemma ReadFits(kind: byte, payload: Text)
    ensures GetPayload(kind, payload).Got? ==> PartsFit(GetPayload(kind, payload).value)
  {
    hide NullString, Int32, GetErrors, GetFields, Parameters, Int32s, FieldFits, ValuesFit, AllFit;
    match kind
    case 'S' =>
      StringFits(payload);
      if NullString(payload).Got? {
        StringFits(NullString(payload).rest);
      }
    case 'K' =>
      NumberFits(payload);
      if Int32(payload).Got? {
        NumberFits(Int32(payload).rest);
      }
    case 'T' =>
      if |payload| >= 2 {
        FieldsReadFit(payload[2..], Uint16(payload));
      }
    case 'D' =>
      if |payload| >= 2 {
        ValuesReadFit(payload[2..], Uint16(payload));
      }
    case 't' =>
      if |payload| >= 2 {
        OidsReadFit(payload[2..], Uint16(payload));
      }
    case 'C' => StringFits(payload);
    case 'E' => ErrorsReadFit(payload);
    case _ =>
  }

  // ---------- Traces ----------

  ghost predicate AllFitReplies(ms: seq<Reply>) {
    forall i :: 0 <= i < |ms| ==> Fits(ms[i])
  }

  ghost predicate AllCountable(ms: seq<Reply>) {
    forall i :: 0 <= i < |ms| ==> Countable(ms[i])
  }

  lemma MessageBackIff(m: Reply)
    requires Countable(m)
    ensures GetPayload(Kind(m), Payload(m)).Got? && GetPayload(Kind(m), Payload(m)).value == m <==> Fits(m)
  {
    hide GetPayload, Payload, Kind, PartsFit;
    ReadFits(Kind(m), Payload(m));
    if Fits(m) {
      PayloadBack(m);
    }
  }

  /** A client that reads the bytes of a reply trace sees exactly that trace,
      every length true and no message running into the next, exactly when every
      message fits its format: one that does not, with a NUL in a string or too
      many columns for the count, is always read as something else. */
  lemma {:induction false} TraceBackIff(ms: seq<Reply>)
    requires AllCountable(ms)
    ensures Decode(EncodeAll(ms)) == ms <==> AllFitReplies(ms)
  {
    hide GetPayload, Payload, Kind, NextFrame, PutFrame, Fits, Countable;
    if ms == [] {
      EmptyStream();
    } else {
      var rest := EncodeAll(ms[1..]);
      CountableFrame(ms[0], rest);
      MessageBackIff(ms[0]);
      TraceBackIff(ms[1..]);
      assert AllFitReplies(ms) <==> Fits(ms[0]) && AllFitReplies(ms[1..]) by {
        assert ms == [ms[0]] + ms[1..];
      }
      assert ms == [ms[0]] + ms[1..];
    }
  }

  lemma CountableFrame(m: Reply, rest: Text)
    requires Countable(m)
    ensures NextFrame(Encode(m) + rest) == Whole(Frame(Kind(m), Payload(m)), rest)
  {
    FrameBack(Frame(Kind(m), Payload(m)), rest);
  }

  lemma EmptyStream()
    ensures NextFrame([]) == End
  {
  }

  lemma SmallLength(n: nat)
    requires n < 0x100
    ensures Be32(n) == ['\0', '\0', '\0', Octet(n)]
  {
  }

  /** The bytes of the messages that are always the same, as section 55.7 of the
      PostgreSQL 16 documentation lists them. */
  lemma KnownBytes(status: byte)
    ensures Encode(AuthOk) == ['R', '\0', '\0', '\0', Octet(8), '\0', '\0', '\0', '\0']
    ensures Encode(ReadyForQuery(status)) == ['Z', '\0', '\0', '\0', Octet(5), status]
    ensures Encode(EmptyQueryResponse) == ['I', '\0', '\0', '\0', Octet(4)]
    ensures Encode(ParseComplete) == ['1', '\0', '\0', '\0', Octet(4)]
    ensures Encode(BindComplete) == ['2', '\0', '\0', '\0', Octet(4)]
    ensures Encode(CloseComplete) == ['3', '\0', '\0', '\0', Octet(4)]
    ensures Encode(NoData) == ['n', '\0', '\0', '\0', Octet(4)]
  {
    hide Be32;
    SmallLength(0);
    SmallLength(4);
    SmallLength(5);
    SmallLength(8);
  }

  /** And the letters the others begin with. */
  lemma KnownLetters(m: Reply)
    ensures Encode(m) != []
    ensures m.ParameterStatus? ==> Encode(m)[0] == 'S'
    ensures m.BackendKeyData? ==> Encode(m)[0] == 'K'
    ensures m.RowDescription? ==> Encode(m)[0] == 'T'
    ensures m.DataRow? ==> Encode(m)[0] == 'D'
    ensures m.CommandComplete? ==> Encode(m)[0] == 'C'
    ensures m.ErrorResponse? ==> Encode(m)[0] == 'E'
    ensures m.ParameterDescription? ==> Encode(m)[0] == 't'
  {
    hide Payload, Be32;
  }
}
