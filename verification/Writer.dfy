/** The writers as the server runs them: each fills a buffer piece by piece and
    hands it to the connection, which drops everything once it is closed. */
module Writer {
  import opened Text
  import opened Wire
  import opened Backend

  class Conn {
    var out: Text
    var closed: bool
    /** The byte that may precede the messages, and the messages. */
    ghost var preamble: Text
    ghost var trace: seq<Reply>

    constructor ()
      ensures Valid() && !closed && preamble == [] && trace == []
    {
      out, closed, preamble, trace := [], false, [], [];
    }

    ghost predicate Valid()
      reads this
    {
      out == preamble + EncodeAll(trace)
    }

    /** Exactly this message went out, unless the connection was closed. */
    twostate predicate Sent(m: Reply)
      reads this
    {
      && closed == old(closed)
      && trace == if closed then old(trace) else old(trace) + [m]
    }

    method Close()
      modifies this`closed
      ensures closed
    {
      closed := true;
    }

    /** The answer to a request for encryption: one byte that is no message. */
    method WriteSSLRefusal()
      requires Valid() && trace == [] && !closed
      modifies this
      ensures Valid() && preamble == old(preamble) + ['N'] && trace == [] && !closed
    {
      Write(['N']);
      preamble := preamble + ['N'];
      assert EncodeAll([]) == [];
    }

    method Write(buf: Text)
      modifies this`out
      ensures out == if closed then old(out) else old(out) + buf
    {
      if !closed {
        out := out + buf;
      }
    }

    /** Header and body, in two writes. */
    method WriteFrame(kind: byte, body: Text, ghost m: Reply)
      requires Valid() && kind == Kind(m) && body == Payload(m)
      modifies this`out, this`trace
      ensures Valid() && Sent(m)
    {
      hide EncodeAll, Payload, Kind, Be32;
      Write([kind] + Be32(4 + |body|));
      Write(body);
      if !closed {
        OneMore(preamble, trace, m);
        trace := trace + [m];
      }
    }
  }

  lemma OneMore(preamble: Text, trace: seq<Reply>, m: Reply)
    ensures preamble + EncodeAll(trace) + ([Kind(m)] + Be32(4 + |Payload(m)|)) + Payload(m) == preamble + EncodeAll(trace + [m])
  {
    hide EncodeAll, Payload, Kind, Be32;
    EncodeAppend(trace, [m]);
    EncodeOne(m);
  }

  lemma EncodeOne(m: Reply)
    ensures EncodeAll([m]) == [Kind(m)] + Be32(4 + |Payload(m)|) + Payload(m)
  {
  }

  method WriteAuthOK(c: Conn)
    requires c.Valid()
    modifies c`out, c`trace
    ensures c.Valid() && c.Sent(AuthOk)
  {
    c.WriteFrame('R', Be32(0), AuthOk);
  }

  method WriteParameterStatus(c: Conn, name: Text, value: Text)
    requires c.Valid()
    modifies c`out, c`trace
    ensures c.Valid() && c.Sent(ParameterStatus(name, value))
  {
    var buf := name;
    buf := buf + [NUL];
    buf := buf + value;
    buf := buf + [NUL];
    assert buf == Terminated(name) + Terminated(value);
    c.WriteFrame('S', buf, ParameterStatus(name, value));
  }

  method WriteBackendKeyData(c: Conn, pid: int, secret: int)
    requires c.Valid()
    modifies c`out, c`trace
    ensures c.Valid() && c.Sent(BackendKeyData(pid, secret))
  {
    c.WriteFrame('K', Be32(pid) + Be32(secret), BackendKeyData(pid, secret));
  }

  method WriteReadyForQuery(c: Conn, status: byte)
    requires c.Valid()
    modifies c`out, c`trace
    ensures c.Valid() && c.Sent(ReadyForQuery(status))
  {
    c.WriteFrame('Z', [status], ReadyForQuery(status));
  }

  lemma {:induction false} PutFieldsSnoc(fs: seq<Field>, f: Field)
    ensures PutFields(fs + [f]) == PutFields(fs) + PutField(f)
  {
    hide PutField;
    if fs != [] {
      assert (fs + [f])[1..] == fs[1..] + [f];
      PutFieldsSnoc(fs[1..], f);
    }
  }

  method FieldBody(f: Field) returns (body: Text)
    ensures body == PutField(f)
  {
    hide Be16, Be32;
    body := f.name;
    body := body + [NUL];
    body := body + Be32(f.tableOID);
    body := body + Be16(f.attr);
    body := body + Be32(f.typeOID);
    body := body + Be16(f.typeSize);
    body := body + Be32(f.modifier);
    body := body + Be16(f.format);
  }

  method RowDescriptionBody(fields: seq<Field>) returns (body: Text)
    ensures body == Payload(RowDescription(fields))
  {
    hide Be16, PutField;
    body := Be16(|fields|);
    assert Be16(|fields|) + PutFields([]) == Be16(|fields|);
    for i := 0 to |fields|
      invariant body == Be16(|fields|) + PutFields(fields[..i])
    {
      var piece := FieldBody(fields[i]);
      body := body + piece;
      assert fields[..i + 1] == fields[..i] + [fields[i]];
      PutFieldsSnoc(fields[..i], fields[i]);
    }
    assert fields[..|fields|] == fields;
  }

  method WriteRowDescription(c: Conn, fields: seq<Field>)
    requires c.Valid()
    modifies c`out, c`trace
    ensures c.Valid() && c.Sent(RowDescription(fields))
  {
    var body := RowDescriptionBody(fields);
    c.WriteFrame('T', body, RowDescription(fields));
  }

  lemma {:induction false} PutValuesSnoc(ps: Params, p: Option<Text>)
    ensures PutValues(ps + [p]) == PutValues(ps) + PutValue(p)
  {
    hide PutValue;
    if ps != [] {
      assert (ps + [p])[1..] == ps[1..] + [p];
      PutValuesSnoc(ps[1..], p);
    }
  }

  method DataRowBody(values: Params) returns (body: Text)
    ensures body == Payload(DataRow(values))
  {
    hide Be16, Be32;
    body := Be16(|values|);
    assert Be16(|values|) + PutValues([]) == Be16(|values|);
    for i := 0 to |values|
      invariant body == Be16(|values|) + PutValues(values[..i])
    {
      assert values[..i + 1] == values[..i] + [values[i]];
      PutValuesSnoc(values[..i], values[i]);
      if values[i].None? {
        body := body + Be32(-1);
      } else {
        body := body + Be32(|values[i].value|);
        body := body + values[i].value;
      }
    }
    assert values[..|values|] == values;
  }

  method WriteDataRow(c: Conn, values: Params)
    requires c.Valid()
    modifies c`out, c`trace
    ensures c.Valid() && c.Sent(DataRow(values))
  {
    var body := DataRowBody(values);
    c.WriteFrame('D', body, DataRow(values));
  }

  method WriteCommandComplete(c: Conn, tag: Text)
    requires c.Valid()
    modifies c`out, c`trace
    ensures c.Valid() && c.Sent(CommandComplete(tag))
  {
    c.WriteFrame('C', tag + [NUL], CommandComplete(tag));
  }

  datatype ErrorReport = ErrorReport(severity: Text, code: Text, message: Text, detail: Text, hint: Text)

  function Optional(kind: byte, value: Text): seq<ErrorField> {
    if value == [] then [] else [ErrorField(kind, value)]
  }

  function Severity(e: ErrorReport): Text {
    if e.severity == [] then "ERROR" else e.severity
  }

  function Code(e: ErrorReport): Text {
    if e.code == [] then "XX000" else e.code
  }

  /** The fields of an error: severity twice and code with their defaults, the
      message, and detail and hint only when there are any. */
  function ErrorFields(e: ErrorReport): seq<ErrorField> {
    [ErrorField('S', Severity(e)), ErrorField('V', Severity(e)), ErrorField('C', Code(e)), ErrorField('M', e.message)] +
    Optional('D', e.detail) + Optional('H', e.hint)
  }

  function Report(e: ErrorReport): Reply {
    ErrorResponse(ErrorFields(e))
  }

  lemma {:induction false} PutErrorsAppend(a: seq<ErrorField>, f: ErrorField)
    ensures PutErrors(a + [f]) == Unfinished(a) + ([f.kind] + Terminated(f.value)) + [NUL]
    ensures Unfinished(a + [f]) == Unfinished(a) + ([f.kind] + Terminated(f.value))
  {
    hide Terminated;
    if a != [] {
      assert (a + [f])[1..] == a[1..] + [f];
      PutErrorsAppend(a[1..], f);
    }
  }

  /** The error fields before the closing NUL. */
  function Unfinished(es: seq<ErrorField>): Text {
    if es == [] then [] else [es[0].kind] + (Terminated(es[0].value) + Unfinished(es[1..]))
  }

  method PutErrorField(body: Text, ghost done: seq<ErrorField>, kind: byte, value: Text)
    returns (r: Text, ghost now: seq<ErrorField>)
    requires body == Unfinished(done)
    ensures now == done + [ErrorField(kind, value)] && r == Unfinished(now) && PutErrors(now) == r + [NUL]
  {
    r := body + [kind];
    r := r + value;
    r := r + [NUL];
    now := done + [ErrorField(kind, value)];
    PutErrorsAppend(done, ErrorField(kind, value));
  }

  method ErrorBody(e: ErrorReport) returns (body: Text)
    ensures body == Payload(Report(e))
  {
    hide Unfinished, PutErrors;
    ghost var done: seq<ErrorField> := [];
    NoErrors();
    body := [];
    body, done := PutErrorField(body, done, 'S', Severity(e));
    body, done := PutErrorField(body, done, 'V', Severity(e));
    body, done := PutErrorField(body, done, 'C', Code(e));
    body, done := PutErrorField(body, done, 'M', e.message);
    if e.detail != [] {
      body, done := PutErrorField(body, done, 'D', e.detail);
    }
    if e.hint != [] {
      body, done := PutErrorField(body, done, 'H', e.hint);
    }
    assert done == ErrorFields(e);
    body := body + [NUL];
  }

  method WriteErrorResponse(c: Conn, e: ErrorReport)
    requires c.Valid()
    modifies c`out, c`trace
    ensures c.Valid() && c.Sent(Report(e))
  {
    hide ErrorFields;
    var body := ErrorBody(e);
    c.WriteFrame('E', body, Report(e));
  }

  lemma NoErrors()
    ensures Unfinished([]) == []
  {
  }

  /** The messages that are a header and nothing else. */
  method WriteEmpty(c: Conn, m: Reply)
    requires c.Valid()
    requires m.EmptyQueryResponse? || m.ParseComplete? || m.BindComplete? || m.CloseComplete? || m.NoData?
    modifies c`out, c`trace
    ensures c.Valid() && c.Sent(m)
  {
    c.WriteFrame(Kind(m), [], m);
  }

  lemma {:induction false} Be32sSnoc(xs: seq<int>, x: int)
    ensures Be32s(xs + [x]) == Be32s(xs) + Be32(x)
  {
    hide Be32;
    if xs != [] {
      assert (xs + [x])[1..] == xs[1..] + [x];
      Be32sSnoc(xs[1..], x);
    }
  }

  method ParameterDescriptionBody(oids: seq<int>) returns (body: Text)
    ensures body == Payload(ParameterDescription(oids))
  {
    hide Be16, Be32;
    body := Be16(|oids|);
    assert Be16(|oids|) + Be32s([]) == Be16(|oids|);
    for i := 0 to |oids|
      invariant body == Be16(|oids|) + Be32s(oids[..i])
    {
      body := body + Be32(oids[i]);
      assert oids[..i + 1] == oids[..i] + [oids[i]];
      Be32sSnoc(oids[..i], oids[i]);
    }
    assert oids[..|oids|] == oids;
  }

  method WriteParameterDescription(c: Conn, oids: seq<int>)
    requires c.Valid()
    modifies c`out, c`trace
    ensures c.Valid() && c.Sent(ParameterDescription(oids))
  {
    var body := ParameterDescriptionBody(oids);
    c.WriteFrame('t', body, ParameterDescription(oids));
  }
}
