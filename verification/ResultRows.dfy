/** Rows as a client reads them: each value stands under a field that announced
    its type and format, and a bound parameter comes back as it was sent. */
module ResultRows {
  import opened Text
  import opened Rules
  import opened Wire
  import opened Backend
  import opened Writer
  import opened Sessions
  import opened Conversations
  import opened Histories
  import opened Template
  import F = Frontend
  import Binary

  // ---------- Format codes ----------

  /** PostgreSQL 16 documentation, section 55.7, Bind: no result format codes, one for all columns, or one
      for each; a code is 0 for text or 1 for binary. */
  predicate ProperFormats(codes: seq<int>, columns: nat) {
    && (|codes| == 0 || |codes| == 1 || |codes| == columns)
    && forall i :: 0 <= i < |codes| ==> codes[i] == 0 || codes[i] == 1
  }

  function AgreedFormat(codes: seq<int>, i: nat): int
    requires |codes| < 2 || i < |codes|
  {
    if |codes| == 0 then 0 else if |codes| == 1 then codes[0] else codes[i]
  }

  lemma FormatsAgree(codes: seq<int>, columns: nat, i: nat)
    requires ProperFormats(codes, columns) && i < columns
    ensures FormatAt(codes, i) == AgreedFormat(codes, i)
  {
    if |codes| == 1 {
      assert codes[0] == 0 || codes[0] == 1;
    }
  }

  // ---------- Rows ----------

  /** What a client should find under a field. */
  function Shown(a: Answered, r: nat, c: nat, field: Field, lib: Library): Option<Text>
    requires r < |a.rule.rows|
  {
    var row := a.rule.rows[r];
    if c >= |row| || row[c] == NULL || a.cell(r, c).None? then None
    else if field.format == BINARY then Some(Binary.Encoded(field.typeOID, a.cell(r, c).value, lib.encode))
    else a.cell(r, c)
  }

  lemma {:induction false} RowsCarry(a: Answered, formats: seq<int>, lib: Library, n: nat, r: nat)
    requires r < n <= |a.rule.rows| && RowsUpTo(a, formats, lib, n).whole
    ensures var sent := RowsUpTo(a, formats, lib, n).sent;
            && |sent| == n && Cells(a, formats, lib, r, |a.rule.columns|).Some?
            && sent[r] == DataRow(Cells(a, formats, lib, r, |a.rule.columns|).value)
  {
    hide Cells;
    RowsShape(a, formats, lib, n);
    if r < n - 1 {
      RowsCarry(a, formats, lib, n - 1, r);
    } else {
      RowsShape(a, formats, lib, n - 1);
    }
  }

  lemma CellIsShown(a: Answered, formats: seq<int>, lib: Library, r: nat, c: nat)
    requires r < |a.rule.rows| && c < |a.rule.columns| && CellValue(a, formats, lib, r, c).Some?
    ensures CellValue(a, formats, lib, r, c).value == Shown(a, r, c, FieldsOf(a.rule, formats)[c], lib)
  {
    hide Binary.Encoded, TypeSize;
  }

  lemma RowIsShown(a: Answered, formats: seq<int>, lib: Library, r: nat)
    requires r < |a.rule.rows| && RowsUpTo(a, formats, lib, |a.rule.rows|).whole
    ensures var fields := FieldsOf(a.rule, formats);
            var sent := RowsUpTo(a, formats, lib, |a.rule.rows|).sent;
            && |sent| == |a.rule.rows| && sent[r].DataRow? && |sent[r].values| == |fields|
            && forall c :: 0 <= c < |fields| ==> sent[r].values[c] == Shown(a, r, c, fields[c], lib)
  {
    hide Shown, CellValue, Cells, FieldOf, RowsUpTo;
    RowsCarry(a, formats, lib, |a.rule.rows|, r);
    CellsShape(a, formats, lib, r, |a.rule.columns|);
    var cs := Cells(a, formats, lib, r, |a.rule.columns|).value;
    forall c | 0 <= c < |cs|
      ensures cs[c] == Shown(a, r, c, FieldsOf(a.rule, formats)[c], lib)
    {
      assert CellValue(a, formats, lib, r, c) == Some(cs[c]);
      CellIsShown(a, formats, lib, r, c);
    }
  }

  /** A successful response with columns: one description, one row of the same
      width for each rule row however ragged, one completion. Up to 32767
      columns the fields are numbered from one, and with proper format codes
      each announces the format the client asked for. */
  lemma RowsMatchDescription(s: Session, a: Answered, formats: seq<int>, lib: Library)
    returns (fields: seq<Field>, rows: seq<Reply>)
    requires !s.closed && s.phase.Running? && a.rule.columns != []
    requires !a.rule.dropConnection && !Fails(a.rule, a.hits) && Renders(a)
    ensures Respond(s, a, formats, lib).trace ==
            s.trace + [RowDescription(fields)] + rows + [CommandComplete(TagOf(a.rule))]
    ensures |fields| == |a.rule.columns| && |rows| == |a.rule.rows|
    ensures a.rule.tag == [] ==> TagOf(a.rule) == SelectTag(|rows|)
    ensures forall c :: 0 <= c < |fields| ==>
      && fields[c].name == a.rule.columns[c] && fields[c].typeOID == ColumnOID(a.rule, c)
      && fields[c].tableOID == 0 && fields[c].typeSize == TypeSize(fields[c].typeOID) && fields[c].modifier == -1
      && (|fields| <= 32767 ==> fields[c].attr == c + 1)
      && (ProperFormats(formats, |fields|) ==> fields[c].format == AgreedFormat(formats, c))
    ensures forall r :: 0 <= r < |rows| ==>
      && rows[r].DataRow? && |rows[r].values| == |fields|
      && forall c :: 0 <= c < |fields| ==> rows[r].values[c] == Shown(a, r, c, fields[c], lib)
  {
    hide RowsUpTo, TagOf, Shown, ColumnOID, FormatAt, AgreedFormat, TypeSize, Renders;
    RespondCrashesIff(s, a, formats, lib);
    DefaultTag(a.rule);
    fields := FieldsOf(a.rule, formats);
    rows := RowsUpTo(a, formats, lib, |a.rule.rows|).sent;
    RowsShape(a, formats, lib, |a.rule.rows|);
    forall c | 0 <= c < |fields| && ProperFormats(formats, |fields|)
      ensures fields[c].format == AgreedFormat(formats, c)
    {
      FormatsAgree(formats, |fields|, c);
    }
    forall c | 0 <= c < |fields| <= 32767
      ensures fields[c].attr == c + 1
    {
      SmallNumber(c + 1);
    }
    forall r | 0 <= r < |rows|
      ensures rows[r].DataRow? && |rows[r].values| == |fields|
      ensures forall c :: 0 <= c < |fields| ==> rows[r].values[c] == Shown(a, r, c, fields[c], lib)
    {
      RowIsShown(a, formats, lib, r);
    }
  }

  lemma DefaultTag(rule: Rule)
    ensures rule.tag == [] && rule.columns != [] ==> TagOf(rule) == SelectTag(|rule.rows|)
  {
    hide SelectTag;
  }

  /** The size announced for a boolean column is the number of bytes its binary
      values have; that of an integer column is exactly when the text is a number
      in range, or happens to be as long. */
  lemma AnnouncedSizeIff(oid: int, t: Text, encode: (int, Text) -> Text)
    ensures TypeSize(16) == |Binary.Encoded(16, t, encode)|
    ensures oid in {21, 23, 20} ==>
              (TypeSize(oid) == |Binary.Encoded(oid, t, encode)| <==>
               ParseInt(TrimSpace(t), 8 * Binary.IntWidth(oid)).Some? || |t| == TypeSize(oid))
  {
    if oid in {21, 23, 20} {
      hide Binary.Encoded, SignedValue, TrimSpace;
      Binary.IntegerText(oid, t, encode);
    }
  }

  // ---------- Errors ----------

  /** The text a client finds under a field code. */
  function FieldText(es: seq<ErrorField>, kind: byte): Option<Text> {
    if es == [] then None
    else if es[0].kind == kind then Some(es[0].value)
    else FieldText(es[1..], kind)
  }

  function OrDefault(t: Text, d: Text): Text {
    if t == [] then d else t
  }

  function Present(t: Text): Option<Text> {
    if t == [] then None else Some(t)
  }

  /** A report carries both severities, a code and the message always, and
      detail and hint exactly when it has them. */
  lemma ReportReads(e: ErrorReport)
    ensures var es := ErrorFields(e);
            && FieldText(es, 'S') == FieldText(es, 'V') == Some(OrDefault(e.severity, "ERROR"))
            && FieldText(es, 'C') == Some(OrDefault(e.code, "XX000"))
            && FieldText(es, 'M') == Some(e.message)
            && FieldText(es, 'D') == Present(e.detail) && FieldText(es, 'H') == Present(e.hint)
  {
    var head := [ErrorField('S', Severity(e)), ErrorField('V', Severity(e)), ErrorField('C', Code(e)), ErrorField('M', e.message)];
    var tail := Optional('D', e.detail) + Optional('H', e.hint);
    assert ErrorFields(e) == head + tail;
    FieldsBehind(head, tail, 'D');
    FieldsBehind(head, tail, 'H');
    DetailAndHint(e.detail, e.hint);
    FieldAt(head + tail, 0);
    FieldAt(head + tail, 1);
    FieldAt(head + tail, 2);
    FieldAt(head + tail, 3);
  }

  lemma {:induction false} FieldAt(es: seq<ErrorField>, k: nat)
    requires k < |es| && forall i :: 0 <= i < k ==> es[i].kind != es[k].kind
    ensures FieldText(es, es[k].kind) == Some(es[k].value)
  {
    if k > 0 {
      FieldAt(es[1..], k - 1);
    }
  }

  lemma DetailAndHint(detail: Text, hint: Text)
    ensures var tail := Optional('D', detail) + Optional('H', hint);
            FieldText(tail, 'D') == Present(detail) && FieldText(tail, 'H') == Present(hint)
  {
    var h := Optional('H', hint);
    var tail := Optional('D', detail) + h;
    assert hint != [] ==> h[1..] == [];
    if detail == [] {
      assert tail == h;
    } else {
      assert tail[1..] == h;
    }
  }

  lemma {:induction false} FieldsBehind(head: seq<ErrorField>, tail: seq<ErrorField>, kind: byte)
    requires forall i :: 0 <= i < |head| ==> head[i].kind != kind
    ensures FieldText(head + tail, kind) == FieldText(tail, kind)
  {
    if head == [] {
      assert head + tail == tail;
    } else {
      assert (head + tail)[1..] == head[1..] + tail;
      FieldsBehind(head[1..], tail, kind);
    }
  }

  /** A failing rule sends one error and nothing else, and the client reads the
      rule's own code, message, severity, detail and hint in it. */
  lemma FailingRuleTellsClient(s: Session, a: Answered, formats: seq<int>, lib: Library) returns (es: seq<ErrorField>)
    requires !s.closed && Fails(a.rule, a.hits) && !a.rule.dropConnection
    ensures Respond(s, a, formats, lib) == s.(trace := s.trace + [ErrorResponse(es)])
    ensures var e := a.rule.error.value;
            && FieldText(es, 'C') == Some(OrDefault(e.code, "XX000")) && FieldText(es, 'M') == Some(e.message)
            && FieldText(es, 'S') == Some(OrDefault(e.severity, "ERROR"))
            && FieldText(es, 'D') == Present(e.detail) && FieldText(es, 'H') == Present(e.hint)
  {
    hide FieldText, OrDefault, ErrorFields, Present;
    var report := RuleReport(a.rule.error.value);
    es := ErrorFields(report);
    ReportReads(report);
  }

  /** The code of the error that a Parse, Bind, Describe or Execute gets without
      any rule being asked, if it does, from the requests before it. */
  function Fault(frames: seq<Frame>, f: Frame): Option<Text> {
    match f.kind
    case 'P' => if F.ReadParse(f.payload).Failed? then Some("42601") else None
    case 'B' =>
      var r := F.ReadBind(f.payload);
      if r.Failed? then Some("42P02")
      else if r.Got? then UnknownStatement(frames, r.value.statement)
      else None
    case 'D' =>
      var r := F.ReadDescribe(f.payload);
      if !r.Got? then Some("42601")
      else if r.value.target == 'S' then UnknownStatement(frames, r.value.name)
      else if r.value.target == 'P' then UnknownPortal(frames, r.value.name)
      else None
    case 'E' =>
      var r := F.ReadExecute(f.payload);
      if !r.Got? then Some("42601") else UnknownPortal(frames, r.value.portal)
    case _ => None
  }

  function UnknownStatement(frames: seq<Frame>, name: Text): Option<Text> {
    if name != [] && LastParse(frames, name).None? then Some("26000") else None
  }

  function UnknownPortal(frames: seq<Frame>, name: Text): Option<Text> {
    if name != [] && LastBind(frames, name).None? then Some("34000") else None
  }

  /** One error under this code, and no rule asked. */
  ghost predicate OneError(s: Session, s': Session, code: Text) {
    && |s'.trace| == |s.trace| + 1 && s'.trace[..|s.trace|] == s.trace && s'.asked == s.asked
    && var m := s'.trace[|s.trace|]; m.ErrorResponse? && FieldText(m.errors, 'C') == Some(code)
  }

  /** Nothing but good news is sent. */
  ghost predicate NoError(s: Session, s': Session) {
    && |s.trace| <= |s'.trace| && s'.trace[..|s.trace|] == s.trace
    && forall i :: |s.trace| <= i < |s'.trace| ==> !s'.trace[i].ErrorResponse?
  }

  lemma ReportIsOneError(s: Session, e: ErrorReport)
    requires !s.closed && e.code != []
    ensures OneError(s, Send(s, Report(e)), e.code)
  {
    hide FieldText, ErrorFields;
    ReportReads(e);
  }

  lemma ParseFault(s: Session, frames: seq<Frame>, f: Frame)
    requires !s.closed && f.kind == 'P'
    ensures match Fault(frames, f)
            case Some(code) => OneError(s, Parsed(s, f.payload), code)
            case None => NoError(s, Parsed(s, f.payload))
  {
    hide F.ReadParse, ErrorFields, OneError;
    F.OnlyBindPanics(f.payload);
    var r := F.ReadParse(f.payload);
    if r.Failed? {
      ReportIsOneError(s, ReadReport(SYNTAX, r.error));
    }
  }

  lemma BindFault(s: Session, frames: seq<Frame>, f: Frame, lib: Library)
    requires !s.closed && f.kind == 'B' && Mirrors(s, frames)
    ensures match Fault(frames, f)
            case Some(code) => OneError(s, Bound(s, f.payload, lib), code)
            case None => NoError(s, Bound(s, f.payload, lib))
  {
    hide F.ReadBind, ErrorFields, OneError, LastParse, StatementIn;
    var r := F.ReadBind(f.payload);
    if r.Failed? {
      ReportIsOneError(s, ReadReport(PARAMETER, r.error));
    } else if r.Got? {
      assert StatementIn(s.stmts, r.value.statement) == LastParse(frames, r.value.statement);
      ReportIsOneError(s, NoStatement(r.value.statement, lib));
    }
  }

  lemma DescribeFault(s: Session, frames: seq<Frame>, f: Frame, w: World, lib: Library)
    requires !s.closed && f.kind == 'D' && Mirrors(s, frames)
    ensures match Fault(frames, f)
            case Some(code) => OneError(s, DescribedAs(s, f.payload, w, lib), code)
            case None => NoError(s, DescribedAs(s, f.payload, w, lib))
  {
    hide F.ReadDescribe, ErrorFields, OneError, NoError, LastParse, LastBind, StatementIn, FieldsOf, Announced;
    F.OnlyBindPanics(f.payload);
    var r := F.ReadDescribe(f.payload);
    if r.Failed? {
      ReportIsOneError(s, ReadReport(SYNTAX, r.error));
    } else {
      var name := r.value.name;
      assert StatementIn(s.stmts, name) == LastParse(frames, name);
      assert PortalOption(s.portals, name) == LastBind(frames, name);
      ReportIsOneError(s, NoStatement(name, lib));
      ReportIsOneError(s, NoCursor(name, lib));
      var stmt := StatementIn(s.stmts, name);
      var types := ParameterDescription(if stmt.Some? then stmt.value.paramOIDs else []);
      AnnouncedIsNoError(Send(s, types), QueryOf(stmt), [], w);
      NoErrorBehind(s, types, Announced(Send(s, types), QueryOf(stmt), [], w));
      var portal := PortalIn(s.portals, name);
      AnnouncedIsNoError(s, QueryOf(portal.stmt), portal.formats, w);
      AnnouncedIsNoError(s, [], [], w);
    }
  }

  lemma NoErrorBehind(s: Session, m: Reply, s': Session)
    requires !s.closed && !m.ErrorResponse? && NoError(Send(s, m), s')
    ensures NoError(s, s')
  {
    assert s.trace == Send(s, m).trace[..|s.trace|];
  }

  lemma AnnouncedIsNoError(s: Session, query: Text, formats: seq<int>, w: World)
    requires !s.closed
    ensures NoError(s, Announced(s, query, formats, w))
  {
    hide FieldsOf;
  }

  lemma ExecuteFault(s: Session, frames: seq<Frame>, f: Frame, w: World, lib: Library)
    requires !s.closed && f.kind == 'E' && Mirrors(s, frames)
    ensures match Fault(frames, f)
            case Some(code) => OneError(s, Executed(s, f.payload, w, lib), code)
            case None => |Executed(s, f.payload, w, lib).asked| == |s.asked| + 1
  {
    hide F.ReadExecute, ErrorFields, LastBind, Respond, FieldText;
    F.OnlyBindPanics(f.payload);
    var r := F.ReadExecute(f.payload);
    var s0 := s.(queries := s.queries + 1);
    if r.Failed? {
      ReportIsOneError(s0, ReadReport(SYNTAX, r.error));
    } else {
      var name := r.value.portal;
      assert PortalOption(s.portals, name) == LastBind(frames, name);
      ReportIsOneError(s0, NoCursor(name, lib));
      var portal := PortalIn(s.portals, name);
      RespondKeeps(Ask(s0, QueryOf(portal.stmt), portal.params), w(|s.asked|), portal.formats, lib);
    }
  }

  /** Which of these requests gets which error: 42601 and 42P02 when it does not
      read, 26000 and 34000 when what it names was never made or was closed.
      Otherwise a Parse, Bind or Describe sends no error, and an Execute asks
      the rules. */
  lemma ErrorExactlyWhen(t0: seq<Reply>, frames: seq<Frame>, f: Frame, w: World, lib: Library)
    requires f.kind in {'P', 'B', 'D', 'E'}
    requires var s := Run(Start(t0), frames, w, lib); s.phase.Running? && !s.closed
    ensures var s := Run(Start(t0), frames, w, lib);
            var s' := Process(s, f, w, lib);
            match Fault(frames, f)
            case Some(code) => OneError(s, s', code)
            case None => if f.kind == 'E' then |s'.asked| == |s.asked| + 1 else NoError(s, s')
  {
    hide Run, Mirrors, Parsed, Bound, DescribedAs, Executed, Fault, OneError, NoError;
    StateIsHistory(t0, frames, w, lib);
    var s := Run(Start(t0), frames, w, lib);
    match f.kind
    case 'P' => ParseFault(s, frames, f);
    case 'B' => BindFault(s, frames, f, lib);
    case 'D' => DescribeFault(s, frames, f, w, lib);
    case 'E' => ExecuteFault(s, frames, f, w, lib);
  }

  lemma SmallNumber(n: nat)
    requires n <= 32767
    ensures Int16Of(n) == n
  {
  }

  // ---------- Templates in rows ----------

  /** The cells of an answer are what the template renderer makes of them, each
      from wherever the shared counter stood. */
  ghost predicate RenderedWith(a: Answered, params: Params, at: (nat, nat) -> Generator, o: Oracle) {
    forall r, c :: 0 <= r < |a.rule.rows| && 0 <= c < |a.rule.rows[r]| ==>
      a.cell(r, c) == RenderedCell(a.rule.rows[r][c], params, at(r, c), o)
  }

  function RenderedCell(val: Text, params: Params, g: Generator, o: Oracle): Option<Text> {
    ScanFits(val);
    match RenderPieces(Scan(val), params, g, o)
    case Out(t, _) => Some(t)
    case Panics => None
  }

  lemma ScanEmpty()
    ensures Scan([]) == []
  {
  }

  lemma ParamTagRenders(e: Text, params: Params, g: Generator, o: Oracle)
    requires e != [] && forall i :: 0 <= i < |e| ==> !IsBrace(e[i])
    requires var parts := Parts(['{', '{'] + e + ['}', '}']); parts != [] && ToLower(parts[0]) == "param"
    ensures var raw := ['{', '{'] + e + ['}', '}'];
            RenderedCell(raw, params, g, o) == Some(ParamText(Parts(raw), params))
  {
    hide Scan, Parts, ParamText, ToLower;
    var raw := ['{', '{'] + e + ['}', '}'];
    ParamIsNotRescanned([], e, [], params, g, o);
    assert [] + (raw + []) == raw;
    ScanEmpty();
    assert [] + (ParamText(Parts(raw), params) + []) == ParamText(Parts(raw), params);
  }

  /** A cell that is one parameter tag brings back the bound parameter byte for
      byte in the text format, whatever the parameter holds. */
  lemma BoundParameterComesBack(a: Answered, params: Params, at: (nat, nat) -> Generator, o: Oracle,
                                r: nat, c: nat, e: Text, field: Field, lib: Library)
    requires RenderedWith(a, params, at, o) && field.format != BINARY
    requires r < |a.rule.rows| && c < |a.rule.rows[r]|
    requires e != [] && forall i :: 0 <= i < |e| ==> !IsBrace(e[i])
    requires a.rule.rows[r][c] == ['{', '{'] + e + ['}', '}']
    requires var parts := Parts(a.rule.rows[r][c]);
             && |parts| >= 2 && ToLower(parts[0]) == "param" && ParseInt(ParamIndex(parts[1]), 64).Some?
             && var k := ParseInt(ParamIndex(parts[1]), 64).value; 1 <= k <= |params| && params[k - 1].Some?
    ensures Shown(a, r, c, field, lib) == params[ParseInt(ParamIndex(Parts(a.rule.rows[r][c])[1]), 64).value - 1]
  {
    hide Parts, ParseInt, ToLower, RenderedCell;
    var raw := a.rule.rows[r][c];
    ParamTagRenders(e, params, at(r, c), o);
    assert raw[0] == '{' && NULL[0] == 'N';
    assert raw != NULL;
  }
}
