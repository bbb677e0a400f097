/** One client session after its handshake: every frame is one step from state
    to state, and the replies it sends are appended to the trace. */
module Sessions {
  import opened Text
  import opened Rules
  import opened Wire
  import opened Backend
  import opened Writer
  import F = Frontend
  import Matcher
  import Binary

  datatype Statement = Statement(query: Text, paramOIDs: seq<int>)

  /** A portal remembers the statement, the parameters and the result formats of
      its Bind. The unnamed one may be bound to no statement at all. */
  datatype Portal = Portal(stmt: Option<Statement>, params: Params, formats: seq<int>)

  datatype Asked = Asked(query: Text, params: Params)

  /** What a match gave: a rule, its hits when they are looked at, and what each
      of its cells renders to; None is a render that panics. */
  datatype Answered = Answered(rule: Rule, hits: int, cell: (nat, nat) -> Option<Text>)

  /** The answer to the n-th match of the session. Other clients share the
      engine, so nothing relates one answer to the next. */
  type World = nat -> Answered

  /** Library formatting: quoted names in messages, binary floats and times. */
  datatype Library = Library(quote: Text -> Text, encode: (int, Text) -> Text)

  /** `Crashed` is a run-time panic, which takes the whole server down. */
  datatype Phase = Running | Ended | Crashed

  const IDLE: byte := 'I'
  const IN_BLOCK: byte := 'T'
  const BINARY := 1

  datatype Session = Session(
    status: byte,
    stmts: map<Text, Statement>,
    portals: map<Text, Portal>,
    phase: Phase,
    closed: bool,
    trace: seq<Reply>,
    queries: nat,
    asked: seq<Asked>)

  function Start(trace: seq<Reply>): Session {
    Session(IDLE, map[], map[], Running, false, trace, 0, [])
  }

  function SendAll(s: Session, ms: seq<Reply>): Session {
    if s.closed then s else s.(trace := s.trace + ms)
  }

  function Send(s: Session, m: Reply): Session {
    SendAll(s, [m])
  }

  function Ready(s: Session): Session {
    if s.phase.Running? then Send(s, ReadyForQuery(s.status)) else s
  }

  // ---------- Errors ----------

  function ErrorText(e: ReadError): Text {
    match e
    case EOF => "EOF"
    case UnexpectedEOF => "unexpected EOF"
    case EmptyDescribe => "empty describe payload"
    case EmptyClose => "empty close payload"
  }

  const SYNTAX: Text := "42601"
  const PARAMETER: Text := "42P02"
  const NO_STATEMENT: Text := "26000"
  const NO_CURSOR: Text := "34000"

  function ReadReport(code: Text, e: ReadError): ErrorReport {
    ErrorReport([], code, ErrorText(e), [], [])
  }

  function NoStatement(name: Text, lib: Library): ErrorReport {
    ErrorReport([], NO_STATEMENT, "prepared statement " + lib.quote(name) + " does not exist", [], [])
  }

  function NoCursor(name: Text, lib: Library): ErrorReport {
    ErrorReport([], NO_CURSOR, "cursor " + lib.quote(name) + " does not exist", [], [])
  }

  function RuleReport(e: MockError): ErrorReport {
    ErrorReport(e.severity, e.code, e.message, e.detail, e.hint)
  }

  // ---------- The response of a rule ----------

  function FormatAt(formats: seq<int>, i: nat): int {
    if |formats| == 1 && formats[0] == BINARY then BINARY
    else if i < |formats| && formats[i] == BINARY then BINARY
    else 0
  }

  function ColumnOID(rule: Rule, i: nat): int {
    if i < |rule.types| && rule.types[i] != 0 then rule.types[i] else TEXT_OID
  }

  const OID_UUID := 2950

  function TypeSize(oid: int): int {
    if oid == Binary.OID_BOOL then 1
    else if oid == Binary.OID_INT2 then 2
    else if oid == Binary.OID_INT4 || oid == Binary.OID_FLOAT4 then 4
    else if oid in {Binary.OID_INT8, Binary.OID_FLOAT8, Binary.OID_TIMESTAMP, Binary.OID_TIMESTAMPTZ} then 8
    else if oid == OID_UUID then 16
    else -1
  }

  /** The 16-bit conversion of a column number. */
  function Int16Of(n: nat): int {
    Signed(n % 0x1_0000, 16)
  }

  function FieldOf(rule: Rule, formats: seq<int>, i: nat): Field
    requires i < |rule.columns|
  {
    var oid := ColumnOID(rule, i);
    Field(rule.columns[i], 0, Int16Of(i + 1), oid, TypeSize(oid), -1, FormatAt(formats, i))
  }

  function FieldsOf(rule: Rule, formats: seq<int>): (fs: seq<Field>)
    ensures |fs| == |rule.columns|
  {
    seq(|rule.columns|, i requires 0 <= i < |rule.columns| => FieldOf(rule, formats, i))
  }

  /** The value of one column, or None when rendering it panics. */
  function CellValue(a: Answered, formats: seq<int>, lib: Library, r: nat, c: nat): Option<Option<Text>>
    requires r < |a.rule.rows|
  {
    var row := a.rule.rows[r];
    if c >= |row| || row[c] == NULL then Some(None)
    else
      match a.cell(r, c)
      case None => None
      case Some(t) =>
        Some(Some(if FormatAt(formats, c) == BINARY then Binary.Encoded(ColumnOID(a.rule, c), t, lib.encode) else t))
  }

  /** The first n columns of a row. */
  function Cells(a: Answered, formats: seq<int>, lib: Library, r: nat, n: nat): Option<Params>
    requires r < |a.rule.rows|
  {
    if n == 0 then Some([])
    else
      match (Cells(a, formats, lib, r, n - 1), CellValue(a, formats, lib, r, n - 1))
      case (Some(before), Some(v)) => Some(before + [v])
      case _ => None
  }

  datatype Rows = Rows(sent: seq<Reply>, whole: bool)

  /** The first n rows; a panic cuts them short. */
  function RowsUpTo(a: Answered, formats: seq<int>, lib: Library, n: nat): Rows
    requires n <= |a.rule.rows|
  {
    if n == 0 then Rows([], true)
    else
      var before := RowsUpTo(a, formats, lib, n - 1);
      if !before.whole then before
      else
        match Cells(a, formats, lib, n - 1, |a.rule.columns|)
        case None => Rows(before.sent, false)
        case Some(cs) => Rows(before.sent + [DataRow(cs)], true)
  }

  function SelectTag(n: nat): Text {
    "SELECT " + Itoa(n)
  }

  function OkTag(): Text {
    "OK"
  }

  function TagOf(rule: Rule): Text {
    if rule.tag != [] then rule.tag else if rule.columns != [] then SelectTag(|rule.rows|) else OkTag()
  }

  function Described(s: Session, a: Answered, formats: seq<int>, lib: Library): Session {
    if a.rule.columns == [] then s
    else
      var rows := RowsUpTo(a, formats, lib, |a.rule.rows|);
      var s1 := SendAll(Send(s, RowDescription(FieldsOf(a.rule, formats))), rows.sent);
      if rows.whole then s1 else s1.(phase := Crashed)
  }

  function Respond(s: Session, a: Answered, formats: seq<int>, lib: Library): Session {
    if a.rule.dropConnection then s.(closed := true)
    else if Fails(a.rule, a.hits) then Send(s, Report(RuleReport(a.rule.error.value)))
    else
      var s1 := Described(s, a, formats, lib);
      if s1.phase.Crashed? then s1 else Send(s1, CommandComplete(TagOf(a.rule)))
  }

  /** Every match is logged with what was asked. */
  function Ask(s: Session, query: Text, params: Params): Session {
    s.(asked := s.asked + [Asked(query, params)])
  }

  // ---------- The messages ----------

  const BEGIN: Text := "BEGIN"
  const START: Text := "START TRANSACTION"
  const COMMIT: Text := "COMMIT"
  const ROLLBACK: Text := "ROLLBACK"

  function TxAfter(query: Text, status: byte): byte {
    var norm := ToUpper(Matcher.NormalizeSQL(query));
    if norm == BEGIN || norm == START then IN_BLOCK
    else if norm == COMMIT || norm == ROLLBACK then IDLE
    else status
  }

  predicate IsEmptyQuery(query: Text) {
    query == [] || query == [';']
  }

  function Simple(s: Session, payload: Text, w: World, lib: Library): Session {
    var s0 := s.(queries := s.queries + 1);
    var query := TrimSpace(F.ReadQuery(payload));
    if IsEmptyQuery(query) then Ready(Send(s0, EmptyQueryResponse))
    else
      var s1 := s0.(status := TxAfter(query, s0.status));
      Ready(Respond(Ask(s1, query, []), w(|s1.asked|), [], lib))
  }

  function Parsed(s: Session, payload: Text): Session {
    match F.ReadParse(payload)
    case Got(m, _) => Send(s.(stmts := s.stmts[m.statement := Statement(m.query, m.paramOIDs)]), ParseComplete)
    case Failed(e) => Send(s, Report(ReadReport(SYNTAX, e)))
    case Panicked => s.(phase := Crashed)
  }

  function StatementIn(stmts: map<Text, Statement>, name: Text): Option<Statement> {
    if name in stmts then Some(stmts[name]) else None
  }

  function Bound(s: Session, payload: Text, lib: Library): Session {
    match F.ReadBind(payload)
    case Got(m, _) =>
      var stmt := StatementIn(s.stmts, m.statement);
      if stmt.None? && m.statement != [] then Send(s, Report(NoStatement(m.statement, lib)))
      else Send(s.(portals := s.portals[m.portal := Portal(stmt, m.params, m.resultFormats)]), BindComplete)
    case Failed(e) => Send(s, Report(ReadReport(PARAMETER, e)))
    case Panicked => s.(phase := Crashed)
  }

  /** An unnamed portal nobody bound. */
  const NO_PORTAL := Portal(None, [], [])

  function PortalIn(portals: map<Text, Portal>, name: Text): Portal {
    if name in portals then portals[name] else NO_PORTAL
  }

  function QueryOf(stmt: Option<Statement>): Text {
    if stmt.Some? then stmt.value.query else []
  }

  function Announced(s: Session, query: Text, formats: seq<int>, w: World): Session {
    if query == [] then Send(s, NoData)
    else
      var rule := w(|s.asked|).rule;
      Send(Ask(s, query, []), if rule.columns == [] then NoData else RowDescription(FieldsOf(rule, formats)))
  }

  function DescribedAs(s: Session, payload: Text, w: World, lib: Library): Session {
    match F.ReadDescribe(payload)
    case Failed(e) => Send(s, Report(ReadReport(SYNTAX, e)))
    case Panicked => s.(phase := Crashed)
    case Got(m, _) =>
      if m.target == 'S' then
        var stmt := StatementIn(s.stmts, m.name);
        if stmt.None? && m.name != [] then Send(s, Report(NoStatement(m.name, lib)))
        else
          var oids := if stmt.Some? then stmt.value.paramOIDs else [];
          Announced(Send(s, ParameterDescription(oids)), QueryOf(stmt), [], w)
      else if m.target == 'P' then
        var portal := PortalIn(s.portals, m.name);
        if m.name !in s.portals && m.name != [] then Send(s, Report(NoCursor(m.name, lib)))
        else Announced(s, QueryOf(portal.stmt), portal.formats, w)
      else Announced(s, [], [], w)
  }

  function Executed(s: Session, payload: Text, w: World, lib: Library): Session {
    var s0 := s.(queries := s.queries + 1);
    match F.ReadExecute(payload)
    case Failed(e) => Send(s0, Report(ReadReport(SYNTAX, e)))
    case Panicked => s0.(phase := Crashed)
    case Got(m, _) =>
      var portal := PortalIn(s.portals, m.portal);
      if m.portal !in s.portals && m.portal != [] then Send(s0, Report(NoCursor(m.portal, lib)))
      else Respond(Ask(s0, QueryOf(portal.stmt), portal.params), w(|s0.asked|), portal.formats, lib)
  }

  /** A Close that does not read is answered like any other. */
  function Forgotten(s: Session, payload: Text): Session {
    var s1 :=
      match F.ReadClose(payload)
      case Failed(_) => s
      case Panicked => s
      case Got(m, _) =>
        if m.target == 'S' then s.(stmts := s.stmts - {m.name})
        else if m.target == 'P' then s.(portals := s.portals - {m.name})
        else s;
    Send(s1, CloseComplete)
  }

  function Process(s: Session, f: Frame, w: World, lib: Library): Session {
    match f.kind
    case 'X' => s.(phase := Ended)
    case 'Q' => Simple(s, f.payload, w, lib)
    case 'P' => Parsed(s, f.payload)
    case 'B' => Bound(s, f.payload, lib)
    case 'D' => DescribedAs(s, f.payload, w, lib)
    case 'E' => Executed(s, f.payload, w, lib)
    case 'C' => Forgotten(s, f.payload)
    case 'H' => s
    case _ => Ready(s)
  }

  /** The loop: frame by frame until the input ends, the client terminates or
      the server panics. */
  function Run(s: Session, frames: seq<Frame>, w: World, lib: Library): Session
    decreases |frames|
  {
    if frames == [] || !s.phase.Running? then s else Run(Process(s, frames[0], w, lib), frames[1..], w, lib)
  }
}
