/** What a client is told for each request, message by message: which rule is
    asked, and what its answer becomes on the wire. */
module ClientAnswers {
  import opened Text
  import opened Rules
  import opened Wire
  import opened Backend
  import opened Writer
  import opened Sessions
  import opened Conversations
  import opened Histories
  import opened ResultRows
  import F = Frontend
  import Binary

  // ---------- The answer of a rule ----------

  /** The fixed sizes of the types that have one, by type number: boolean, the
      integers, the floats, the timestamps and uuid. */
  const SIZES: map<int, int> := map[16 := 1, 21 := 2, 23 := 4, 700 := 4, 20 := 8, 701 := 8, 1114 := 8, 1184 := 8, 2950 := 16]

  /** How column c of a rule is described to a client that asked for these result
      formats. */
  ghost predicate FieldTold(f: Field, rule: Rule, formats: seq<int>, c: nat)
    requires c < |rule.columns|
  {
    && f.name == rule.columns[c] && f.tableOID == 0 && f.modifier == -1
    && f.typeOID == (if c < |rule.types| && rule.types[c] != 0 then rule.types[c] else 25)
    && f.typeSize == (if f.typeOID in SIZES then SIZES[f.typeOID] else -1)
    && (c < 32767 ==> f.attr == c + 1)
    && f.format == (if (|formats| == 1 && formats[0] == 1) || (c < |formats| && formats[c] == 1) then 1 else 0)
  }

  ghost predicate FieldsTold(fields: seq<Field>, rule: Rule, formats: seq<int>) {
    |fields| == |rule.columns| && forall c :: 0 <= c < |fields| ==> FieldTold(fields[c], rule, formats, c)
  }

  /** What stands under a field: nothing for a missing cell or the text NULL, and
      otherwise the rendered text, encoded for the type when the field is binary. */
  function ValueTold(a: Answered, r: nat, c: nat, f: Field, lib: Library): Option<Text>
    requires r < |a.rule.rows|
  {
    if c >= |a.rule.rows[r]| || a.rule.rows[r][c] == "NULL" || a.cell(r, c).None? then None
    else if f.format == 1 then Some(Binary.Encoded(f.typeOID, a.cell(r, c).value, lib.encode))
    else a.cell(r, c)
  }

  /** The rule's own tag; without one, how many rows there are, or OK when the
      rule has no columns. */
  function TagTold(rule: Rule): Text {
    if rule.tag != [] then rule.tag
    else if rule.columns != [] then "SELECT " + Itoa(|rule.rows|)
    else "OK"
  }

  /** A rule fails with its error, unless it is still in its first executions. */
  predicate FailsNow(a: Answered) {
    a.rule.error.Some? && (a.rule.failAfterN <= 0 || a.hits > a.rule.failAfterN)
  }

  ghost predicate ErrorTold(m: Reply, e: MockError) {
    && m.ErrorResponse?
    && FieldText(m.errors, 'C') == Some(OrDefault(e.code, "XX000")) && FieldText(m.errors, 'M') == Some(e.message)
    && FieldText(m.errors, 'S') == FieldText(m.errors, 'V') == Some(OrDefault(e.severity, "ERROR"))
    && FieldText(m.errors, 'D') == Present(e.detail) && FieldText(m.errors, 'H') == Present(e.hint)
  }

  ghost predicate RowTold(m: Reply, a: Answered, r: nat, fields: seq<Field>, lib: Library)
    requires r < |a.rule.rows|
  {
    && m.DataRow? && |m.values| == |fields|
    && forall c :: 0 <= c < |fields| ==> m.values[c] == ValueTold(a, r, c, fields[c], lib)
  }

  ghost predicate RowsTold(ms: seq<Reply>, a: Answered, fields: seq<Field>, lib: Library) {
    |ms| == |a.rule.rows| && forall r :: 0 <= r < |ms| ==> RowTold(ms[r], a, r, fields, lib)
  }

  /** The messages of an answer: an error alone; a tag alone for a rule without
      columns; or a description, a row for each row of the rule, and a tag. */
  ghost predicate AnswerTold(body: seq<Reply>, a: Answered, formats: seq<int>, lib: Library) {
    if FailsNow(a) then |body| == 1 && ErrorTold(body[0], a.rule.error.value)
    else
      && body != [] && body[|body| - 1] == CommandComplete(TagTold(a.rule))
      && if a.rule.columns == [] then |body| == 1
         else
           && |body| >= 2 && body[0].RowDescription? && FieldsTold(body[0].fields, a.rule, formats)
           && RowsTold(body[1..|body| - 1], a, body[0].fields, lib)
  }

  lemma DescribedFields(rule: Rule, formats: seq<int>)
    ensures FieldsTold(FieldsOf(rule, formats), rule, formats)
  {
    hide TypeSize, Int16Of, SIZES;
    forall c | 0 <= c < |rule.columns|
      ensures FieldTold(FieldOf(rule, formats, c), rule, formats, c)
    {
      SizeTold(ColumnOID(rule, c));
      if c < 32767 {
        SmallNumber(c + 1);
      }
    }
  }

  lemma SizeTold(oid: int)
    ensures TypeSize(oid) == if oid in SIZES then SIZES[oid] else -1
  {
  }

  lemma FailsIff(a: Answered)
    ensures Fails(a.rule, a.hits) <==> FailsNow(a)
  {
  }

  lemma TagSent(rule: Rule)
    ensures TagOf(rule) == TagTold(rule)
  {
  }

  lemma ShownIsTold(a: Answered, r: nat, c: nat, f: Field, lib: Library)
    requires r < |a.rule.rows|
    ensures Shown(a, r, c, f, lib) == ValueTold(a, r, c, f, lib)
  {
    hide Binary.Encoded;
  }

  /** Every answer that neither drops the connection nor panics is told so. */
  lemma AnswerIsTold(s: Session, a: Answered, formats: seq<int>, lib: Library) returns (body: seq<Reply>)
    requires s.phase.Running? && !s.closed && GetsThrough(a)
    ensures Respond(s, a, formats, lib) == s.(trace := s.trace + body) && AnswerTold(body, a, formats, lib)
  {
    hide RowsUpTo, FieldsOf, TagOf, TagTold, FailsNow, FieldText, ErrorFields, OrDefault, Present, Steady, FieldsTold;
    FailsIff(a);
    TagSent(a.rule);
    RespondCrashesIff(s, a, formats, lib);
    var done := [CommandComplete(TagOf(a.rule))];
    if Fails(a.rule, a.hits) {
      body := [Report(RuleReport(a.rule.error.value))];
      ReportReads(RuleReport(a.rule.error.value));
    } else if a.rule.columns == [] {
      body := done;
    } else {
      var head := [RowDescription(FieldsOf(a.rule, formats))];
      var rows := RowsUpTo(a, formats, lib, |a.rule.rows|).sent;
      body := head + rows + done;
      DescribedFields(a.rule, formats);
      RowsSent(a, formats, lib);
      assert body[1..|body| - 1] == rows;
      assert s.trace + head + rows + done == s.trace + body;
    }
  }

  lemma RowsSent(a: Answered, formats: seq<int>, lib: Library)
    requires RowsUpTo(a, formats, lib, |a.rule.rows|).whole
    ensures RowsTold(RowsUpTo(a, formats, lib, |a.rule.rows|).sent, a, FieldsOf(a.rule, formats), lib)
  {
    hide RowsUpTo, FieldOf, Shown, ValueTold;
    RowsShape(a, formats, lib, |a.rule.rows|);
    var sent, fields := RowsUpTo(a, formats, lib, |a.rule.rows|).sent, FieldsOf(a.rule, formats);
    forall r | 0 <= r < |a.rule.rows|
      ensures RowTold(sent[r], a, r, fields, lib)
    {
      RowIsShown(a, formats, lib, r);
      forall c | 0 <= c < |fields|
        ensures sent[r].values[c] == ValueTold(a, r, c, fields[c], lib)
      {
        ShownIsTold(a, r, c, fields[c], lib);
      }
    }
  }

  /** The last message of an answer that succeeds, whatever is drawn up to it. */
  lemma LastIsTag(s: Session, a: Answered, formats: seq<int>, lib: Library)
    requires s.phase.Running? && !s.closed && GetsThrough(a)
    requires a.rule.error.Some? ==> 0 < a.rule.failAfterN && a.hits <= a.rule.failAfterN
    ensures var t := Respond(s, a, formats, lib).trace;
            && s.trace < t
            && t[|t| - 1] == CommandComplete(if a.rule.tag != [] then a.rule.tag
                                             else if a.rule.columns != [] then "SELECT " + Itoa(|a.rule.rows|) else "OK")
            && (a.rule.columns == [] ==> |t| == |s.trace| + 1)
  {
    hide Respond, GetsThrough, Itoa, FieldsTold, RowsTold;
    var body := AnswerIsTold(s, a, formats, lib);
  }

  // ---------- A simple query ----------

  /** A simple query asks for its text as it was sent, white space around it aside
      and without parameters, and is told the answer in the text format and then
      that the server is ready. An empty text, or a lone semicolon, asks nothing. */
  lemma SimpleQueryIsTold(s: Session, q: Text, w: World, lib: Library) returns (body: seq<Reply>)
    requires s.phase.Running? && !s.closed && NUL !in q
    ensures var s', text := Process(s, F.FrameOf(F.Query(q)), w, lib), TrimSpace(q);
            && s'.queries == s.queries + 1 && s'.stmts == s.stmts && s'.portals == s.portals
            && if text == "" || text == ";" then
                 && s'.asked == s.asked && s'.status == s.status
                 && s'.trace == s.trace + [EmptyQueryResponse, ReadyForQuery(s.status)]
               else
                 && s'.asked == s.asked + [Asked(text, [])]
                 && (GetsThrough(w(|s.asked|)) ==>
                      && s'.trace == s.trace + body + [ReadyForQuery(s'.status)]
                      && AnswerTold(body, w(|s.asked|), [], lib))
  {
    hide Respond, TrimSpace, TxAfter, GetsThrough, F.ReadQuery, AnswerTold;
    F.QueryBack(q);
    QueryKeeps(s, Terminated(q), w, lib);
    var text := TrimSpace(q);
    var s0 := s.(queries := s.queries + 1);
    body := [];
    if IsEmptyQuery(text) {
      assert s.trace + [EmptyQueryResponse] + [ReadyForQuery(s.status)] ==
             s.trace + [EmptyQueryResponse, ReadyForQuery(s.status)];
    } else {
      var s1 := Ask(s0.(status := TxAfter(text, s.status)), text, []);
      RespondKeeps(s1, w(|s.asked|), [], lib);
      if GetsThrough(w(|s.asked|)) {
        body := AnswerIsTold(s1, w(|s.asked|), [], lib);
      }
    }
  }

  // ---------- An Execute ----------

  /** An Execute asks for the query and parameters of the last Bind of its portal
      and is told the answer in the formats that Bind asked for. */
  lemma ExecuteIsTold(t0: seq<Reply>, frames: seq<Frame>, portal: Text, maxRows: int, w: World, lib: Library)
    returns (body: seq<Reply>)
    requires var s := Run(Start(t0), frames, w, lib); s.phase.Running? && !s.closed
    requires F.WellFormed(F.Execute(portal, maxRows)) && LastBind(frames, portal).Some?
    ensures var s := Run(Start(t0), frames, w, lib);
            var s' := Process(s, F.FrameOf(F.Execute(portal, maxRows)), w, lib);
            var p := LastBind(frames, portal).value;
            && s'.asked == s.asked + [Asked(if p.stmt.Some? then p.stmt.value.query else [], p.params)]
            && (GetsThrough(w(|s.asked|)) ==>
                 s'.trace == s.trace + body && AnswerTold(body, w(|s.asked|), p.formats, lib))
  {
    hide Run, Respond, LastBind, GetsThrough, AnswerTold, F.Payload, F.ReadExecute, Process;
    var s := Run(Start(t0), frames, w, lib);
    var payload := F.Payload(F.Execute(portal, maxRows));
    ExecutePayload(portal, maxRows);
    ExecuteUsesLastBind(t0, frames, payload, w, lib);
    var p := LastBind(frames, portal).value;
    var s1 := s.(queries := s.queries + 1, asked := s.asked + [Asked(QueryOf(p.stmt), p.params)]);
    body := [];
    if GetsThrough(w(|s.asked|)) {
      body := AnswerIsTold(s1, w(|s.asked|), p.formats, lib);
    }
  }

  lemma ExecutePayload(portal: Text, maxRows: int)
    requires F.WellFormed(F.Execute(portal, maxRows))
    ensures F.ReadExecute(F.Payload(F.Execute(portal, maxRows))) == Got(F.Execute(portal, maxRows), [])
  {
    hide F.Payload, F.ReadExecute;
    F.ExecuteBack(portal, maxRows);
  }

  // ---------- A Describe ----------

  /** What a Describe is about: a statement as it was last parsed, the query of a
      portal as it was last bound, or nothing. */
  function SubjectQuery(frames: seq<Frame>, target: byte, name: Text): Text {
    if target == 'S' then
      match LastParse(frames, name)
      case Some(stmt) => stmt.query
      case None => []
    else if target == 'P' then
      match LastBind(frames, name)
      case Some(Portal(Some(stmt), _, _)) => stmt.query
      case _ => []
    else []
  }

  function SubjectFormats(frames: seq<Frame>, target: byte, name: Text): seq<int> {
    if target == 'P' && LastBind(frames, name).Some? then LastBind(frames, name).value.formats else []
  }

  /** The parameter types the Parse of a statement gave. */
  function SubjectTypes(frames: seq<Frame>, name: Text): seq<int> {
    match LastParse(frames, name)
    case Some(stmt) => stmt.paramOIDs
    case None => []
  }

  /** A description of what a rule answers, or that it answers no rows. */
  ghost predicate DescriptionTold(m: Reply, rule: Rule, formats: seq<int>) {
    if rule.columns == [] then m.NoData?
    else m.RowDescription? && FieldsTold(m.fields, rule, formats)
  }

  /** A Describe of a statement tells the parameter types of its Parse; then, like
      that of a portal, it asks for the query without parameters and tells the
      columns, or that there are none. */
  lemma DescribeIsTold(t0: seq<Reply>, frames: seq<Frame>, target: byte, name: Text, w: World, lib: Library)
    returns (d: Reply)
    requires var s := Run(Start(t0), frames, w, lib); s.phase.Running? && !s.closed
    requires NUL !in name
    requires target == 'S' && name != [] ==> LastParse(frames, name).Some?
    requires target == 'P' && name != [] ==> LastBind(frames, name).Some?
    ensures var s := Run(Start(t0), frames, w, lib);
            var s' := Process(s, F.FrameOf(F.Describe(target, name)), w, lib);
            var query := SubjectQuery(frames, target, name);
            && s'.trace == s.trace + (if target == 'S' then [ParameterDescription(SubjectTypes(frames, name))] else []) + [d]
            && s'.asked == s.asked + (if query == [] then [] else [Asked(query, [])])
            && (query == [] ==> d == NoData)
            && (query != [] ==> DescriptionTold(d, w(|s.asked|).rule, SubjectFormats(frames, target, name)))
  {
    hide Run, LastParse, LastBind, FieldsTold, Announced, Process, DescriptionTold, Mirrors;
    StateIsHistory(t0, frames, w, lib);
    var s := Run(Start(t0), frames, w, lib);
    DescribeAsks(s, frames, target, name, w, lib);
    var query, formats := SubjectQuery(frames, target, name), SubjectFormats(frames, target, name);
    var s1 := if target == 'S' then Send(s, ParameterDescription(SubjectTypes(frames, name))) else s;
    d := AnnouncedIsTold(s1, query, formats, w);
    assert s.trace + [] == s.trace;
  }

  lemma DescribeAsks(s: Session, frames: seq<Frame>, target: byte, name: Text, w: World, lib: Library)
    requires s.phase.Running? && !s.closed && Mirrors(s, frames) && NUL !in name
    requires target == 'S' && name != [] ==> LastParse(frames, name).Some?
    requires target == 'P' && name != [] ==> LastBind(frames, name).Some?
    ensures var s1 := if target == 'S' then Send(s, ParameterDescription(SubjectTypes(frames, name))) else s;
            Process(s, F.FrameOf(F.Describe(target, name)), w, lib)
              == Announced(s1, SubjectQuery(frames, target, name), SubjectFormats(frames, target, name), w)
  {
    hide LastParse, LastBind, Announced, StatementIn, Process, F.ReadDescribe, F.Payload;
    DescribeRead(s, target, name, w, lib);
    assert StatementIn(s.stmts, name) == LastParse(frames, name);
    assert PortalOption(s.portals, name) == LastBind(frames, name);
  }

  lemma DescribeRead(s: Session, target: byte, name: Text, w: World, lib: Library)
    requires s.phase.Running? && !s.closed && NUL !in name
    ensures var payload := F.Payload(F.Describe(target, name));
            && F.ReadDescribe(payload) == Got(F.Describe(target, name), [])
            && Process(s, F.FrameOf(F.Describe(target, name)), w, lib) == DescribedAs(s, payload, w, lib)
  {
    hide DescribedAs, F.ReadDescribe, F.Payload;
    DescribePayload(target, name);
  }

  lemma DescribePayload(target: byte, name: Text)
    requires NUL !in name
    ensures F.ReadDescribe(F.Payload(F.Describe(target, name))) == Got(F.Describe(target, name), [])
  {
    hide NullString;
    LastStringBack(name);
    assert ([target] + Terminated(name))[1..] == Terminated(name);
  }

  lemma AnnouncedIsTold(s: Session, query: Text, formats: seq<int>, w: World) returns (d: Reply)
    requires !s.closed
    ensures var s' := Announced(s, query, formats, w);
            && s'.trace == s.trace + [d] && s'.asked == s.asked + (if query == [] then [] else [Asked(query, [])])
            && (query == [] ==> d == NoData)
            && (query != [] ==> DescriptionTold(d, w(|s.asked|).rule, formats))
  {
    hide FieldsOf, FieldsTold;
    var rule := w(|s.asked|).rule;
    DescribedFields(rule, formats);
    d := if query == [] || rule.columns == [] then NoData else RowDescription(FieldsOf(rule, formats));
    assert s.asked + [] == s.asked;
  }

  // ---------- Errors of the protocol ----------

  /** The same error with its severity spelled out. */
  lemma ReportTold(report: ErrorReport, e: MockError)
    requires report.severity == [] && e.severity == "ERROR" && report.code == e.code && report.message == e.message
    requires report.detail == e.detail && report.hint == e.hint
    ensures ErrorTold(Report(report), e)
  {
    hide FieldText, ErrorFields;
    ReportReads(report);
  }

  /** The errors a client reads when it names what is not there. */
  lemma MissingNamesRead(name: Text, lib: Library)
    ensures ErrorTold(Report(NoStatement(name, lib)),
                      MockError("26000", "prepared statement " + lib.quote(name) + " does not exist", "ERROR", [], []))
    ensures ErrorTold(Report(NoCursor(name, lib)),
                      MockError("34000", "cursor " + lib.quote(name) + " does not exist", "ERROR", [], []))
  {
    hide ErrorTold, Report;
    ReportTold(NoStatement(name, lib),
               MockError("26000", "prepared statement " + lib.quote(name) + " does not exist", "ERROR", [], []));
    ReportTold(NoCursor(name, lib),
               MockError("34000", "cursor " + lib.quote(name) + " does not exist", "ERROR", [], []));
  }
}
