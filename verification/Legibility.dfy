/** When a client can read what it is sent: the strings and counts of a whole
    session fit the message formats if those of the rules do. */
module Legibility {
  import opened Text
  import opened Rules
  import opened Wire
  import opened Backend
  import opened Writer
  import opened Sessions
  import opened Conversations
  import opened Handlers
  import F = Frontend
  import Binary

  // ---------- What the rules must keep to ----------

  ghost predicate LegibleError(e: MockError) {
    NUL !in e.severity && NUL !in e.code && NUL !in e.message && NUL !in e.detail && NUL !in e.hint
  }

  /** A text whose length, and the length of whose encoding for the column, a
      DataRow can count. */
  ghost predicate LegibleCell(t: Text, oid: int, lib: Library) {
    FitsSigned(|t|, 32) && FitsSigned(|Binary.Encoded(oid, t, lib.encode)|, 32)
  }

  /** No NUL in the names, the tag and the error of a rule, fewer than 65536
      columns, 32-bit types, and cells whose lengths fit. */
  ghost predicate LegibleAnswer(a: Answered, lib: Library) {
    && NUL !in a.rule.tag && |a.rule.columns| < 0x1_0000
    && (forall i :: 0 <= i < |a.rule.columns| ==> NUL !in a.rule.columns[i])
    && (forall i :: 0 <= i < |a.rule.types| ==> FitsSigned(a.rule.types[i], 32))
    && (a.rule.error.Some? ==> LegibleError(a.rule.error.value))
    && forall r, c :: 0 <= r < |a.rule.rows| && 0 <= c < |a.rule.columns| && a.cell(r, c).Some? ==>
         LegibleCell(a.cell(r, c).value, ColumnOID(a.rule, c), lib)
  }

  /** The quoted form of a name has no NUL if the name has none. */
  ghost predicate LegibleQuotes(lib: Library) {
    forall name: Text :: NUL !in name ==> NUL !in lib.quote(name)
  }

  ghost predicate Legible(w: World, lib: Library) {
    LegibleQuotes(lib) && forall n :: LegibleAnswer(w(n), lib)
  }

  // ---------- What is sent then ----------

  ghost predicate AllPartsFit(ms: seq<Reply>) {
    forall i :: 0 <= i < |ms| ==> PartsFit(ms[i])
  }

  lemma OneMorePart(ms: seq<Reply>, m: Reply)
    requires AllPartsFit(ms) && PartsFit(m)
    ensures AllPartsFit(ms + [m])
  {
    hide PartsFit;
  }

  lemma MoreParts(ms: seq<Reply>, more: seq<Reply>)
    requires AllPartsFit(ms) && AllPartsFit(more)
    ensures AllPartsFit(ms + more)
  {
    hide PartsFit;
  }

  /** The statements a client prepared have types that fit a description. */
  ghost predicate StatementsFit(stmts: map<Text, Statement>) {
    forall k :: k in stmts ==> |stmts[k].paramOIDs| < 0x1_0000 && AllFit(stmts[k].paramOIDs, 32)
  }

  ghost predicate Told(s: Session) {
    AllPartsFit(s.trace) && StatementsFit(s.stmts)
  }

  lemma SendTold(s: Session, m: Reply)
    requires Told(s) && PartsFit(m)
    ensures Told(Send(s, m)) && Send(s, m).stmts == s.stmts && Send(s, m).asked == s.asked
  {
    hide PartsFit, StatementsFit;
    if !s.closed {
      OneMorePart(s.trace, m);
    }
  }

  lemma ReadyTold(s: Session)
    requires Told(s)
    ensures Told(Ready(s))
  {
    SendTold(s, ReadyForQuery(s.status));
  }

  lemma ReportFits(e: ErrorReport)
    requires NUL !in e.severity && NUL !in e.code && NUL !in e.message && NUL !in e.detail && NUL !in e.hint
    ensures PartsFit(Report(e))
  {
    DefaultsHaveNoNul(e);
    var es := ErrorFields(e);
    forall i | 0 <= i < |es|
      ensures es[i].kind != NUL && NUL !in es[i].value
    {
    }
  }

  lemma DefaultsHaveNoNul(e: ErrorReport)
    requires NUL !in e.severity && NUL !in e.code
    ensures NUL !in Severity(e) && NUL !in Code(e)
  {
  }

  lemma ReadReportFits(code: Text, e: ReadError)
    requires NUL !in code
    ensures PartsFit(Report(ReadReport(code, e)))
  {
    hide Report;
    ErrorTextHasNoNul(e);
    ReportFits(ReadReport(code, e));
  }

  lemma ErrorTextHasNoNul(e: ReadError)
    ensures NUL !in ErrorText(e)
  {
  }

  lemma CodesHaveNoNul()
    ensures NUL !in SYNTAX && NUL !in PARAMETER && NUL !in NO_STATEMENT && NUL !in NO_CURSOR
  {
  }

  lemma MissingFits(name: Text, lib: Library)
    requires NUL !in name && LegibleQuotes(lib)
    ensures PartsFit(Report(NoStatement(name, lib))) && PartsFit(Report(NoCursor(name, lib)))
  {
    hide Report, NoStatement, NoCursor, PartsFit;
    assert NUL !in lib.quote(name);
    NoStatementHasNoNul(name, lib);
    NoCursorHasNoNul(name, lib);
    ReportFits(NoStatement(name, lib));
    ReportFits(NoCursor(name, lib));
  }

  lemma NoStatementHasNoNul(name: Text, lib: Library)
    requires NUL !in lib.quote(name)
    ensures var e := NoStatement(name, lib);
            NUL !in e.severity && NUL !in e.code && NUL !in e.message && NUL !in e.detail && NUL !in e.hint
  {
  }

  lemma NoCursorHasNoNul(name: Text, lib: Library)
    requires NUL !in lib.quote(name)
    ensures var e := NoCursor(name, lib);
            NUL !in e.severity && NUL !in e.code && NUL !in e.message && NUL !in e.detail && NUL !in e.hint
  {
  }

  // ---------- Responses ----------

  lemma DescriptionFits(a: Answered, formats: seq<int>, lib: Library)
    requires LegibleAnswer(a, lib)
    ensures PartsFit(RowDescription(FieldsOf(a.rule, formats)))
  {
    hide LegibleCell;
    var fields := FieldsOf(a.rule, formats);
    forall i | 0 <= i < |fields|
      ensures FieldFits(fields[i])
    {
    }
  }

  lemma {:induction false} CellsFit(a: Answered, formats: seq<int>, lib: Library, r: nat, n: nat)
    requires LegibleAnswer(a, lib) && r < |a.rule.rows| && n <= |a.rule.columns|
    ensures var cs := Cells(a, formats, lib, r, n); cs.Some? ==> |cs.value| == n && ValuesFit(cs.value)
  {
    hide LegibleAnswer;
    if n > 0 {
      CellsFit(a, formats, lib, r, n - 1);
      CellFits(a, formats, lib, r, n - 1);
    }
  }

  lemma CellFits(a: Answered, formats: seq<int>, lib: Library, r: nat, c: nat)
    requires LegibleAnswer(a, lib) && r < |a.rule.rows| && c < |a.rule.columns|
    ensures var v := CellValue(a, formats, lib, r, c); v.Some? && v.value.Some? ==> FitsSigned(|v.value.value|, 32)
  {
    hide Binary.Encoded, ColumnOID;
    assert a.cell(r, c).Some? ==> LegibleCell(a.cell(r, c).value, ColumnOID(a.rule, c), lib);
  }

  lemma {:induction false} RowsFit(a: Answered, formats: seq<int>, lib: Library, n: nat)
    requires LegibleAnswer(a, lib) && n <= |a.rule.rows|
    ensures AllPartsFit(RowsUpTo(a, formats, lib, n).sent)
  {
    hide Cells, LegibleCell, ValuesFit;
    if n > 0 {
      RowsFit(a, formats, lib, n - 1);
      CellsFit(a, formats, lib, n - 1, |a.rule.columns|);
    }
  }

  lemma TagFits(rule: Rule)
    requires NUL !in rule.tag
    ensures PartsFit(CommandComplete(TagOf(rule)))
  {
    ItoaValue(|rule.rows|);
  }

  lemma RespondTold(s: Session, a: Answered, formats: seq<int>, lib: Library)
    requires Told(s) && LegibleAnswer(a, lib)
    ensures Told(Respond(s, a, formats, lib))
  {
    hide RowsUpTo, FieldsOf, TagOf, Report, PartsFit, Told, LegibleCell;
    if a.rule.dropConnection {
      ClosedTold(s);
    } else if Fails(a.rule, a.hits) {
      ReportFits(RuleReport(a.rule.error.value));
      SendTold(s, Report(RuleReport(a.rule.error.value)));
    } else {
      DescribedTold(s, a, formats, lib);
      TagFits(a.rule);
      SendTold(Described(s, a, formats, lib), CommandComplete(TagOf(a.rule)));
    }
  }

  lemma ClosedTold(s: Session)
    requires Told(s)
    ensures Told(s.(closed := true))
  {
  }

  lemma DescribedTold(s: Session, a: Answered, formats: seq<int>, lib: Library)
    requires Told(s) && LegibleAnswer(a, lib)
    ensures Told(Described(s, a, formats, lib))
  {
    hide RowsUpTo, FieldsOf, PartsFit, StatementsFit, LegibleAnswer;
    var rows := RowsUpTo(a, formats, lib, |a.rule.rows|);
    DescriptionFits(a, formats, lib);
    SendTold(s, RowDescription(FieldsOf(a.rule, formats)));
    RowsFit(a, formats, lib, |a.rule.rows|);
    MoreParts(Send(s, RowDescription(FieldsOf(a.rule, formats))).trace, rows.sent);
  }

  // ---------- Steps ----------

  lemma AskTold(s: Session, query: Text, params: Params)
    requires Told(s)
    ensures Told(Ask(s, query, params))
  {
  }

  lemma SimpleTold(s: Session, payload: Text, w: World, lib: Library)
    requires Told(s) && Legible(w, lib)
    ensures Told(Simple(s, payload, w, lib))
  {
    hide Respond, F.ReadQuery, TrimSpace, TxAfter, PartsFit, Ready, LegibleAnswer, LegibleQuotes;
    var s0 := s.(queries := s.queries + 1);
    var query := TrimSpace(F.ReadQuery(payload));
    if IsEmptyQuery(query) {
      NothingToFit();
      SendTold(s0, EmptyQueryResponse);
      ReadyTold(Send(s0, EmptyQueryResponse));
    } else {
      var s1 := Ask(s0.(status := TxAfter(query, s.status)), query, []);
      assert LegibleAnswer(w(|s.asked|), lib);
      RespondTold(s1, w(|s.asked|), [], lib);
      ReadyTold(Respond(s1, w(|s.asked|), [], lib));
    }
  }

  lemma NothingToFit()
    ensures PartsFit(EmptyQueryResponse) && PartsFit(NoData)
    ensures PartsFit(ParseComplete) && PartsFit(BindComplete) && PartsFit(CloseComplete)
  {
  }

  lemma ParsedTold(s: Session, payload: Text)
    requires Told(s)
    ensures Told(Parsed(s, payload))
  {
    hide F.ReadParse, PartsFit, Report, ReadReport, AllPartsFit;
    NothingToFit();
    CodesHaveNoNul();
    match F.ReadParse(payload)
    case Got(m, _) =>
      OIDsFit(payload);
      SendTold(s.(stmts := s.stmts[m.statement := Statement(m.query, m.paramOIDs)]), ParseComplete);
    case Failed(e) =>
      ReadReportFits(SYNTAX, e);
      SendTold(s, Report(ReadReport(SYNTAX, e)));
    case Panicked =>
  }

  lemma OIDsFit(payload: Text)
    ensures var r := F.ReadParse(payload); r.Got? ==> |r.value.paramOIDs| < 0x1_0000 && AllFit(r.value.paramOIDs, 32)
  {
    hide NullString, Int32s;
    var a := NullString(payload);
    if a.Got? {
      var b := NullString(a.rest);
      if b.Got? {
        NumberFits(b.rest);
        var n := Int16(b.rest);
        if n.Got? && n.value > 0 {
          OidsReadFit(n.rest, n.value);
        }
      }
    }
  }

  lemma NamesRead(payload: Text)
    ensures var r := F.ReadBind(payload); r.Got? ==> NUL !in r.value.statement
    ensures var r := F.ReadExecute(payload); r.Got? ==> NUL !in r.value.portal
    ensures var r := F.ReadDescribe(payload); r.Got? ==> NUL !in r.value.name
  {
    hide NullString, Int16, Int16s, Int32, Parameters, F.ResultFormats;
    forall s: Text
      ensures NullString(s).Got? ==> NUL !in NullString(s).value
    {
      StringFits(s);
    }
  }

  lemma BoundTold(s: Session, payload: Text, lib: Library)
    requires Told(s) && LegibleQuotes(lib)
    ensures Told(Bound(s, payload, lib))
  {
    hide F.ReadBind, PartsFit, Report, ReadReport, NoStatement, AllPartsFit, StatementsFit, LegibleQuotes;
    NothingToFit();
    CodesHaveNoNul();
    NamesRead(payload);
    match F.ReadBind(payload)
    case Got(m, _) =>
      MissingFits(m.statement, lib);
      SendTold(s, Report(NoStatement(m.statement, lib)));
      var portal := Portal(StatementIn(s.stmts, m.statement), m.params, m.resultFormats);
      SendTold(s.(portals := s.portals[m.portal := portal]), BindComplete);
    case Failed(e) =>
      ReadReportFits(PARAMETER, e);
      SendTold(s, Report(ReadReport(PARAMETER, e)));
    case Panicked =>
  }

  lemma ExecutedTold(s: Session, payload: Text, w: World, lib: Library)
    requires Told(s) && Legible(w, lib)
    ensures Told(Executed(s, payload, w, lib))
  {
    hide F.ReadExecute, PartsFit, Report, ReadReport, NoCursor, AllPartsFit, StatementsFit, LegibleQuotes;
    hide LegibleAnswer, Respond;
    CodesHaveNoNul();
    NamesRead(payload);
    var s0 := s.(queries := s.queries + 1);
    match F.ReadExecute(payload)
    case Got(m, _) =>
      MissingFits(m.portal, lib);
      SendTold(s0, Report(NoCursor(m.portal, lib)));
      var portal := PortalIn(s.portals, m.portal);
      assert LegibleAnswer(w(|s.asked|), lib);
      RespondTold(Ask(s0, QueryOf(portal.stmt), portal.params), w(|s.asked|), portal.formats, lib);
    case Failed(e) =>
      ReadReportFits(SYNTAX, e);
      SendTold(s0, Report(ReadReport(SYNTAX, e)));
    case Panicked =>
  }

  lemma AnnouncedTold(s: Session, query: Text, formats: seq<int>, w: World, lib: Library)
    requires Told(s) && Legible(w, lib)
    ensures Told(Announced(s, query, formats, w))
  {
    hide PartsFit, FieldsOf, LegibleQuotes, LegibleAnswer, Told;
    NothingToFit();
    assert LegibleAnswer(w(|s.asked|), lib);
    DescriptionFits(w(|s.asked|), formats, lib);
    AskTold(s, query, []);
    SendTold(s, NoData);
    SendTold(Ask(s, query, []), NoData);
    SendTold(Ask(s, query, []), RowDescription(FieldsOf(w(|s.asked|).rule, formats)));
  }

  lemma DescribedAsTold(s: Session, payload: Text, w: World, lib: Library)
    requires Told(s) && Legible(w, lib)
    ensures Told(DescribedAs(s, payload, w, lib))
  {
    hide F.ReadDescribe, PartsFit, Report, ReadReport, NoStatement, NoCursor, AllPartsFit, LegibleQuotes;
    hide LegibleAnswer, Announced;
    CodesHaveNoNul();
    NamesRead(payload);
    match F.ReadDescribe(payload)
    case Got(m, _) =>
      MissingFits(m.name, lib);
      SendTold(s, Report(NoStatement(m.name, lib)));
      SendTold(s, Report(NoCursor(m.name, lib)));
      var stmt := StatementIn(s.stmts, m.name);
      var t := ParameterDescription(if stmt.Some? then stmt.value.paramOIDs else []);
      TypesFit(s, m.name);
      SendTold(s, t);
      AnnouncedTold(Send(s, t), QueryOf(stmt), [], w, lib);
      var portal := PortalIn(s.portals, m.name);
      AnnouncedTold(s, QueryOf(portal.stmt), portal.formats, w, lib);
      AnnouncedTold(s, [], [], w, lib);
    case Failed(e) =>
      ReadReportFits(SYNTAX, e);
      SendTold(s, Report(ReadReport(SYNTAX, e)));
    case Panicked =>
  }

  lemma TypesFit(s: Session, name: Text)
    requires StatementsFit(s.stmts)
    ensures var stmt := StatementIn(s.stmts, name);
            PartsFit(ParameterDescription(if stmt.Some? then stmt.value.paramOIDs else []))
  {
  }

  lemma ForgottenTold(s: Session, payload: Text)
    requires Told(s)
    ensures Told(Forgotten(s, payload))
  {
    hide F.ReadClose, PartsFit, AllPartsFit;
    NothingToFit();
    match F.ReadClose(payload)
    case Got(m, _) =>
      SendTold(s.(stmts := s.stmts - {m.name}), CloseComplete);
      SendTold(s.(portals := s.portals - {m.name}), CloseComplete);
      SendTold(s, CloseComplete);
    case _ => SendTold(s, CloseComplete);
  }

  lemma StepTold(s: Session, f: Frame, w: World, lib: Library)
    requires Told(s) && Legible(w, lib)
    ensures Told(Process(s, f, w, lib))
  {
    hide Simple, Executed, DescribedAs, Parsed, Bound, Forgotten, Ready, PartsFit, LegibleQuotes, LegibleAnswer;
    match f.kind
    case 'Q' => SimpleTold(s, f.payload, w, lib);
    case 'E' => ExecutedTold(s, f.payload, w, lib);
    case 'D' => DescribedAsTold(s, f.payload, w, lib);
    case 'P' => ParsedTold(s, f.payload);
    case 'B' => BoundTold(s, f.payload, lib);
    case 'C' => ForgottenTold(s, f.payload);
    case 'X' =>
    case 'H' =>
    case _ => ReadyTold(s);
  }

  lemma {:induction false} RunTold(s: Session, frames: seq<Frame>, w: World, lib: Library)
    requires Told(s) && Legible(w, lib)
    ensures Told(Run(s, frames, w, lib))
    decreases |frames|
  {
    hide Process, Told, Legible;
    if frames != [] && s.phase.Running? {
      StepTold(s, frames[0], w, lib);
      RunTold(Process(s, frames[0], w, lib), frames[1..], w, lib);
    }
  }

  // ---------- A whole session ----------

  lemma GreetingFits(greeting: seq<Reply>, order: seq<Text>)
    requires Greets(greeting, order)
    ensures AllPartsFit(greeting)
  {
    hide StandardParameters;
    StandardNames();
    StandardValues();
    var table := StandardParameters();
    forall i | 0 <= i < |order|
      ensures PartsFit(ParameterStatus(order[i], table[order[i]]))
    {
      assert order[i] in order;
    }
    MoreParts([AuthOk], Statuses(table, order));
    MoreParts([AuthOk] + Statuses(table, order), [BackendKeyData(PID, SECRET), ReadyForQuery(IDLE)]);
  }

  lemma StandardNames()
    ensures forall k :: k in StandardParameters() ==> NUL !in k
  {
  }

  lemma StandardValues()
    ensures forall k :: k in StandardParameters() ==> NUL !in StandardParameters()[k]
  {
  }

  /** If the rules and the quoting keep to it, every message of a session fits its
      format, whatever the client sends, as long as its length can be counted. */
  lemma LegibleSessionFits(greeting: seq<Reply>, order: seq<Text>, frames: seq<Frame>, w: World, lib: Library)
    requires Greets(greeting, order) && Legible(w, lib)
    ensures var trace := Run(Start(greeting), frames, w, lib).trace; AllFitReplies(trace) <==> AllCountable(trace)
  {
    hide Run, Greets, Legible, PartsFit, Countable;
    GreetingFits(greeting, order);
    RunTold(Start(greeting), frames, w, lib);
  }
}
