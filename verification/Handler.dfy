/** The connection handler as the server runs it: handshake, loop and one method
    for each message, each proved against the step of the session it takes. */
module Handlers {
  import opened Text
  import opened Rules
  import opened Wire
  import opened Backend
  import opened Writer
  import opened Reader
  import opened Sessions
  import F = Frontend
  import Binary

  // ---------- The greeting ----------

  const PID := 1000
  const SECRET := 4242

  function StandardParameters(): map<Text, Text> {
    map[
      "server_version" := "16.2 (PGWire-Mock)",
      "server_encoding" := "UTF8",
      "client_encoding" := "UTF8",
      "application_name" := "pgwire-mock",
      "is_superuser" := "on",
      "session_authorization" := "postgres",
      "standard_conforming_strings" := "on",
      "DateStyle" := "ISO, MDY",
      "IntervalStyle" := "postgres",
      "TimeZone" := "UTC",
      "integer_datetimes" := "on"
    ]
  }

  function Statuses(table: map<Text, Text>, order: seq<Text>): seq<Reply>
    requires forall i :: 0 <= i < |order| ==> order[i] in table
  {
    seq(|order|, i requires 0 <= i < |order| => ParameterStatus(order[i], table[order[i]]))
  }

  /** Every key of the table but those left, once, in whatever order the map is
      walked. */
  ghost predicate Lists(table: map<Text, Text>, left: set<Text>, order: seq<Text>) {
    && (forall i, j :: 0 <= i < j < |order| ==> order[i] != order[j])
    && (forall k :: k in order <==> k in table && k !in left)
  }

  lemma ListsNone(table: map<Text, Text>)
    ensures Lists(table, table.Keys, [])
  {
  }

  lemma ListsOneMore(table: map<Text, Text>, left: set<Text>, order: seq<Text>, k: Text)
    requires Lists(table, left, order) && left <= table.Keys && k in left
    ensures Lists(table, left - {k}, order + [k])
    ensures Statuses(table, order + [k]) == Statuses(table, order) + [ParameterStatus(k, table[k])]
  {
  }

  ghost predicate Greets(trace: seq<Reply>, order: seq<Text>) {
    && Lists(StandardParameters(), {}, order)
    && trace == [AuthOk] + Statuses(StandardParameters(), order) + [BackendKeyData(PID, SECRET), ReadyForQuery(IDLE)]
  }

  /** How the input opens: a start-up packet, perhaps after a request for
      encryption that is refused; the flag says whether there was one. */
  function Opening(input: Text): (bool, F.Startup) {
    match F.ReadStartup(input)
    case SSL(rest) => (true, F.ReadStartup(rest))
    case r => (false, r)
  }

  /** A session that is still going when its input stops: at a length beyond
      the signed range the server panics. */
  function Halted(s: Session, ending: Arrival): Session {
    if s.phase.Running? && ending.Oversized? then s.(phase := Crashed) else s
  }

  /** The session of a greeted client, from the bytes it sends afterwards. */
  function AfterGreeting(greeting: seq<Reply>, input: Text, w: World, lib: Library): Session {
    Halted(Run(Start(greeting), F.Frames(input), w, lib), F.Ending(input))
  }

  class ConnHandler {
    const conn: Conn
    const world: World
    const lib: Library
    var txStatus: byte
    var stmts: map<Text, Statement>
    var portals: map<Text, Portal>
    var phase: Phase
    var queryCount: nat
    var asked: seq<Asked>

    constructor (conn: Conn, world: World, lib: Library)
      requires conn.Valid()
      ensures Valid() && this.conn == conn && this.world == world && this.lib == lib
      ensures State() == Start(conn.trace).(closed := conn.closed)
    {
      this.conn, this.world, this.lib := conn, world, lib;
      txStatus, stmts, portals, phase := IDLE, map[], map[], Running;
      queryCount, asked := 0, [];
    }

    ghost predicate Valid()
      reads conn
    {
      conn.Valid()
    }

    /** The session this handler stands for. */
    ghost function State(): Session
      reads this, conn
    {
      Session(txStatus, stmts, portals, phase, conn.closed, conn.trace, queryCount, asked)
    }

    // ---------- The response of a rule ----------

    method Fields(rule: Rule, formats: seq<int>) returns (fields: seq<Field>)
      ensures fields == FieldsOf(rule, formats)
    {
      hide TypeSize, Int16Of, FieldsOf;
      fields := [];
      for i := 0 to |rule.columns|
        invariant fields == FieldsOf(rule, formats)[..i]
      {
        var oid := TEXT_OID;
        if i < |rule.types| && rule.types[i] != 0 {
          oid := rule.types[i];
        }
        var fmtCode := 0;
        if |formats| == 1 && formats[0] == BINARY {
          fmtCode := BINARY;
        } else if i < |formats| && formats[i] == BINARY {
          fmtCode := BINARY;
        }
        var field := Field(rule.columns[i], 0, Int16Of(i + 1), oid, TypeSize(oid), -1, fmtCode);
        assert field == FieldOf(rule, formats, i);
        FieldsUpTo(rule, formats, i);
        fields := fields + [field];
      }
      assert FieldsOf(rule, formats)[..|rule.columns|] == FieldsOf(rule, formats);
    }

    /** The values of one row, or None when a cell panics. */
    method RowValues(a: Answered, formats: seq<int>, fields: seq<Field>, r: nat) returns (values: Option<Params>)
      requires r < |a.rule.rows| && fields == FieldsOf(a.rule, formats)
      ensures values == Cells(a, formats, lib, r, |a.rule.columns|)
    {
      hide Binary.Encoded, TypeSize, Int16Of;
      var row := a.rule.rows[r];
      var rowBytes: Params := [];
      for c := 0 to |a.rule.columns|
        invariant Cells(a, formats, lib, r, c) == Some(rowBytes)
      {
        var cell: Option<Text> := None;
        if c < |row| && row[c] != NULL {
          var rendered := a.cell(r, c);
          if rendered.None? {
            StuckCells(a, formats, lib, r, c + 1, |a.rule.columns|);
            return None;
          }
          var isBinary := (|formats| == 1 && formats[0] == BINARY) || (c < |formats| && formats[c] == BINARY);
          if isBinary {
            var encoded := Binary.EncodeBinaryValue(fields[c].typeOID, rendered.value, lib.encode);
            cell := Some(encoded);
          } else {
            cell := rendered;
          }
        }
        rowBytes := rowBytes + [cell];
      }
      values := Some(rowBytes);
    }

    method SendDataRow(values: Params)
      requires Valid()
      modifies conn`out, conn`trace
      ensures Valid() && State() == Send(old(State()), DataRow(values))
    {
      WriteDataRow(conn, values);
    }

    method SendRows(a: Answered, formats: seq<int>, fields: seq<Field>) returns (whole: bool)
      requires Valid() && fields == FieldsOf(a.rule, formats)
      modifies conn`out, conn`trace
      ensures Valid() && whole == RowsUpTo(a, formats, lib, |a.rule.rows|).whole
      ensures State() == SendAll(old(State()), RowsUpTo(a, formats, lib, |a.rule.rows|).sent)
    {
      hide Cells, FieldOf, FieldsOf, SendAll;
      ghost var s := State();
      SendNothing(s);
      for r := 0 to |a.rule.rows|
        invariant Valid() && RowsUpTo(a, formats, lib, r).whole
        invariant State() == SendAll(s, RowsUpTo(a, formats, lib, r).sent)
      {
        var values := RowValues(a, formats, fields, r);
        if values.None? {
          StuckRows(a, formats, lib, r + 1, |a.rule.rows|);
          return false;
        }
        SendOneMore(s, RowsUpTo(a, formats, lib, r).sent, DataRow(values.value));
        SendDataRow(values.value);
      }
      whole := true;
    }

    method ExecuteRuleResponse(a: Answered, formats: seq<int>)
      requires Valid() && phase.Running?
      modifies this`phase, conn`out, conn`trace, conn`closed
      ensures Valid() && State() == Respond(old(State()), a, formats, lib)
    {
      hide RowsUpTo, FieldOf, Report, TagOf;
      if a.rule.dropConnection {
        conn.Close();
        return;
      }
      if a.rule.error.Some? {
        var shouldFail := true;
        if a.rule.failAfterN > 0 && a.hits <= a.rule.failAfterN {
          shouldFail := false;
        }
        if shouldFail {
          WriteErrorResponse(conn, RuleReport(a.rule.error.value));
          return;
        }
      }
      if a.rule.columns != [] {
        var fields := Fields(a.rule, formats);
        WriteRowDescription(conn, fields);
        var whole := SendRows(a, formats, fields);
        if !whole {
          phase := Crashed;
          return;
        }
      }
      WriteCommandComplete(conn, TagOf(a.rule));
    }

    /** The n-th match of the session is answered by the world. */
    method Match(query: Text, params: Params) returns (a: Answered)
      modifies this`asked
      ensures State() == Ask(old(State()), query, params) && a == world(|old(asked)|)
    {
      a := world(|asked|);
      asked := asked + [Asked(query, params)];
    }

    // ---------- The messages ----------

    method Ready()
      requires Valid()
      modifies conn`out, conn`trace
      ensures Valid() && State() == Sessions.Ready(old(State()))
    {
      if phase.Running? {
        WriteReadyForQuery(conn, txStatus);
      }
    }

    method TrackTransaction(query: Text)
      modifies this`txStatus
      ensures State() == old(State()).(status := TxAfter(query, old(txStatus)))
    {
      hide ToUpper, Matcher.NormalizeSQL;
      var norm := ToUpper(Matcher.NormalizeSQL(query));
      if norm == BEGIN || norm == START {
        txStatus := IN_BLOCK;
      } else if norm == COMMIT || norm == ROLLBACK {
        txStatus := IDLE;
      }
    }

    method HandleSimpleQuery(payload: Text)
      requires Valid() && phase.Running?
      modifies this, conn`out, conn`trace, conn`closed
      ensures Valid() && State() == Simple(old(State()), payload, world, lib)
    {
      hide Respond, TrimSpace, F.ReadQuery, TxAfter, Sessions.Ready, SendAll;
      queryCount := queryCount + 1;
      var query := TrimSpace(F.ReadQuery(payload));
      if IsEmptyQuery(query) {
        SendEmpty(EmptyQueryResponse);
      } else {
        RunQuery(query);
      }
      Ready();
    }

    method SendEmpty(m: Reply)
      requires Valid() && m.EmptyQueryResponse?
      modifies conn`out, conn`trace
      ensures Valid() && State() == Send(old(State()), m)
    {
      WriteEmpty(conn, m);
    }

    method RunQuery(query: Text)
      requires Valid() && phase.Running?
      modifies this, conn`out, conn`trace, conn`closed
      ensures Valid()
      ensures var s := old(State()).(status := TxAfter(query, old(txStatus)));
              State() == Respond(Ask(s, query, []), world(|s.asked|), [], lib)
    {
      hide Respond, TxAfter;
      TrackTransaction(query);
      var a := Match(query, []);
      ExecuteRuleResponse(a, []);
    }

    method HandleParse(payload: Text)
      requires Valid() && phase.Running?
      modifies this, conn`out, conn`trace, conn`closed
      ensures Valid() && State() == Parsed(old(State()), payload)
    {
      hide F.ReadParse, ReadReport, Report;
      var r := ParseParse(payload);
      match r
      case Error(e) => WriteErrorResponse(conn, ReadReport(SYNTAX, e));
      case Panic => phase := Crashed;
      case Value(m) =>
        stmts := stmts[m.statement := Statement(m.query, m.paramOIDs)];
        WriteEmpty(conn, ParseComplete);
    }

    method HandleBind(payload: Text)
      requires Valid() && phase.Running?
      modifies this, conn`out, conn`trace, conn`closed
      ensures Valid() && State() == Bound(old(State()), payload, lib)
    {
      hide F.ReadBind, ReadReport, NoStatement, Report;
      var r := ParseBind(payload);
      match r
      case Error(e) => WriteErrorResponse(conn, ReadReport(PARAMETER, e));
      case Panic => phase := Crashed;
      case Value(m) =>
        var stmt: Option<Statement> := None;
        if m.statement in stmts {
          stmt := Some(stmts[m.statement]);
        } else if m.statement != [] {
          WriteErrorResponse(conn, NoStatement(m.statement, lib));
          return;
        }
        portals := portals[m.portal := Portal(stmt, m.params, m.resultFormats)];
        WriteEmpty(conn, BindComplete);
    }

    method Announce(query: Text, formats: seq<int>)
      requires Valid() && phase.Running?
      modifies this`asked, conn`out, conn`trace, conn`closed
      ensures Valid() && State() == Announced(old(State()), query, formats, world)
    {
      hide FieldsOf;
      if query == [] {
        WriteEmpty(conn, NoData);
        return;
      }
      var a := Match(query, []);
      if a.rule.columns == [] {
        WriteEmpty(conn, NoData);
        return;
      }
      var fields := Fields(a.rule, formats);
      WriteRowDescription(conn, fields);
    }

    method DescribeStatement(name: Text)
      requires Valid() && phase.Running?
      modifies this`asked, conn`out, conn`trace, conn`closed
      ensures Valid()
      ensures var s, stmt := old(State()), StatementIn(old(stmts), name);
              State() == if stmt.None? && name != [] then Send(s, Report(NoStatement(name, lib)))
                         else Announced(Send(s, ParameterDescription(if stmt.Some? then stmt.value.paramOIDs else [])),
                                        QueryOf(stmt), [], world)
    {
      hide NoStatement, Report, Announced;
      var query: Text := [];
      var oids: seq<int> := [];
      if name in stmts {
        query, oids := stmts[name].query, stmts[name].paramOIDs;
      } else if name != [] {
        WriteErrorResponse(conn, NoStatement(name, lib));
        return;
      }
      WriteParameterDescription(conn, oids);
      Announce(query, []);
    }

    method DescribePortal(name: Text)
      requires Valid() && phase.Running?
      modifies this`asked, conn`out, conn`trace, conn`closed
      ensures Valid()
      ensures var s, portal := old(State()), PortalIn(old(portals), name);
              State() == if name !in old(portals) && name != [] then Send(s, Report(NoCursor(name, lib)))
                         else Announced(s, QueryOf(portal.stmt), portal.formats, world)
    {
      hide NoCursor, Report, Announced;
      if name in portals {
        Announce(QueryOf(portals[name].stmt), portals[name].formats);
      } else if name != [] {
        WriteErrorResponse(conn, NoCursor(name, lib));
      } else {
        Announce([], []);
      }
    }

    method HandleDescribe(payload: Text)
      requires Valid() && phase.Running?
      modifies this, conn`out, conn`trace, conn`closed
      ensures Valid() && State() == DescribedAs(old(State()), payload, world, lib)
    {
      hide F.ReadDescribe, ReadReport, NoStatement, NoCursor, Report, Announced;
      var r := ParseDescribe(payload);
      match r
      case Error(e) => WriteErrorResponse(conn, ReadReport(SYNTAX, e));
      case Panic => phase := Crashed;
      case Value(m) =>
        if m.target == 'S' {
          DescribeStatement(m.name);
        } else if m.target == 'P' {
          DescribePortal(m.name);
        } else {
          Announce([], []);
        }
    }

    method HandleExecute(payload: Text)
      requires Valid() && phase.Running?
      modifies this, conn`out, conn`trace, conn`closed
      ensures Valid() && State() == Executed(old(State()), payload, world, lib)
    {
      hide F.ReadExecute, ReadReport, NoCursor, Report, Respond;
      queryCount := queryCount + 1;
      var r := ParseExecute(payload);
      match r
      case Error(e) => WriteErrorResponse(conn, ReadReport(SYNTAX, e));
      case Panic => phase := Crashed;
      case Value(m) =>
        var portal := NO_PORTAL;
        if m.portal in portals {
          portal := portals[m.portal];
        } else if m.portal != [] {
          WriteErrorResponse(conn, NoCursor(m.portal, lib));
          return;
        }
        var a := Match(QueryOf(portal.stmt), portal.params);
        ExecuteRuleResponse(a, portal.formats);
    }

    method HandleClose(payload: Text)
      requires Valid()
      modifies this, conn`out, conn`trace, conn`closed
      ensures Valid() && State() == Forgotten(old(State()), payload)
    {
      hide F.ReadClose;
      var r := ParseClose(payload);
      if r.Value? {
        if r.value.target == 'S' {
          stmts := stmts - {r.value.name};
        } else if r.value.target == 'P' {
          portals := portals - {r.value.name};
        }
      }
      WriteEmpty(conn, CloseComplete);
    }

    method ProcessMessage(f: Frame)
      requires Valid() && phase.Running?
      modifies this, conn`out, conn`trace, conn`closed
      ensures Valid() && State() == Process(old(State()), f, world, lib)
    {
      hide Simple, Parsed, Bound, DescribedAs, Executed, Forgotten;
      match f.kind
      case 'X' => phase := Ended;
      case 'Q' => HandleSimpleQuery(f.payload);
      case 'P' => HandleParse(f.payload);
      case 'B' => HandleBind(f.payload);
      case 'D' => HandleDescribe(f.payload);
      case 'E' => HandleExecute(f.payload);
      case 'C' => HandleClose(f.payload);
      case 'H' =>
      case _ => Ready();
    }

    // ---------- The connection ----------

    method Greet() returns (ghost order: seq<Text>)
      requires Valid() && !conn.closed && conn.trace == []
      requires txStatus == IDLE
      modifies conn`out, conn`trace
      ensures Valid() && !conn.closed
      ensures Greets(conn.trace, order)
    {
      hide StandardParameters;
      WriteAuthOK(conn);
      order := WriteParameterStatuses(StandardParameters());
      WriteBackendKeyData(conn, PID, SECRET);
      WriteReadyForQuery(conn, txStatus);
    }

    /** One message for each entry, in an order the map chooses. */
    method WriteParameterStatuses(table: map<Text, Text>) returns (ghost order: seq<Text>)
      requires Valid() && !conn.closed
      modifies conn`out, conn`trace
      ensures Valid() && Lists(table, {}, order)
      ensures conn.trace == old(conn.trace) + Statuses(table, order)
    {
      hide Lists;
      order := [];
      var left := table.Keys;
      assert Lists(table, left, order) by {
        ListsNone(table);
      }
      while left != {}
        invariant Valid() && left <= table.Keys && Lists(table, left, order)
        invariant forall i :: 0 <= i < |order| ==> order[i] in table
        invariant conn.trace == old(conn.trace) + Statuses(table, order)
      {
        var k :| k in left;
        WriteParameterStatus(conn, k, table[k]);
        ListsOneMore(table, left, order, k);
        left := left - {k};
        order := order + [k];
      }
    }

    /** Reads the start-up packet, refusing encryption once, and greets. */
    method HandleHandshake(input: Text) returns (ok: bool, rest: Text, ghost order: seq<Text>)
      requires Valid() && !conn.closed && conn.trace == [] && conn.preamble == [] && txStatus == IDLE
      modifies conn
      ensures Valid() && !conn.closed
      ensures conn.preamble == if Opening(input).0 then ['N'] else []
      ensures ok <==> Opening(input).1.Ready?
      ensures ok ==> rest == Opening(input).1.rest && Greets(conn.trace, order)
      ensures !ok ==> conn.trace == []
    {
      hide F.ReadStartup, Greets;
      order, rest := [], [];
      var r := ReadStartupOrSSL(input);
      if r.SSL? {
        conn.WriteSSLRefusal();
        r := ReadStartupOrSSL(r.rest);
      }
      ok := r.Ready?;
      if ok {
        rest := r.rest;
        order := Greet();
      }
    }

    /** The loop. Every turn leaves fewer bytes to read. A length beyond the
        signed range makes a slice of negative length, and that panics. */
    method Loop(input: Text)
      requires Valid() && phase.Running?
      modifies this, conn`out, conn`trace, conn`closed
      ensures Valid() && State() == Halted(Run(old(State()), F.Frames(input), world, lib), F.Ending(input))
    {
      hide Process, NextFrame;
      var rest := input;
      while phase.Running?
        invariant Valid()
        invariant Halted(Run(old(State()), F.Frames(input), world, lib), F.Ending(input)) ==
                  Halted(Run(State(), F.Frames(rest), world, lib), F.Ending(rest))
        decreases |rest|, phase.Running?
      {
        var arrival := ReadFrame(rest);
        if arrival.Oversized? {
          phase := Crashed;
          return;
        }
        if !arrival.Whole? {
          return;
        }
        ProcessMessage(arrival.frame);
        rest := arrival.rest;
      }
    }

    /** A whole connection: the bytes sent are the refusal if there was one and
        the messages of the trace, and the trace is the greeting followed by the
        run of the session over the frames that arrived, cut short by a panic if
        a length beyond the signed range stopped it. */
    method Handle(input: Text) returns (ghost order: seq<Text>, ghost end: Session)
      requires Valid() && !conn.closed && conn.trace == [] && conn.preamble == [] && State() == Start([])
      modifies this, conn
      ensures conn.closed
      ensures conn.out == (if Opening(input).0 then ['N'] else []) + EncodeAll(conn.trace)
      ensures conn.trace == end.trace
      ensures match Opening(input).1
              case Ready(_, rest) =>
                exists greeting :: Greets(greeting, order) && end == AfterGreeting(greeting, rest, world, lib)
              case _ => end == Start([])
    {
      hide Run, F.Frames, F.Ending, Opening, Greets, EncodeAll;
      var ok, rest;
      ok, rest, order := HandleHandshake(input);
      if ok {
        ghost var greeting := conn.trace;
        Loop(rest);
        assert State() == AfterGreeting(greeting, rest, world, lib);
      }
      end := State();
      conn.Close();
    }
  }

  lemma FieldsUpTo(rule: Rule, formats: seq<int>, i: nat)
    requires i < |rule.columns|
    ensures FieldsOf(rule, formats)[..i + 1] == FieldsOf(rule, formats)[..i] + [FieldOf(rule, formats, i)]
  {
    hide FieldOf;
  }

  lemma SendNothing(s: Session)
    ensures SendAll(s, []) == s
  {
    assert s.trace + [] == s.trace;
  }

  lemma SendOneMore(s: Session, ms: seq<Reply>, m: Reply)
    ensures Send(SendAll(s, ms), m) == SendAll(s, ms + [m])
  {
    assert s.trace + ms + [m] == s.trace + (ms + [m]);
  }

  lemma {:induction false} StuckCells(a: Answered, formats: seq<int>, lib: Library, r: nat, n: nat, m: nat)
    requires r < |a.rule.rows| && n <= m && Cells(a, formats, lib, r, n).None?
    ensures Cells(a, formats, lib, r, m).None?
  {
    hide CellValue;
    if n < m {
      StuckCells(a, formats, lib, r, n, m - 1);
    }
  }

  lemma {:induction false} StuckRows(a: Answered, formats: seq<int>, lib: Library, n: nat, m: nat)
    requires n <= m <= |a.rule.rows| && !RowsUpTo(a, formats, lib, n).whole
    ensures RowsUpTo(a, formats, lib, m) == RowsUpTo(a, formats, lib, n)
  {
    hide Cells;
    if n < m {
      StuckRows(a, formats, lib, n, m - 1);
    }
  }
}
