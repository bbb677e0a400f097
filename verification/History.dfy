/** The state of a session read off the list of requests it has served, looking
    back from the end: the last Parse or Close of a statement, the last Bind or
    Close of a portal, the last transaction command. */
module Histories {
  import opened Text
  import opened Rules
  import opened Wire
  import opened Backend
  import opened Writer
  import opened Sessions
  import opened Replies
  import opened Conversations
  import opened RuleEngine
  import F = Frontend

  predicate Parses(f: Frame, name: Text) {
    f.kind == 'P' && F.ReadParse(f.payload).Got? && F.ReadParse(f.payload).value.statement == name
  }

  predicate Closes(f: Frame, target: byte, name: Text) {
    && f.kind == 'C' && F.ReadClose(f.payload).Got?
    && F.ReadClose(f.payload).value.target == target && F.ReadClose(f.payload).value.name == name
  }

  /** What a statement name stands for after these requests. */
  function LastParse(frames: seq<Frame>, name: Text): Option<Statement> {
    if frames == [] then None
    else
      var before, f := frames[..|frames| - 1], frames[|frames| - 1];
      if Parses(f, name) then
        var m := F.ReadParse(f.payload).value;
        Some(Statement(m.query, m.paramOIDs))
      else if Closes(f, 'S', name) then None
      else LastParse(before, name)
  }

  /** A Bind to this portal whose statement exists, or has no name. */
  predicate Binds(before: seq<Frame>, f: Frame, name: Text) {
    && f.kind == 'B' && F.ReadBind(f.payload).Got?
    && F.ReadBind(f.payload).value.portal == name
    && var statement := F.ReadBind(f.payload).value.statement;
       statement == [] || LastParse(before, statement).Some?
  }

  /** What a portal name stands for: the last Bind of it that succeeded, with
      the statement as it was then, unless it was closed since. */
  function LastBind(frames: seq<Frame>, name: Text): Option<Portal> {
    if frames == [] then None
    else
      var before, f := frames[..|frames| - 1], frames[|frames| - 1];
      if Binds(before, f, name) then
        var m := F.ReadBind(f.payload).value;
        Some(Portal(LastParse(before, m.statement), m.params, m.resultFormats))
      else if Closes(f, 'P', name) then None
      else LastBind(before, name)
  }

  /** The status a simple query settles, if it is a transaction command. */
  function Settles(f: Frame): Option<byte> {
    if f.kind != 'Q' then None
    else
      var q := TrimSpace(F.ReadQuery(f.payload));
      if IsEmptyQuery(q) then None
      else if TxAfter(q, IDLE) == IN_BLOCK then Some(IN_BLOCK)
      else if TxAfter(q, IN_BLOCK) == IDLE then Some(IDLE)
      else None
  }

  /** The last transaction command sent as a simple query decides. */
  function TxStatus(frames: seq<Frame>): byte {
    if frames == [] then IDLE
    else
      match Settles(frames[|frames| - 1])
      case Some(b) => b
      case None => TxStatus(frames[..|frames| - 1])
  }

  function QueryMessages(frames: seq<Frame>): nat {
    if frames == [] then 0
    else (if frames[0].kind in {'Q', 'E'} then 1 else 0) + QueryMessages(frames[1..])
  }

  // ---------- One step ----------

  lemma RespondKeeps(s: Session, a: Answered, formats: seq<int>, lib: Library)
    ensures var s' := Respond(s, a, formats, lib);
            && s'.stmts == s.stmts && s'.portals == s.portals && s'.status == s.status
            && s'.queries == s.queries && s'.asked == s.asked
            && (s'.phase == s.phase || s'.phase.Crashed?)
  {
    hide RowsUpTo, FieldsOf, TagOf, RuleReport, Report;
  }

  lemma QueryKeeps(s: Session, payload: Text, w: World, lib: Library)
    ensures var s' := Simple(s, payload, w, lib);
            && (s'.phase == s.phase || s'.phase.Crashed?)
            && s'.stmts == s.stmts && s'.portals == s.portals && s'.queries == s.queries + 1
            && s'.status == (match Settles(Frame('Q', payload)) case Some(b) => b case None => s.status)
  {
    hide Respond, TrimSpace, F.ReadQuery, Matcher.NormalizeSQL;
    var query := TrimSpace(F.ReadQuery(payload));
    var s1 := s.(queries := s.queries + 1, status := TxAfter(query, s.status));
    RespondKeeps(Ask(s1, query, []), w(|s.asked|), [], lib);
    TxCases(query, s.status);
  }

  lemma TxCases(query: Text, status: byte)
    ensures TxAfter(query, status) ==
            if TxAfter(query, IDLE) == IN_BLOCK then IN_BLOCK else if TxAfter(query, IN_BLOCK) == IDLE then IDLE else status
  {
    hide ToUpper, Matcher.NormalizeSQL;
  }

  lemma ExecuteKeeps(s: Session, payload: Text, w: World, lib: Library)
    ensures var s' := Executed(s, payload, w, lib);
            && (s'.phase == s.phase || s'.phase.Crashed?)
            && s'.stmts == s.stmts && s'.portals == s.portals && s'.queries == s.queries + 1
            && s'.status == s.status
  {
    hide Respond, F.ReadExecute, ReadReport, NoCursor, Report;
    match F.ReadExecute(payload)
    case Got(m, _) =>
      var portal := PortalIn(s.portals, m.portal);
      var s1 := s.(queries := s.queries + 1);
      RespondKeeps(Ask(s1, QueryOf(portal.stmt), portal.params), w(|s.asked|), portal.formats, lib);
    case _ =>
  }

  lemma DescribeKeeps(s: Session, payload: Text, w: World, lib: Library)
    ensures var s' := DescribedAs(s, payload, w, lib);
            && (s'.phase == s.phase || s'.phase.Crashed?)
            && s'.stmts == s.stmts && s'.portals == s.portals && s'.queries == s.queries
            && s'.status == s.status
  {
    hide F.ReadDescribe, ReadReport, NoStatement, NoCursor, Report, Announced;
    match F.ReadDescribe(payload)
    case Got(m, _) =>
      var stmt := StatementIn(s.stmts, m.name);
      var portal := PortalIn(s.portals, m.name);
      AnnouncedKeeps(Send(s, ParameterDescription(if stmt.Some? then stmt.value.paramOIDs else [])), QueryOf(stmt), [], w);
      AnnouncedKeeps(s, QueryOf(portal.stmt), portal.formats, w);
      AnnouncedKeeps(s, [], [], w);
    case _ =>
  }

  lemma AnnouncedKeeps(s: Session, query: Text, formats: seq<int>, w: World)
    ensures var s' := Announced(s, query, formats, w);
            && s'.phase == s.phase && s'.stmts == s.stmts && s'.portals == s.portals && s'.queries == s.queries
            && s'.status == s.status
  {
    hide FieldsOf;
  }

  function PortalOption(portals: map<Text, Portal>, name: Text): Option<Portal> {
    if name in portals then Some(portals[name]) else None
  }

  /** The state is what the requests say it is. */
  ghost predicate Mirrors(s: Session, frames: seq<Frame>) {
    && (forall name :: StatementIn(s.stmts, name) == LastParse(frames, name))
    && (forall name :: PortalOption(s.portals, name) == LastBind(frames, name))
    && s.status == TxStatus(frames)
  }

  lemma NoMapChange(frames: seq<Frame>, f: Frame, name: Text)
    requires f.kind !in {'P', 'B', 'C'}
    ensures LastParse(frames + [f], name) == LastParse(frames, name)
    ensures LastBind(frames + [f], name) == LastBind(frames, name)
  {
    assert (frames + [f])[..|frames|] == frames;
  }

  lemma CountStep(s: Session, f: Frame, w: World, lib: Library)
    ensures var s' := Process(s, f, w, lib);
            && (s.phase.Running? ==> (s'.phase.Ended? <==> f.kind == 'X'))
            && s'.queries == s.queries + (if f.kind in {'Q', 'E'} then 1 else 0)
            && s'.status == match Settles(f) case Some(b) => b case None => s.status
  {
    hide Simple, Executed, DescribedAs, Settles, Parsed, Bound, Forgotten;
    match f.kind
    case 'Q' => QueryKeeps(s, f.payload, w, lib);
      assert f == Frame('Q', f.payload);
    case 'E' => ExecuteKeeps(s, f.payload, w, lib);
      NotAQuery(f);
    case _ => ShortKeeps(s, f, w, lib);
      NotAQuery(f);
  }

  lemma NotAQuery(f: Frame)
    requires f.kind != 'Q'
    ensures Settles(f).None?
  {
  }

  lemma ShortKeeps(s: Session, f: Frame, w: World, lib: Library)
    requires f.kind !in {'Q', 'E'}
    ensures Process(s, f, w, lib).status == s.status && Process(s, f, w, lib).queries == s.queries
    ensures Process(s, f, w, lib).phase in {s.phase, if f.kind == 'X' then Ended else Crashed}
    ensures f.kind == 'X' ==> Process(s, f, w, lib).phase.Ended?
    ensures f.kind !in {'P', 'B', 'C'} ==> Process(s, f, w, lib).stmts == s.stmts && Process(s, f, w, lib).portals == s.portals
  {
    hide DescribedAs, Simple, Executed, F.ReadParse, F.ReadBind, F.ReadClose, ReadReport, NoStatement, Report;
    if f.kind == 'D' {
      DescribeKeeps(s, f.payload, w, lib);
    }
  }

  lemma ParseStep(s: Session, frames: seq<Frame>, f: Frame, name: Text)
    requires f.kind == 'P'
    requires StatementIn(s.stmts, name) == LastParse(frames, name)
    requires PortalOption(s.portals, name) == LastBind(frames, name)
    ensures StatementIn(Parsed(s, f.payload).stmts, name) == LastParse(frames + [f], name)
    ensures PortalOption(Parsed(s, f.payload).portals, name) == LastBind(frames + [f], name)
  {
    hide F.ReadParse, ReadReport, Report;
    assert (frames + [f])[..|frames|] == frames;
  }

  lemma CloseStep(s: Session, frames: seq<Frame>, f: Frame, name: Text)
    requires f.kind == 'C'
    requires StatementIn(s.stmts, name) == LastParse(frames, name)
    requires PortalOption(s.portals, name) == LastBind(frames, name)
    ensures StatementIn(Forgotten(s, f.payload).stmts, name) == LastParse(frames + [f], name)
    ensures PortalOption(Forgotten(s, f.payload).portals, name) == LastBind(frames + [f], name)
  {
    hide F.ReadClose;
    assert (frames + [f])[..|frames|] == frames;
  }

  lemma BindStep(s: Session, frames: seq<Frame>, f: Frame, name: Text, lib: Library)
    requires f.kind == 'B'
    requires forall n :: StatementIn(s.stmts, n) == LastParse(frames, n)
    requires PortalOption(s.portals, name) == LastBind(frames, name)
    ensures StatementIn(Bound(s, f.payload, lib).stmts, name) == LastParse(frames + [f], name)
    ensures PortalOption(Bound(s, f.payload, lib).portals, name) == LastBind(frames + [f], name)
  {
    hide F.ReadBind, ReadReport, Report, NoStatement;
    assert (frames + [f])[..|frames|] == frames;
    var r := F.ReadBind(f.payload);
    if r.Got? {
      assert StatementIn(s.stmts, r.value.statement) == LastParse(frames, r.value.statement);
    }
  }

  lemma TxStatusSnoc(frames: seq<Frame>, f: Frame)
    ensures TxStatus(frames + [f]) == match Settles(f) case Some(b) => b case None => TxStatus(frames)
  {
    hide Settles;
    assert (frames + [f])[..|frames|] == frames;
  }

  lemma StepMirrors(s: Session, frames: seq<Frame>, f: Frame, w: World, lib: Library)
    requires Mirrors(s, frames)
    ensures Mirrors(Process(s, f, w, lib), frames + [f])
  {
    hide Simple, Executed, DescribedAs, Parsed, Bound, Forgotten, LastParse, LastBind, TxStatus, Settles;
    hide StatementIn, PortalOption;
    CountStep(s, f, w, lib);
    TxStatusSnoc(frames, f);
    var s' := Process(s, f, w, lib);
    forall name
      ensures StatementIn(s'.stmts, name) == LastParse(frames + [f], name)
      ensures PortalOption(s'.portals, name) == LastBind(frames + [f], name)
    {
      match f.kind
      case 'P' => ParseStep(s, frames, f, name);
      case 'B' => BindStep(s, frames, f, name, lib);
      case 'C' => CloseStep(s, frames, f, name);
      case 'Q' => QueryKeeps(s, f.payload, w, lib);
        NoMapChange(frames, f, name);
      case 'E' => ExecuteKeeps(s, f.payload, w, lib);
        NoMapChange(frames, f, name);
      case _ => ShortKeeps(s, f, w, lib);
        NoMapChange(frames, f, name);
    }
  }

  // ---------- Whole runs ----------

  lemma {:induction false} RunSnoc(s: Session, frames: seq<Frame>, f: Frame, w: World, lib: Library)
    ensures var s1 := Run(s, frames, w, lib);
            Run(s, frames + [f], w, lib) == if s1.phase.Running? then Process(s1, f, w, lib) else s1
    decreases |frames|
  {
    hide Process;
    if frames == [] {
      assert frames + [f] == [f];
      RunNone(Process(s, f, w, lib), w, lib);
    } else if s.phase.Running? {
      assert (frames + [f])[1..] == frames[1..] + [f];
      RunSnoc(Process(s, frames[0], w, lib), frames[1..], f, w, lib);
    }
  }

  lemma RunNone(s: Session, w: World, lib: Library)
    ensures Run(s, [], w, lib) == s
  {
  }

  /** After any run that is still going, statements, portals and status are what
      the requests served say, read backwards. */
  lemma {:induction false} StateIsHistory(t0: seq<Reply>, frames: seq<Frame>, w: World, lib: Library)
    requires Run(Start(t0), frames, w, lib).phase.Running?
    ensures Mirrors(Run(Start(t0), frames, w, lib), frames)
    decreases |frames|
  {
    hide Process;
    if frames != [] {
      var n := |frames| - 1;
      assert frames == frames[..n] + [frames[n]];
      RunSnoc(Start(t0), frames[..n], frames[n], w, lib);
      StateIsHistory(t0, frames[..n], w, lib);
      StepMirrors(Run(Start(t0), frames[..n], w, lib), frames[..n], frames[n], w, lib);
    }
  }

  /** The query counter counts the Query and Execute messages served, readable
      or not, on a dropped connection too, up to the message of a panic. */
  lemma {:induction false} QueriesCounted(s: Session, frames: seq<Frame>, w: World, lib: Library) returns (k: nat)
    requires s.phase.Running?
    ensures k <= |Served(frames)|
    ensures Run(s, frames, w, lib).queries == s.queries + QueryMessages(Served(frames)[..k])
    ensures k < |Served(frames)| ==> k > 0 && Run(s, Served(frames)[..k], w, lib).phase.Crashed?
    decreases |frames|
  {
    hide Process;
    k := 0;
    if frames != [] {
      var s1 := Process(s, frames[0], w, lib);
      CountStep(s, frames[0], w, lib);
      var served := Served(frames);
      assert served[0] == frames[0];
      if s1.phase.Running? {
        k := QueriesCounted(s1, frames[1..], w, lib);
        assert served[1..] == Served(frames[1..]);
        k := k + 1;
        assert served[..k][1..] == served[1..][..k - 1];
        if k == 1 {
          RunNone(s1, w, lib);
        }
      } else {
        NotRunningStays(s1, frames[1..], w, lib);
        NotRunningStays(s1, served[..1][1..], w, lib);
        k := 1;
        assert served[..1][1..] == [];
      }
    }
  }

  /** An Execute asks for the query and the parameters that the last successful
      Bind of its portal captured, and answers in the formats it asked for,
      whatever was parsed or closed in between. */
  lemma ExecuteUsesLastBind(t0: seq<Reply>, frames: seq<Frame>, payload: Text, w: World, lib: Library)
    requires Run(Start(t0), frames, w, lib).phase.Running?
    requires F.ReadExecute(payload).Got?
    ensures var s := Run(Start(t0), frames, w, lib);
            var s' := Process(s, Frame('E', payload), w, lib);
            var name := F.ReadExecute(payload).value.portal;
            match LastBind(frames, name)
            case Some(p) =>
              && s'.asked == s.asked + [Asked(QueryOf(p.stmt), p.params)]
              && s' == Respond(s.(queries := s.queries + 1, asked := s'.asked), w(|s.asked|), p.formats, lib)
            case None =>
              if name == [] then s'.asked == s.asked + [Asked([], [])]
              else s'.asked == s.asked && s' == Send(s, Report(NoCursor(name, lib))).(queries := s.queries + 1)
  {
    hide Run, Respond, F.ReadExecute, NoCursor, Report;
    StateIsHistory(t0, frames, w, lib);
    var s := Run(Start(t0), frames, w, lib);
    var name := F.ReadExecute(payload).value.portal;
    assert PortalOption(s.portals, name) == LastBind(frames, name);
    var portal := PortalIn(s.portals, name);
    var s0 := s.(queries := s.queries + 1);
    RespondKeeps(Ask(s0, QueryOf(portal.stmt), portal.params), w(|s.asked|), portal.formats, lib);
  }

  /** Nothing but a Bind or a Close of the portal itself changes what it is. */
  lemma {:induction false} PortalOutlives(frames: seq<Frame>, more: seq<Frame>, name: Text)
    requires forall i :: 0 <= i < |more| ==>
      && !Closes(more[i], 'P', name)
      && !(more[i].kind == 'B' && F.ReadBind(more[i].payload).Got? && F.ReadBind(more[i].payload).value.portal == name)
    ensures LastBind(frames + more, name) == LastBind(frames, name)
  {
    hide Closes, F.ReadBind;
    if more == [] {
      assert frames + more == frames;
    } else {
      var n := |more| - 1;
      var all := frames + more;
      assert all[..|all| - 1] == frames + more[..n] && all[|all| - 1] == more[n];
      PortalOutlives(frames, more[..n], name);
    }
  }

  /** Every ReadyForQuery a run sends carries the status that the simple queries
      served before it settle; what a panic leaves behind holds none. */
  lemma StatusesAreHistory(t0: seq<Reply>, frames: seq<Frame>, w: World, lib: Library)
    returns (parts: seq<seq<Reply>>, tail: seq<Reply>)
    ensures |parts| <= |Served(frames)| && SplitsInto(Kinds(Served(frames)[..|parts|]), parts)
    ensures Run(Start(t0), frames, w, lib).trace == t0 + Flatten(parts) + tail
    ensures forall i :: 0 <= i < |parts| ==> OneStatus(parts[i], TxStatus(Served(frames)[..i + 1]))
    ensures forall i :: 0 <= i < |tail| ==> !tail[i].ReadyForQuery?
  {
    hide Run, Answers, OneStatus, TxStatus, Served, Process;
    parts, tail := RunReplies(Start(t0), frames, w, lib);
    forall i | 0 <= i < |parts|
      ensures OneStatus(parts[i], TxStatus(Served(frames)[..i + 1]))
    {
      assert Follows(Start(t0), Served(frames)[..i + 1], parts[i], w, lib);
      if parts[i] == [] {
        NothingSaid(TxStatus(Served(frames)[..i + 1]));
      } else {
        StateIsHistory(t0, Served(frames)[..i + 1], w, lib);
      }
    }
  }

  lemma NothingSaid(status: byte)
    ensures OneStatus([], status)
  {
  }

  /** A Bind is answered with BindComplete exactly when it reads and its
      statement is unnamed or was parsed and not closed since; otherwise the
      error says which of the two failed. */
  lemma BindAnswer(t0: seq<Reply>, frames: seq<Frame>, payload: Text, w: World, lib: Library) returns (reply: Reply)
    requires var s := Run(Start(t0), frames, w, lib); s.phase.Running? && !s.closed
    requires !F.NegativeCount(payload)
    ensures var s := Run(Start(t0), frames, w, lib);
            Process(s, Frame('B', payload), w, lib).trace == s.trace + [reply]
    ensures reply.BindComplete? <==>
            && F.ReadBind(payload).Got?
            && var name := F.ReadBind(payload).value.statement; name == [] || LastParse(frames, name).Some?
    ensures !reply.BindComplete? ==>
            reply == Report(if F.ReadBind(payload).Got? then NoStatement(F.ReadBind(payload).value.statement, lib)
                            else ReadReport(PARAMETER, F.ReadBind(payload).error))
  {
    hide Run, F.ReadBind, NoStatement, ReadReport, ErrorFields;
    StateIsHistory(t0, frames, w, lib);
    F.BindPanicsIff(payload);
    var s := Run(Start(t0), frames, w, lib);
    var r := F.ReadBind(payload);
    if r.Failed? {
      reply := Report(ReadReport(PARAMETER, r.error));
    } else {
      var name := r.value.statement;
      assert StatementIn(s.stmts, name) == LastParse(frames, name);
      reply := if name != [] && LastParse(frames, name).None? then Report(NoStatement(name, lib)) else BindComplete;
    }
  }

  /** A client that describes a portal and then executes it is sent the same
      description twice, if the same rule answers both and succeeds. */
  lemma SameRuleSameDescription(t0: seq<Reply>, frames: seq<Frame>, describe: Text, execute: Text, w: World, lib: Library)
    returns (d: Reply)
    requires var s := Run(Start(t0), frames, w, lib);
             && s.phase.Running? && !s.closed
             && w(|s.asked|).rule == w(|s.asked| + 1).rule && Succeeds(w(|s.asked| + 1))
    requires Announces(frames, describe, execute)
    ensures var s := Run(Start(t0), frames, w, lib);
            var trace := Process(Process(s, Frame('D', describe), w, lib), Frame('E', execute), w, lib).trace;
            d.RowDescription? && s.trace + [d, d] <= trace
  {
    hide Run, Process, F.ReadDescribe, F.ReadExecute, FieldsOf, Succeeds, LastBind;
    StateIsHistory(t0, frames, w, lib);
    var s := Run(Start(t0), frames, w, lib);
    var name := F.ReadDescribe(describe).value.name;
    assert PortalOption(s.portals, name) == LastBind(frames, name);
    var portal := s.portals[name];
    d := RowDescription(FieldsOf(w(|s.asked|).rule, portal.formats));
    ColumnsOfSuccess(w(|s.asked| + 1));
    DescribeSends(s, describe, w, lib);
    var s1 := s.(trace := s.trace + [d], asked := s.asked + [Asked(QueryOf(portal.stmt), [])]);
    ExecuteSends(s1, execute, w, lib);
    assert s1.trace + [d] == s.trace + [d, d];
  }

  lemma ColumnsOfSuccess(a: Answered)
    requires Succeeds(a)
    ensures a.rule.columns != []
  {
  }

  lemma DescribeSends(s: Session, payload: Text, w: World, lib: Library)
    requires !s.closed && F.ReadDescribe(payload).Got? && F.ReadDescribe(payload).value.target == 'P'
    requires var name := F.ReadDescribe(payload).value.name;
             name in s.portals && QueryOf(s.portals[name].stmt) != [] && w(|s.asked|).rule.columns != []
    ensures var portal := s.portals[F.ReadDescribe(payload).value.name];
            Process(s, Frame('D', payload), w, lib) ==
            s.(trace := s.trace + [RowDescription(FieldsOf(w(|s.asked|).rule, portal.formats))],
               asked := s.asked + [Asked(QueryOf(portal.stmt), [])])
  {
    hide F.ReadDescribe, FieldsOf, QueryOf, NoCursor, NoStatement, ReadReport, Report;
  }

  lemma ExecuteSends(s: Session, payload: Text, w: World, lib: Library)
    requires !s.closed && s.phase.Running? && F.ReadExecute(payload).Got?
    requires var name := F.ReadExecute(payload).value.portal; name in s.portals && Succeeds(w(|s.asked|))
    ensures var portal := s.portals[F.ReadExecute(payload).value.portal];
            s.trace + [RowDescription(FieldsOf(w(|s.asked|).rule, portal.formats))] <= Process(s, Frame('E', payload), w, lib).trace
  {
    hide F.ReadExecute, FieldsOf, QueryOf, RowsUpTo, TagOf, Fails, NoCursor, ReadReport, Report;
  }

  /** An answer that sends rows: it neither drops nor fails. */
  predicate Succeeds(a: Answered) {
    !a.rule.dropConnection && !Fails(a.rule, a.hits) && a.rule.columns != []
  }

  /** A Describe and an Execute of one portal that is bound to a query. */
  predicate Announces(frames: seq<Frame>, describe: Text, execute: Text) {
    && F.ReadDescribe(describe).Got? && F.ReadExecute(execute).Got?
    && F.ReadDescribe(describe).value.target == 'P'
    && var name := F.ReadDescribe(describe).value.name;
       && name == F.ReadExecute(execute).value.portal && LastBind(frames, name).Some?
       && QueryOf(LastBind(frames, name).value.stmt) != []
  }

  /** The portal they are about. */
  function SubjectOf(frames: seq<Frame>, describe: Text, execute: Text): Portal
    requires Announces(frames, describe, execute)
  {
    LastBind(frames, F.ReadDescribe(describe).value.name).value
  }

  /** Describe asks the registry with no parameters, Execute with those bound:
      both find the same rule, and so the description is the one the rows come
      under, exactly when the rule that answers the Execute asks for none. */
  lemma DescribeAgreesWithExecute(t0: seq<Reply>, frames: seq<Frame>, describe: Text, execute: Text,
                                  rules: seq<RuleObject>, regex: Regex, w: World, lib: Library)
    returns (described: nat, executed: nat, d: Reply)
    requires Announces(frames, describe, execute)
    requires var s := Run(Start(t0), frames, w, lib);
             var p := SubjectOf(frames, describe, execute);
             var i, j := FirstMatch(rules, QueryOf(p.stmt), [], regex), FirstMatch(rules, QueryOf(p.stmt), p.params, regex);
             && s.phase.Running? && !s.closed
             && j < |rules| && w(|s.asked| + 1).rule == rules[j].rule && Succeeds(w(|s.asked| + 1))
             && (i < |rules| ==> w(|s.asked|).rule == rules[i].rule)
    ensures var p := SubjectOf(frames, describe, execute);
            && described == FirstMatch(rules, QueryOf(p.stmt), [], regex)
            && executed == FirstMatch(rules, QueryOf(p.stmt), p.params, regex)
            && executed <= described
    ensures described == executed <==> rules[executed].condition.params == []
    ensures described == executed ==>
              var s := Run(Start(t0), frames, w, lib);
              var trace := Process(Process(s, Frame('D', describe), w, lib), Frame('E', execute), w, lib).trace;
              d.RowDescription? && s.trace + [d, d] <= trace
  {
    hide Run, SubjectOf, Announces, FirstMatch, Process, Succeeds, QueryOf;
    var p := SubjectOf(frames, describe, execute);
    described, executed := FirstMatch(rules, QueryOf(p.stmt), [], regex), FirstMatch(rules, QueryOf(p.stmt), p.params, regex);
    SameRuleIff(rules, QueryOf(p.stmt), p.params, regex);
    d := NoData;
    if described == executed {
      d := SameRuleSameDescription(t0, frames, describe, execute, w, lib);
    }
  }

  // ---------- Transaction commands as clients spell them ----------

  predicate Letters(w: Text) {
    w != [] && forall i :: 0 <= i < |w| ==> 'A' <= Upper(w[i]) <= 'Z'
  }

  lemma LettersAreWords(words: seq<Text>)
    requires forall i :: 0 <= i < |words| ==> Letters(words[i])
    ensures Matcher.Words(words)
  {
  }

  lemma UpperIsFold(a: Text, b: Text)
    ensures ToUpper(a) == ToUpper(b) <==> EqualFold(a, b)
  {
    Matcher.UpperOfLower(a);
    Matcher.UpperOfLower(b);
    if ToUpper(a) == ToUpper(b) {
      forall i | 0 <= i < |a|
        ensures |a| == |b| && Lower(a[i]) == Lower(b[i])
      {
        assert |ToUpper(a)| == |ToUpper(b)|;
        assert ToUpper(a)[i] == Upper(a[i]) && ToUpper(b)[i] == Upper(b[i]);
      }
      assert |ToUpper(a)| == |ToUpper(b)|;
      assert ToLower(a) == ToLower(b);
    }
  }

  lemma CommandWords()
    ensures Letters("BEGIN") && Letters("COMMIT") && Letters("ROLLBACK") && Letters("START") && Letters("TRANSACTION")
    ensures ToUpper("BEGIN") == "BEGIN" && ToUpper("COMMIT") == "COMMIT" && ToUpper("ROLLBACK") == "ROLLBACK"
    ensures ToUpper("START TRANSACTION") == "START TRANSACTION"
  {
  }

  /** A query is the command exactly when it has the command's words. */
  lemma IsCommandIff(words: seq<Text>, l: Matcher.Layout, command: seq<Text>)
    requires Matcher.Words(words) && Matcher.LayoutFor(l, words)
    requires command != [] && forall i :: 0 <= i < |command| ==> Letters(command[i])
    ensures ToUpper(Matcher.NormalizeSQL(Matcher.Spell(words, l))) == ToUpper(Join(command, ' ')) <==>
            Matcher.SameWords(words, command)
  {
    hide Matcher.NormalizeSQL, Matcher.Spell, Matcher.LayoutFor, Matcher.Words, Letters, ToUpper, Join, EqualFold;
    LettersAreWords(command);
    Matcher.SpellingNormalizes(words, l);
    UpperIsFold(Matcher.Canonical(words), Join(command, ' '));
    if words == [] {
      Matcher.JoinIsNotEmpty(command);
      Matcher.EqualFoldEmpty(Join(command, ' '));
    } else {
      Matcher.JoinedEqualIff(words, command);
    }
  }

  /** BEGIN and START TRANSACTION open a block, COMMIT and ROLLBACK end it, in any
      letter case and white-space layout, with a semicolon or without; any other
      words leave the status as it is. */
  lemma TransactionCommands(words: seq<Text>, l: Matcher.Layout, status: byte)
    requires Matcher.Words(words) && Matcher.LayoutFor(l, words)
    ensures TxAfter(Matcher.Spell(words, l), status) ==
            if Matcher.SameWords(words, ["BEGIN"]) || Matcher.SameWords(words, ["START", "TRANSACTION"]) then 'T'
            else if Matcher.SameWords(words, ["COMMIT"]) || Matcher.SameWords(words, ["ROLLBACK"]) then 'I'
            else status
  {
    hide Matcher.NormalizeSQL, Matcher.Spell, Matcher.LayoutFor, Matcher.Words, Letters, ToUpper, Matcher.SameWords, Join;
    CommandWords();
    IsCommandIff(words, l, ["BEGIN"]);
    IsCommandIff(words, l, ["START", "TRANSACTION"]);
    IsCommandIff(words, l, ["COMMIT"]);
    IsCommandIff(words, l, ["ROLLBACK"]);
    JoinedCommands();
  }

  lemma JoinedCommands()
    ensures Join(["BEGIN"], ' ') == BEGIN && Join(["COMMIT"], ' ') == COMMIT && Join(["ROLLBACK"], ' ') == ROLLBACK
    ensures Join(["START", "TRANSACTION"], ' ') == START
  {
    assert ["START", "TRANSACTION"][1..] == ["TRANSACTION"];
  }
}
