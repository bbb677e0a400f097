/** What every run of a session keeps: the trace divides into one reply per
    request, and the session's maps and status say exactly what the history of
    requests says. */
module Conversations {
  import opened Text
  import opened Rules
  import opened Wire
  import opened Backend
  import opened Writer
  import opened Sessions
  import opened Replies
  import F = Frontend
  import Binary

  // ---------- Rows ----------

  lemma {:induction false} CellsShape(a: Answered, formats: seq<int>, lib: Library, r: nat, n: nat)
    requires r < |a.rule.rows| && Cells(a, formats, lib, r, n).Some?
    ensures var cs := Cells(a, formats, lib, r, n).value;
            |cs| == n && forall c :: 0 <= c < n ==> CellValue(a, formats, lib, r, c) == Some(cs[c])
  {
    hide CellValue;
    if n > 0 {
      CellsShape(a, formats, lib, r, n - 1);
    }
  }

  lemma {:induction false} RowsShape(a: Answered, formats: seq<int>, lib: Library, n: nat)
    requires n <= |a.rule.rows|
    ensures var rows := RowsUpTo(a, formats, lib, n);
            && (forall i :: 0 <= i < |rows.sent| ==> rows.sent[i].DataRow? && |rows.sent[i].values| == |a.rule.columns|)
            && (rows.whole ==> |rows.sent| == n)
  {
    hide Cells;
    if n > 0 {
      RowsShape(a, formats, lib, n - 1);
      var r := Cells(a, formats, lib, n - 1, |a.rule.columns|);
      if r.Some? {
        CellsShape(a, formats, lib, n - 1, |a.rule.columns|);
      }
    }
  }

  // ---------- When a panic can come ----------

  /** The first n cells of a row render, where they are neither missing nor NULL. */
  ghost predicate RowRenders(a: Answered, r: nat, n: nat)
    requires r < |a.rule.rows|
  {
    forall c :: 0 <= c < n && c < |a.rule.rows[r]| && a.rule.rows[r][c] != NULL ==> a.cell(r, c).Some?
  }

  /** Every cell under a column renders. */
  ghost predicate Renders(a: Answered) {
    forall r :: 0 <= r < |a.rule.rows| ==> RowRenders(a, r, |a.rule.columns|)
  }

  /** The answer gets through: it drops, fails, has no columns, or renders. */
  ghost predicate Steady(a: Answered) {
    a.rule.dropConnection || Fails(a.rule, a.hits) || a.rule.columns == [] || Renders(a)
  }

  lemma {:induction false} CellsWholeIff(a: Answered, formats: seq<int>, lib: Library, r: nat, n: nat)
    requires r < |a.rule.rows|
    ensures Cells(a, formats, lib, r, n).Some? <==> RowRenders(a, r, n)
  {
    hide Binary.Encoded;
    if n > 0 {
      CellsWholeIff(a, formats, lib, r, n - 1);
    }
  }

  lemma {:induction false} RowsWholeIff(a: Answered, formats: seq<int>, lib: Library, n: nat)
    requires n <= |a.rule.rows|
    ensures RowsUpTo(a, formats, lib, n).whole <==> forall r :: 0 <= r < n ==> RowRenders(a, r, |a.rule.columns|)
  {
    hide Cells, RowRenders;
    if n > 0 {
      RowsWholeIff(a, formats, lib, n - 1);
      CellsWholeIff(a, formats, lib, n - 1, |a.rule.columns|);
    }
  }

  /** A response panics exactly when it comes to send a cell that does not
      render. */
  lemma RespondCrashesIff(s: Session, a: Answered, formats: seq<int>, lib: Library)
    requires s.phase.Running?
    ensures Respond(s, a, formats, lib).phase.Crashed? <==> !Steady(a)
  {
    hide RowsUpTo, FieldsOf, TagOf, RuleReport, Report, Fails, RowRenders;
    RowsWholeIff(a, formats, lib, |a.rule.rows|);
  }

  // ---------- One reply for one request ----------

  /** What a panic leaves of a reply: nothing, or a description and some of its
      rows. */
  predicate Unfinished(r: seq<Reply>) {
    r != [] ==> r[0].RowDescription? && forall i :: 1 <= i < |r| ==> r[i].DataRow? && |r[i].values| == |r[0].fields|
  }

  lemma RespondReply(s: Session, a: Answered, formats: seq<int>, lib: Library) returns (reply: seq<Reply>)
    requires !s.closed && s.phase.Running?
    ensures var s' := Respond(s, a, formats, lib);
            if s'.closed then s' == s.(closed := true) && reply == []
            else if s'.phase.Crashed? then s' == s.(trace := s.trace + reply, phase := Crashed) && Unfinished(reply)
            else s' == s.(trace := s.trace + reply) && Outcome(reply)
  {
    hide RowsUpTo, FieldsOf, TagOf, RuleReport, Report;
    reply := [];
    if a.rule.dropConnection {
    } else if Fails(a.rule, a.hits) {
      reply := [Report(RuleReport(a.rule.error.value))];
      ReportIsError(RuleReport(a.rule.error.value));
    } else {
      var done := [CommandComplete(TagOf(a.rule))];
      if a.rule.columns == [] {
        reply := done;
      } else {
        RowsShape(a, formats, lib, |a.rule.rows|);
        var head := [RowDescription(FieldsOf(a.rule, formats))];
        var rows := RowsUpTo(a, formats, lib, |a.rule.rows|);
        reply := head + rows.sent + if rows.whole then done else [];
        assert s.trace + head + rows.sent == s.trace + (head + rows.sent);
        assert s.trace + head + rows.sent + done == s.trace + (head + rows.sent + done);
      }
    }
  }

  lemma ReportIsError(e: ErrorReport)
    ensures Report(e).ErrorResponse?
  {
  }

  lemma SimpleReply(s: Session, payload: Text, w: World, lib: Library) returns (reply: seq<Reply>)
    requires !s.closed && s.phase.Running?
    ensures var s' := Simple(s, payload, w, lib);
            && s'.trace == s.trace + reply && (s'.phase.Running? || s'.phase.Crashed?)
            && if s'.closed then reply == [] && s'.phase.Running?
               else if s'.phase.Crashed? then Unfinished(reply)
               else Closed(reply) && OneStatus(reply, s'.status)
  {
    hide Respond, F.ReadQuery, TrimSpace, TxAfter, Outcome, Closed, OneStatus, Ready, Unfinished;
    var s0 := s.(queries := s.queries + 1);
    var query := TrimSpace(F.ReadQuery(payload));
    if IsEmptyQuery(query) {
      reply := [EmptyQueryResponse] + [ReadyForQuery(s.status)];
      ReadyReply(s, Send(s0, EmptyQueryResponse), [EmptyQueryResponse]);
    } else {
      var s1 := Ask(s0.(status := TxAfter(query, s.status)), query, []);
      var s2 := Respond(s1, w(|s.asked|), [], lib);
      ReadyKeeps(s2);
      var body := RespondReply(s1, w(|s.asked|), [], lib);
      if s2.closed || s2.phase.Crashed? {
        reply := body;
      } else {
        reply := body + [ReadyForQuery(s1.status)];
        ReadyReply(s, s2, body);
      }
    }
  }

  lemma ReadyKeeps(s: Session)
    ensures Ready(s).phase == s.phase && Ready(s).status == s.status && Ready(s).closed == s.closed
    ensures s.closed || !s.phase.Running? ==> Ready(s) == s
  {
  }

  lemma ReadyReply(s: Session, s1: Session, body: seq<Reply>)
    requires !s1.closed && s1.phase.Running? && s1.trace == s.trace + body
    requires body == [EmptyQueryResponse] || Outcome(body)
    ensures var reply := body + [ReadyForQuery(s1.status)];
            && Ready(s1) == s1.(trace := s.trace + reply)
            && Closed(reply) && OneStatus(reply, s1.status)
  {
    hide Outcome;
    var z := ReadyForQuery(s1.status);
    var reply := body + [z];
    assert reply[..|reply| - 1] == body;
    assert s.trace + body + [z] == s.trace + reply;
    if Outcome(body) {
      OutcomeHasNoStatus(body);
    }
  }

  /** Every ReadyForQuery among the replies carries this status. */
  ghost predicate OneStatus(reply: seq<Reply>, status: byte) {
    forall i :: 0 <= i < |reply| && reply[i].ReadyForQuery? ==> reply[i].status == status
  }

  lemma OutcomeHasNoStatus(r: seq<Reply>)
    requires Outcome(r)
    ensures forall i :: 0 <= i < |r| ==> !r[i].ReadyForQuery?
    ensures |r| >= 1
  {
  }

  lemma ExecutedReply(s: Session, payload: Text, w: World, lib: Library) returns (reply: seq<Reply>)
    requires !s.closed && s.phase.Running?
    ensures var s' := Executed(s, payload, w, lib);
            && s'.trace == s.trace + reply && (s'.phase.Running? || s'.phase.Crashed?)
            && if s'.closed then reply == [] && s'.phase.Running?
               else if s'.phase.Crashed? then Unfinished(reply)
               else Outcome(reply)
  {
    hide Respond, F.ReadExecute, NoCursor, ReadReport, Report, Outcome;
    var s0 := s.(queries := s.queries + 1);
    reply := [];
    match F.ReadExecute(payload)
    case Panicked =>
    case Failed(e) =>
      reply := ErrorReply(ReadReport(SYNTAX, e));
    case Got(m, _) =>
      var portal := PortalIn(s.portals, m.portal);
      if m.portal !in s.portals && m.portal != [] {
        reply := ErrorReply(NoCursor(m.portal, lib));
      } else {
        reply := RespondReply(Ask(s0, QueryOf(portal.stmt), portal.params), w(|s0.asked|), portal.formats, lib);
      }
  }

  lemma ErrorReply(e: ErrorReport) returns (reply: seq<Reply>)
    ensures reply == [Report(e)] && Outcome(reply) && reply[0].ErrorResponse?
  {
    reply := [Report(e)];
  }

  lemma DescribedReply(s: Session, payload: Text, w: World, lib: Library) returns (reply: seq<Reply>)
    requires !s.closed && s.phase.Running?
    ensures var s' := DescribedAs(s, payload, w, lib);
            && s'.trace == s.trace + reply && s'.phase.Running? && !s'.closed && Description(reply)
  {
    F.OnlyBindPanics(payload);
    hide F.ReadDescribe, NoCursor, NoStatement, ReadReport, Report, FieldsOf, Outcome;
    match F.ReadDescribe(payload)
    case Failed(e) =>
      reply := ErrorReply(ReadReport(SYNTAX, e));
    case Got(m, _) =>
      if m.target == 'S' {
        var stmt := StatementIn(s.stmts, m.name);
        if stmt.None? && m.name != [] {
          reply := ErrorReply(NoStatement(m.name, lib));
        } else {
          var t := ParameterDescription(if stmt.Some? then stmt.value.paramOIDs else []);
          var rest := AnnouncedReply(Send(s, t), QueryOf(stmt), [], w);
          reply := [t] + rest;
          assert s.trace + [t] + rest == s.trace + reply;
        }
      } else if m.target == 'P' {
        if m.name !in s.portals && m.name != [] {
          reply := ErrorReply(NoCursor(m.name, lib));
        } else {
          var portal := PortalIn(s.portals, m.name);
          reply := AnnouncedReply(s, QueryOf(portal.stmt), portal.formats, w);
        }
      } else {
        reply := AnnouncedReply(s, [], [], w);
      }
  }

  lemma AnnouncedReply(s: Session, query: Text, formats: seq<int>, w: World) returns (reply: seq<Reply>)
    requires !s.closed
    ensures var s' := Announced(s, query, formats, w);
            && s'.trace == s.trace + reply && s'.phase == s.phase && !s'.closed
            && |reply| == 1 && (reply[0].NoData? || reply[0].RowDescription?)
  {
    reply := Announced(s, query, formats, w).trace[|s.trace|..];
  }

  lemma ShortReply(s: Session, f: Frame, w: World, lib: Library) returns (reply: seq<Reply>)
    requires !s.closed && s.phase.Running? && f.kind in {'P', 'B', 'C'}
    ensures var s' := Process(s, f, w, lib);
            && s'.trace == s.trace + reply && !s'.closed
            && if s'.phase.Crashed? then reply == []
               else s'.phase.Running? && Answers(f.kind, reply) && |reply| == 1 && !reply[0].ReadyForQuery?
  {
    hide F.ReadParse, F.ReadBind, F.ReadClose, NoStatement, ReadReport, ErrorFields, Simple, Executed, DescribedAs;
    reply := Process(s, f, w, lib).trace[|s.trace|..];
  }

  /** One frame, one reply in the language of its kind, unless the step drops
      the connection, and then nothing at all, or panics, and then at most the
      beginning of a row set. */
  lemma StepReply(s: Session, f: Frame, w: World, lib: Library) returns (reply: seq<Reply>)
    requires !s.closed && s.phase.Running?
    ensures var s' := Process(s, f, w, lib);
            && s'.trace == s.trace + reply
            && (s'.phase.Ended? <==> f.kind == 'X')
            && if s'.closed then reply == [] && s'.phase.Running?
               else if s'.phase.Crashed? then Unfinished(reply)
               else Answers(f.kind, reply) && OneStatus(reply, s'.status)
  {
    hide Simple, Executed, DescribedAs, Parsed, Bound, Forgotten, Outcome, Closed, Description, Unfinished;
    NothingUnfinished();
    match f.kind
    case 'Q' =>
      reply := SimpleReply(s, f.payload, w, lib);
    case 'E' =>
      reply := ExecutedReply(s, f.payload, w, lib);
      var s' := Executed(s, f.payload, w, lib);
      if !s'.closed && s'.phase.Running? {
        OutcomeHasNoStatus(reply);
      }
    case 'D' =>
      reply := DescribedReply(s, f.payload, w, lib);
      DescriptionHasNoStatus(reply);
    case 'P' =>
      reply := ShortReply(s, f, w, lib);
    case 'B' =>
      reply := ShortReply(s, f, w, lib);
    case 'C' =>
      reply := ShortReply(s, f, w, lib);
    case 'X' =>
      reply := [];
    case 'H' =>
      reply := [];
    case _ =>
      reply := [ReadyForQuery(s.status)];
  }

  lemma NothingUnfinished()
    ensures Unfinished([])
  {
  }

  lemma DescriptionHasNoStatus(r: seq<Reply>)
    requires Description(r)
    ensures forall i :: 0 <= i < |r| ==> !r[i].ReadyForQuery?
  {
  }

  // ---------- One reply for each request of a run ----------

  /** The frames a session takes in: up to the first Terminate. */
  function Served(frames: seq<Frame>): seq<Frame> {
    if frames == [] then []
    else if frames[0].kind == 'X' then [frames[0]]
    else [frames[0]] + Served(frames[1..])
  }

  function Kinds(frames: seq<Frame>): (ks: seq<byte>)
    ensures |ks| == |frames|
  {
    seq(|frames|, i requires 0 <= i < |frames| => frames[i].kind)
  }

  lemma {:induction false} ClosedStaysSilent(s: Session, frames: seq<Frame>, w: World, lib: Library)
    requires s.closed
    ensures Run(s, frames, w, lib).closed && Run(s, frames, w, lib).trace == s.trace
    decreases |frames|
  {
    hide Process;
    if frames != [] && s.phase.Running? {
      ClosedStep(s, frames[0], w, lib);
      ClosedStaysSilent(Process(s, frames[0], w, lib), frames[1..], w, lib);
    }
  }

  lemma ClosedStep(s: Session, f: Frame, w: World, lib: Library)
    requires s.closed
    ensures Process(s, f, w, lib).closed && Process(s, f, w, lib).trace == s.trace
  {
    hide Respond, Announced, Simple, Executed, DescribedAs, F.ReadParse, F.ReadBind, F.ReadClose;
    hide ReadReport, NoStatement, Report;
    match f.kind
    case 'Q' => ClosedQuery(s, f.payload, w, lib);
    case 'E' => ClosedExecute(s, f.payload, w, lib);
    case 'D' => ClosedDescribe(s, f.payload, w, lib);
    case _ =>
  }

  lemma ClosedRespond(s: Session, a: Answered, formats: seq<int>, lib: Library)
    requires s.closed
    ensures Respond(s, a, formats, lib).closed && Respond(s, a, formats, lib).trace == s.trace
  {
  }

  lemma ClosedQuery(s: Session, payload: Text, w: World, lib: Library)
    requires s.closed
    ensures Simple(s, payload, w, lib).closed && Simple(s, payload, w, lib).trace == s.trace
  {
    hide Respond, TxAfter, TrimSpace, F.ReadQuery;
    var query := TrimSpace(F.ReadQuery(payload));
    var s1 := s.(queries := s.queries + 1, status := TxAfter(query, s.status));
    ClosedRespond(Ask(s1, query, []), w(|s.asked|), [], lib);
  }

  lemma ClosedExecute(s: Session, payload: Text, w: World, lib: Library)
    requires s.closed
    ensures Executed(s, payload, w, lib).closed && Executed(s, payload, w, lib).trace == s.trace
  {
    hide Respond, F.ReadExecute, ReadReport, NoCursor, Report;
    match F.ReadExecute(payload)
    case Got(m, _) =>
      var portal := PortalIn(s.portals, m.portal);
      var s1 := s.(queries := s.queries + 1);
      ClosedRespond(Ask(s1, QueryOf(portal.stmt), portal.params), w(|s.asked|), portal.formats, lib);
    case _ =>
  }

  lemma ClosedDescribe(s: Session, payload: Text, w: World, lib: Library)
    requires s.closed
    ensures DescribedAs(s, payload, w, lib).closed && DescribedAs(s, payload, w, lib).trace == s.trace
  {
    hide F.ReadDescribe, ReadReport, NoStatement, NoCursor, Report;
  }

  lemma {:induction false} NotRunningStays(s: Session, frames: seq<Frame>, w: World, lib: Library)
    requires !s.phase.Running?
    ensures Run(s, frames, w, lib) == s
  {
  }

  /** The trace of a run is what was there, and then one reply for each request
      in order. On a dropped connection the replies stop short, each whole; a
      panic may leave the beginning of one more. */
  ghost predicate Replied(s: Session, frames: seq<Frame>, parts: seq<seq<Reply>>, tail: seq<Reply>,
                          w: World, lib: Library)
  {
    var s' := Run(s, frames, w, lib);
    && |parts| <= |Served(frames)|
    && (!s'.closed && !s'.phase.Crashed? ==> |parts| == |Served(frames)|)
    && SplitsInto(Kinds(Served(frames)[..|parts|]), parts)
    && s'.trace == s.trace + Flatten(parts) + tail
    && Unfinished(tail) && (tail != [] ==> s'.phase.Crashed? && !s'.closed)
    && forall i :: 0 <= i < |parts| ==> Follows(s, Served(frames)[..i + 1], parts[i], w, lib)
  }

  lemma {:induction false} RunReplies(s: Session, frames: seq<Frame>, w: World, lib: Library)
    returns (parts: seq<seq<Reply>>, tail: seq<Reply>)
    requires !s.closed && s.phase.Running?
    ensures Replied(s, frames, parts, tail, w, lib)
    decreases |frames|
  {
    hide Process, Answers, OneStatus, Replied, Unfinished;
    parts, tail := [], [];
    NothingUnfinished();
    NoReplies(s, frames, tail, w, lib);
    if frames != [] {
      var s1 := Process(s, frames[0], w, lib);
      if !s1.phase.Running? {
        NotRunningStays(s1, frames[1..], w, lib);
      }
      var reply := StepReply(s, frames[0], w, lib);
      if s1.closed {
        ClosedStaysSilent(s1, frames[1..], w, lib);
      } else if s1.phase.Ended? {
        parts := [reply];
        LastReply(s, frames, reply, w, lib);
      } else if s1.phase.Crashed? {
        tail := reply;
        NoReplies(s, frames, tail, w, lib);
      } else {
        var rest;
        rest, tail := RunReplies(s1, frames[1..], w, lib);
        parts := [reply] + rest;
        RepliedCons(s, frames, reply, rest, tail, w, lib);
      }
    }
  }

  lemma NoReplies(s: Session, frames: seq<Frame>, tail: seq<Reply>, w: World, lib: Library)
    requires Unfinished(tail)
    ensures var s' := Run(s, frames, w, lib);
            && s'.trace == s.trace + tail
            && (tail != [] ==> s'.phase.Crashed? && !s'.closed)
            && (s'.closed || s'.phase.Crashed? || frames == [])
            ==> Replied(s, frames, [], tail, w, lib)
  {
    hide Unfinished;
    assert s.trace + Flatten([]) == s.trace;
  }

  lemma LastReply(s: Session, frames: seq<Frame>, reply: seq<Reply>, w: World, lib: Library)
    requires frames != [] && frames[0].kind == 'X' && s.phase.Running? && Answers('X', reply)
    requires Run(s, frames, w, lib).trace == s.trace + reply
    ensures Replied(s, frames, [reply], [], w, lib)
  {
    hide Run;
    assert s.trace + [] + [] == s.trace;
    assert reply == [];
    assert [reply][1..] == [] && Flatten([reply]) == [];
    assert Served(frames) == [frames[0]];
    assert Served(frames)[..1] == [frames[0]];
  }

  lemma RepliedCons(s: Session, frames: seq<Frame>, reply: seq<Reply>, rest: seq<seq<Reply>>, tail: seq<Reply>,
                    w: World, lib: Library)
    requires frames != [] && frames[0].kind != 'X' && s.phase.Running?
    requires var s1 := Process(s, frames[0], w, lib);
             && s1.phase.Running? && s1.trace == s.trace + reply && OneStatus(reply, s1.status)
             && Replied(s1, frames[1..], rest, tail, w, lib)
    requires Answers(frames[0].kind, reply)
    ensures Replied(s, frames, [reply] + rest, tail, w, lib)
  {
    hide Process, Answers, OneStatus, Follows, Unfinished, SplitsInto;
    var parts := [reply] + rest;
    var v := Served(frames[1..]);
    assert parts[1..] == rest;
    assert s.trace + reply + Flatten(rest) + tail == s.trace + (reply + Flatten(rest)) + tail;
    assert Served(frames)[..|parts|] == [frames[0]] + v[..|rest|];
    SplitsCons(frames[0], v[..|rest|], reply, rest);
    forall i | 0 <= i < |parts|
      ensures Follows(s, Served(frames)[..i + 1], parts[i], w, lib)
    {
      assert Served(frames)[..i + 1] == [frames[0]] + v[..i];
      FollowsAt(s, frames[0], v, reply, rest, w, lib, i);
    }
  }

  lemma SplitsCons(f: Frame, v: seq<Frame>, reply: seq<Reply>, rest: seq<seq<Reply>>)
    requires Answers(f.kind, reply) && SplitsInto(Kinds(v), rest)
    ensures SplitsInto(Kinds([f] + v), [reply] + rest)
  {
    hide Answers;
    assert Kinds([f] + v)[1..] == Kinds(v);
    assert ([reply] + rest)[1..] == rest;
  }

  lemma FollowsAt(s: Session, f: Frame, v: seq<Frame>, reply: seq<Reply>, rest: seq<seq<Reply>>,
                  w: World, lib: Library, i: nat)
    requires s.phase.Running? && |rest| <= |v| && i <= |rest|
    requires var s1 := Process(s, f, w, lib);
             && s1.phase.Running? && OneStatus(reply, s1.status)
             && forall k :: 0 <= k < |rest| ==> Follows(s1, v[..k + 1], rest[k], w, lib)
    ensures Follows(s, [f] + v[..i], ([reply] + rest)[i], w, lib)
  {
    hide Process, OneStatus, Follows;
    if i == 0 {
      assert [f] + v[..0] == [f];
      FollowsFirst(s, f, reply, w, lib);
    } else {
      FollowsLater(s, f, v[..i], rest[i - 1], w, lib);
    }
  }

  /** A reply that says anything leaves the session running, with the status it
      tells the client. */
  ghost predicate Follows(s: Session, served: seq<Frame>, reply: seq<Reply>, w: World, lib: Library) {
    reply != [] ==>
      && Run(s, served, w, lib).phase.Running?
      && OneStatus(reply, Run(s, served, w, lib).status)
  }

  lemma FollowsFirst(s: Session, f: Frame, reply: seq<Reply>, w: World, lib: Library)
    requires s.phase.Running?
    requires reply != [] ==> Process(s, f, w, lib).phase.Running? && OneStatus(reply, Process(s, f, w, lib).status)
    ensures Follows(s, [f], reply, w, lib)
  {
    hide Process, OneStatus;
    assert [f][1..] == [];
    assert Run(Process(s, f, w, lib), [], w, lib) == Process(s, f, w, lib);
    assert Run(s, [f], w, lib) == Process(s, f, w, lib);
  }

  lemma FollowsLater(s: Session, f: Frame, served: seq<Frame>, reply: seq<Reply>, w: World, lib: Library)
    requires s.phase.Running? && Follows(Process(s, f, w, lib), served, reply, w, lib)
    ensures Follows(s, [f] + served, reply, w, lib)
  {
    hide Process, OneStatus;
    assert ([f] + served)[1..] == served;
  }

  // ---------- Runs that come through ----------

  /** A Bind whose counts are not negative; no other message can panic by how
      it is written. */
  predicate Readable(f: Frame) {
    f.kind == 'B' ==> !F.NegativeCount(f.payload)
  }

  ghost predicate AllReadable(frames: seq<Frame>) {
    forall i :: 0 <= i < |frames| ==> Readable(frames[i])
  }

  /** The answer gets through as a whole: no drop and no cell that panics. */
  ghost predicate GetsThrough(a: Answered) {
    !a.rule.dropConnection && Steady(a)
  }

  function NoAnswer(n: nat): Answered {
    Answered(Plain([], [], [], [], []), 0, (r, c) => None)
  }

  /** A frame is served by the answer to a match: a query that is not empty, an
      Execute of a portal there is. A Describe looks at the rule only. */
  predicate Responds(s: Session, f: Frame, lib: Library) {
    f.kind in {'Q', 'E'} && Process(s, f, NoAnswer, lib).asked != s.asked
  }

  /** The numbers of the matches whose answers a session sends, told from its
      frames alone: every match is taken to answer nothing. */
  function Responses(s: Session, frames: seq<Frame>, lib: Library): set<nat>
    decreases |frames|
  {
    if frames == [] || !s.phase.Running? then {}
    else
      (if Responds(s, frames[0], lib) then {|s.asked|} else {}) +
      Responses(Process(s, frames[0], NoAnswer, lib), frames[1..], lib)
  }

  ghost predicate Lasting(s: Session, frames: seq<Frame>, w: World, lib: Library) {
    forall n :: n in Responses(s, frames, lib) ==> GetsThrough(w(n))
  }

  /** Two sessions at the same point of the same conversation. */
  predicate Alike(s: Session, t: Session) {
    s.stmts == t.stmts && s.portals == t.portals && s.phase == t.phase && s.asked == t.asked
  }

  predicate Up(s: Session) {
    !s.closed && !s.phase.Crashed?
  }

  lemma RespondUpIff(s: Session, a: Answered, formats: seq<int>, lib: Library)
    requires s.phase.Running? && !s.closed
    ensures var s1 := Respond(s, a, formats, lib);
            && (Up(s1) <==> GetsThrough(a))
            && (Up(s1) ==> s1.phase.Running?)
            && s1.stmts == s.stmts && s1.portals == s.portals && s1.asked == s.asked
  {
    hide RowsUpTo, FieldsOf, TagOf, RuleReport, Report, Steady, Fails;
    RespondCrashesIff(s, a, formats, lib);
    if a.rule.dropConnection {
    } else if Fails(a.rule, a.hits) {
    } else if a.rule.columns == [] {
    }
  }

  lemma RespondAlike(s: Session, t: Session, a: Answered, n: nat, formats: seq<int>, lib: Library)
    requires s.phase.Running? && !s.closed && Alike(s, t)
    ensures Up(Respond(s, a, formats, lib)) <==> GetsThrough(a)
    ensures Up(Respond(s, a, formats, lib)) ==> Alike(Respond(s, a, formats, lib), Respond(t, NoAnswer(n), formats, lib))
    ensures Respond(t, NoAnswer(n), formats, lib).asked == t.asked
  {
    hide RowsUpTo, FieldsOf, TagOf, RuleReport, Report, GetsThrough, Respond;
    RespondUpIff(s, a, formats, lib);
    NothingSent(t, n, formats, lib);
  }

  lemma NothingSent(t: Session, n: nat, formats: seq<int>, lib: Library)
    ensures Alike(Respond(t, NoAnswer(n), formats, lib), t)
  {
  }

  lemma QueryUpIff(s: Session, t: Session, f: Frame, w: World, lib: Library)
    requires f.kind == 'Q' && s.phase.Running? && !s.closed && Alike(s, t)
    ensures Up(Process(s, f, w, lib)) <==> (Responds(t, f, lib) ==> GetsThrough(w(|t.asked|)))
    ensures Up(Process(s, f, w, lib)) ==> Alike(Process(s, f, w, lib), Process(t, f, NoAnswer, lib))
    ensures Up(Process(s, f, w, lib)) ==> Process(s, f, w, lib).phase.Running?
  {
    hide Respond, F.ReadQuery, TrimSpace, TxAfter, GetsThrough, Ready, NoAnswer;
    var query := TrimSpace(F.ReadQuery(f.payload));
    var s0, t0 := s.(queries := s.queries + 1), t.(queries := t.queries + 1);
    if IsEmptyQuery(query) {
      ReadyLeaves(Send(s0, EmptyQueryResponse));
      ReadyLeaves(Send(t0, EmptyQueryResponse));
    } else {
      var s1 := Ask(s0.(status := TxAfter(query, s.status)), query, []);
      var t1 := Ask(t0.(status := TxAfter(query, t.status)), query, []);
      RespondAlike(s1, t1, w(|s.asked|), |t.asked|, [], lib);
      RespondUpIff(s1, w(|s.asked|), [], lib);
      ReadyLeaves(Respond(s1, w(|s.asked|), [], lib));
      ReadyLeaves(Respond(t1, NoAnswer(|t.asked|), [], lib));
    }
  }

  lemma ReadyLeaves(s: Session)
    ensures Alike(Ready(s), s) && Ready(s).closed == s.closed
  {
  }

  lemma ExecuteUpIff(s: Session, t: Session, f: Frame, w: World, lib: Library)
    requires f.kind == 'E' && s.phase.Running? && !s.closed && Alike(s, t)
    ensures Up(Process(s, f, w, lib)) <==> (Responds(t, f, lib) ==> GetsThrough(w(|t.asked|)))
    ensures Up(Process(s, f, w, lib)) ==> Alike(Process(s, f, w, lib), Process(t, f, NoAnswer, lib))
    ensures Up(Process(s, f, w, lib)) ==> Process(s, f, w, lib).phase.Running?
  {
    hide Respond, F.ReadExecute, ReadReport, NoCursor, Report, GetsThrough, NoAnswer;
    F.OnlyBindPanics(f.payload);
    var r := F.ReadExecute(f.payload);
    if r.Got? && (r.value.portal in s.portals || r.value.portal == []) {
      var portal := PortalIn(s.portals, r.value.portal);
      var s1 := Ask(s.(queries := s.queries + 1), QueryOf(portal.stmt), portal.params);
      var t1 := Ask(t.(queries := t.queries + 1), QueryOf(portal.stmt), portal.params);
      RespondAlike(s1, t1, w(|s.asked|), |t.asked|, portal.formats, lib);
      RespondUpIff(s1, w(|s.asked|), portal.formats, lib);
    }
  }

  lemma DescribeAlike(s: Session, t: Session, payload: Text, w: World, lib: Library)
    requires s.phase.Running? && !s.closed && Alike(s, t)
    ensures var s1 := DescribedAs(s, payload, w, lib);
            !s1.closed && s1.phase.Running? && Alike(s1, DescribedAs(t, payload, NoAnswer, lib))
  {
    hide F.ReadDescribe, ReadReport, NoStatement, NoCursor, Report, NoAnswer, Announced;
    F.OnlyBindPanics(payload);
    var r := F.ReadDescribe(payload);
    if r.Got? {
      if r.value.target == 'S' {
        var stmt := StatementIn(s.stmts, r.value.name);
        var t0 := ParameterDescription(if stmt.Some? then stmt.value.paramOIDs else []);
        AnnouncedAlike(Send(s, t0), Send(t, t0), QueryOf(stmt), [], w);
      } else if r.value.target == 'P' {
        var portal := PortalIn(s.portals, r.value.name);
        AnnouncedAlike(s, t, QueryOf(portal.stmt), portal.formats, w);
      } else {
        AnnouncedAlike(s, t, [], [], w);
      }
    }
  }

  lemma AnnouncedAlike(s: Session, t: Session, query: Text, formats: seq<int>, w: World)
    requires Alike(s, t)
    ensures var s1 := Announced(s, query, formats, w);
            s1.closed == s.closed && s1.phase == s.phase && Alike(s1, Announced(t, query, formats, NoAnswer))
  {
    hide FieldsOf, NoAnswer;
  }

  lemma ShortUpIff(s: Session, t: Session, f: Frame, w: World, lib: Library)
    requires f.kind in {'P', 'B', 'C'} && s.phase.Running? && !s.closed && Alike(s, t)
    ensures Up(Process(s, f, w, lib)) <==> Readable(f)
    ensures Alike(Process(s, f, w, lib), Process(t, f, NoAnswer, lib))
    ensures Up(Process(s, f, w, lib)) ==> Process(s, f, w, lib).phase.Running?
  {
    hide F.NegativeCount, NoAnswer, Parsed, Bound, Forgotten, Simple, Executed, DescribedAs;
    match f.kind
    case 'P' => ParseAlike(s, t, f.payload);
    case 'B' => BindAlike(s, t, f.payload, lib);
    case 'C' => CloseAlike(s, t, f.payload);
  }

  lemma ParseAlike(s: Session, t: Session, payload: Text)
    requires s.phase.Running? && !s.closed && Alike(s, t)
    ensures Parsed(s, payload).phase.Running? && !Parsed(s, payload).closed && Alike(Parsed(s, payload), Parsed(t, payload))
  {
    hide F.ReadParse, ReadReport, Report;
    F.OnlyBindPanics(payload);
  }

  lemma BindAlike(s: Session, t: Session, payload: Text, lib: Library)
    requires s.phase.Running? && !s.closed && Alike(s, t)
    ensures !Bound(s, payload, lib).closed && Alike(Bound(s, payload, lib), Bound(t, payload, lib))
    ensures Bound(s, payload, lib).phase == if F.NegativeCount(payload) then Crashed else Running
  {
    hide F.ReadBind, F.NegativeCount, NoStatement, ReadReport, Report;
    F.BindPanicsIff(payload);
  }

  lemma CloseAlike(s: Session, t: Session, payload: Text)
    requires s.phase.Running? && !s.closed && Alike(s, t)
    ensures Forgotten(s, payload).phase.Running? && !Forgotten(s, payload).closed && Alike(Forgotten(s, payload), Forgotten(t, payload))
  {
    hide F.ReadClose;
  }

  lemma StepUpIff(s: Session, t: Session, f: Frame, w: World, lib: Library)
    requires s.phase.Running? && !s.closed && Alike(s, t)
    ensures Up(Process(s, f, w, lib)) <==> Readable(f) && (Responds(t, f, lib) ==> GetsThrough(w(|t.asked|)))
    ensures Up(Process(s, f, w, lib)) ==> Alike(Process(s, f, w, lib), Process(t, f, NoAnswer, lib))
    ensures Up(Process(s, f, w, lib)) ==> Process(s, f, w, lib).phase == if f.kind == 'X' then Ended else Running
  {
    hide Simple, Executed, DescribedAs, Parsed, Bound, Forgotten, GetsThrough, Ready, F.NegativeCount;
    match f.kind
    case 'Q' => QueryUpIff(s, t, f, w, lib);
    case 'E' => ExecuteUpIff(s, t, f, w, lib);
    case 'D' => DescribeAlike(s, t, f.payload, w, lib);
    case 'P' => ShortUpIff(s, t, f, w, lib);
    case 'B' => ShortUpIff(s, t, f, w, lib);
    case 'C' => ShortUpIff(s, t, f, w, lib);
    case 'X' =>
    case 'H' =>
    case _ =>
      ReadyLeaves(s);
      ReadyLeaves(t);
  }

  lemma {:induction false} DownStays(s: Session, frames: seq<Frame>, w: World, lib: Library)
    requires !Up(s)
    ensures !Up(Run(s, frames, w, lib))
  {
    if s.closed {
      ClosedStaysSilent(s, frames, w, lib);
    } else {
      NotRunningStays(s, frames, w, lib);
    }
  }

  lemma {:induction false} RunUpIff(s: Session, t: Session, frames: seq<Frame>, w: World, lib: Library)
    requires s.phase.Running? && !s.closed && Alike(s, t)
    ensures Up(Run(s, frames, w, lib)) <==> AllReadable(Served(frames)) && Lasting(t, frames, w, lib)
    ensures Up(Run(s, frames, w, lib)) ==>
              Run(s, frames, w, lib).phase == if exists i :: 0 <= i < |frames| && frames[i].kind == 'X' then Ended else Running
    decreases |frames|
  {
    hide Process, Readable, GetsThrough, Responds;
    if frames != [] {
      var f := frames[0];
      var s1, t1 := Process(s, f, w, lib), Process(t, f, NoAnswer, lib);
      StepUpIff(s, t, f, w, lib);
      ServedSplits(frames);
      if !Up(s1) {
        DownStays(s1, frames[1..], w, lib);
        assert Responds(t, f, lib) ==> |t.asked| in Responses(t, frames, lib);
      } else if f.kind == 'X' {
        NotRunningStays(s1, frames[1..], w, lib);
        assert Responses(t1, frames[1..], lib) == {};
      } else {
        RunUpIff(s1, t1, frames[1..], w, lib);
        assert forall i :: 1 <= i < |frames| ==> frames[i] == frames[1..][i - 1];
        assert (exists i :: 0 <= i < |frames| && frames[i].kind == 'X') <==>
               (exists i :: 0 <= i < |frames[1..]| && frames[1..][i].kind == 'X') by {
          if i :| 0 <= i < |frames| && frames[i].kind == 'X' {
            assert frames[1..][i - 1].kind == 'X';
          }
        }
      }
    }
  }

  lemma ServedSplits(frames: seq<Frame>)
    requires frames != []
    ensures AllReadable(Served(frames)) <==>
            Readable(frames[0]) && (frames[0].kind != 'X' ==> AllReadable(Served(frames[1..])))
  {
    hide Readable, AllReadable;
    if frames[0].kind == 'X' {
      ReadableCons(frames[0], []);
      assert [frames[0]] + [] == [frames[0]];
    } else {
      ReadableCons(frames[0], Served(frames[1..]));
    }
  }

  lemma ReadableCons(f: Frame, rest: seq<Frame>)
    ensures AllReadable([f] + rest) <==> Readable(f) && AllReadable(rest)
    ensures AllReadable([])
  {
    hide Readable;
    var all := [f] + rest;
    assert forall i :: 0 <= i < |rest| ==> rest[i] == all[i + 1];
    assert forall i :: 1 <= i < |all| ==> all[i] == rest[i - 1];
    assert all[0] == f;
  }

  /** Whether a run comes through can be told beforehand: it is neither dropped
      nor crashes exactly when no Bind it serves has a negative count and no
      answer it sends drops or has a cell that does not render; then it ends only
      with a Terminate. */
  lemma RunLastsIff(s: Session, frames: seq<Frame>, w: World, lib: Library)
    requires s.phase.Running? && !s.closed
    ensures var end := Run(s, frames, w, lib);
            && (!end.closed && !end.phase.Crashed? <==> AllReadable(Served(frames)) && Lasting(s, frames, w, lib))
            && (!end.closed && !end.phase.Crashed? ==>
                 (end.phase.Ended? <==> exists i :: 0 <= i < |frames| && frames[i].kind == 'X'))
  {
    hide Run, Lasting, AllReadable, Served;
    RunUpIff(s, s, frames, w, lib);
  }

  /** Such a run answers every request it served, and the requests determine
      which part of the trace answers which. */
  lemma RepliesAreDetermined(t0: seq<Reply>, frames: seq<Frame>, w: World, lib: Library) returns (parts: seq<seq<Reply>>)
    requires Lasting(Start(t0), frames, w, lib) && AllReadable(Served(frames))
    ensures SplitsInto(Kinds(Served(frames)), parts)
    ensures Run(Start(t0), frames, w, lib).trace == t0 + Flatten(parts)
    ensures forall others :: SplitsInto(Kinds(Served(frames)), others) && t0 + Flatten(others) == t0 + Flatten(parts) ==> others == parts
    ensures Readies(Run(Start(t0), frames, w, lib).trace) == Readies(t0) + Turns(Kinds(Served(frames)))
  {
    hide Run, Answers, Turns, Readies, Flatten, Lasting, AllReadable, Follows;
    RunLastsIff(Start(t0), frames, w, lib);
    var tail;
    parts, tail := RunReplies(Start(t0), frames, w, lib);
    assert Served(frames)[..|parts|] == Served(frames);
    assert t0 + Flatten(parts) + [] == t0 + Flatten(parts);
    forall others | SplitsInto(Kinds(Served(frames)), others) && t0 + Flatten(others) == t0 + Flatten(parts)
      ensures others == parts
    {
      assert Flatten(others) == (t0 + Flatten(others))[|t0|..];
      assert Flatten(parts) == (t0 + Flatten(parts))[|t0|..];
      SplitIsUnique(Kinds(Served(frames)), others, parts);
    }
    ReadiesAppend(t0, Flatten(parts));
    ReadiesOfSplit(Kinds(Served(frames)), parts);
  }
}
