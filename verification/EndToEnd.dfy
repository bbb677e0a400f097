/** A connection from both ends: what a client writes, what the server makes of
    it, and what the client reads back. */
module EndToEnd {
  import opened Text
  import opened Wire
  import opened Backend
  import opened Sessions
  import opened Replies
  import opened Conversations
  import opened Handlers
  import opened Legibility
  import F = Frontend

  lemma StatusesAreNotReady(table: map<Text, Text>, order: seq<Text>)
    requires forall i :: 0 <= i < |order| ==> order[i] in table
    ensures Readies(Statuses(table, order)) == 0
  {
    NoReadies(Statuses(table, order));
  }

  lemma OneMessage(m: Reply)
    ensures Readies([m]) == if m.ReadyForQuery? then 1 else 0
  {
    assert [m][1..] == [];
  }

  /** The greeting ends in its only ReadyForQuery. */
  lemma GreetingIsReadyOnce(trace: seq<Reply>, order: seq<Text>)
    requires Greets(trace, order)
    ensures Readies(trace) == 1 && trace[|trace| - 1] == ReadyForQuery(IDLE)
  {
    hide StandardParameters, Statuses;
    assert Lists(StandardParameters(), {}, order);
    var middle := Statuses(StandardParameters(), order);
    var tail := [BackendKeyData(PID, SECRET), ReadyForQuery(IDLE)];
    StatusesAreNotReady(StandardParameters(), order);
    ReadiesAppend([AuthOk] + middle, tail);
    ReadiesAppend([AuthOk], middle);
    OneMessage(AuthOk);
    OneMessage(tail[1]);
    assert tail[1..] == [tail[1]];
  }

  /** Version, encoding and string syntax are among the parameters told. */
  predicate TellsDrivers(trace: seq<Reply>) {
    && ParameterStatus("server_version", "16.2 (PGWire-Mock)") in trace
    && ParameterStatus("client_encoding", "UTF8") in trace
    && ParameterStatus("standard_conforming_strings", "on") in trace
  }

  /** What the greeting says: authentication is over, the parameters drivers look
      at, and the key; then that the server is idle. */
  lemma GreetingSays(trace: seq<Reply>, order: seq<Text>)
    requires Greets(trace, order)
    ensures |trace| >= 3 && trace[0] == AuthOk
    ensures trace[|trace| - 2] == BackendKeyData(1000, 4242) && trace[|trace| - 1] == ReadyForQuery('I')
    ensures TellsDrivers(trace)
  {
    hide StandardParameters, Statuses;
    ParameterTable();
    StatusIn(trace, order, "server_version");
    StatusIn(trace, order, "client_encoding");
    StatusIn(trace, order, "standard_conforming_strings");
  }

  lemma ParameterTable()
    ensures var t := StandardParameters();
            && "server_version" in t && t["server_version"] == "16.2 (PGWire-Mock)"
            && "client_encoding" in t && t["client_encoding"] == "UTF8"
            && "standard_conforming_strings" in t && t["standard_conforming_strings"] == "on"
  {
  }

  lemma StatusIn(trace: seq<Reply>, order: seq<Text>, k: Text)
    requires Greets(trace, order)
    ensures k in StandardParameters() ==> ParameterStatus(k, StandardParameters()[k]) in trace
  {
    hide StandardParameters;
    if k in StandardParameters() {
      var i :| 0 <= i < |order| && order[i] == k;
      assert trace[i + 1] == Statuses(StandardParameters(), order)[i];
    }
  }

  const SSL_PACKET: Text := Be32(8) + Be32(80877103)

  lemma SSLOpens(rest: Text)
    ensures F.ReadStartup(SSL_PACKET + rest) == F.SSL(rest)
  {
    hide F.ReadStartup, Be32;
    F.StartupOpens(8, 80877103, rest);
    assert SSL_PACKET + rest == Be32(8) + (Be32(80877103) + rest);
  }

  /** A client that asks for encryption is refused once and can go on in the clear;
      one that asks again gets no session. */
  lemma EncryptionIsRefusedOnce(pairs: F.Pairs, rest: Text)
    requires F.PairsFit(pairs) && |F.EncodeStartup(pairs)| <= 10000
    ensures Opening(SSL_PACKET + (F.EncodeStartup(pairs) + rest)) == (true, F.Ready(F.MapOf(pairs, map[]), rest))
    ensures Opening(F.EncodeStartup(pairs) + rest) == (false, F.Ready(F.MapOf(pairs, map[]), rest))
    ensures Opening(SSL_PACKET + (SSL_PACKET + rest)) == (true, F.SSL(rest))
  {
    hide F.ReadStartup, F.EncodeStartup, SSL_PACKET;
    F.StartupBack(pairs, rest);
    SSLOpens(F.EncodeStartup(pairs) + rest);
    SSLOpens(SSL_PACKET + rest);
    SSLOpens(rest);
  }

  /** Well-formed messages never make the server panic by how they are written. */
  lemma WellFormedIsReadable(ms: seq<F.Message>)
    requires F.AllWellFormed(ms)
    ensures AllReadable(Served(F.FramesOf(ms)))
  {
    hide F.ReadPayload, F.WellFormed, F.Payload, Served;
    forall i | 0 <= i < |ms|
      ensures Readable(F.FrameOf(ms[i]))
    {
      F.PayloadBack(ms[i]);
      BindIsRead(F.FrameOf(ms[i]));
    }
    ServedIsPrefix(F.FramesOf(ms));
  }

  lemma BindIsRead(f: Frame)
    requires F.ReadPayload(f.kind, f.payload).Got?
    ensures Readable(f)
  {
    hide F.ReadBind, F.NegativeCount;
    F.BindPanicsIff(f.payload);
  }

  lemma {:induction false} ServedIsPrefix(frames: seq<Frame>)
    ensures Served(frames) <= frames
  {
    if frames != [] && frames[0].kind != 'X' {
      ServedIsPrefix(frames[1..]);
    }
  }

  /** What a client that opens with these parameters and sends these messages
      gets, if no rule drops or panics: the greeting, one reply for each message
      up to Terminate, cut in the only way the messages allow, one ReadyForQuery
      for each turn, and a byte stream that decodes to just that exactly when
      every message fits its format, as it does when the rules are legible. */
  lemma ClientSeesReplies(m: map<Text, Text>, pairs: F.Pairs, ms: seq<F.Message>,
                          greeting: seq<Reply>, order: seq<Text>, w: World, lib: Library)
    returns (parts: seq<seq<Reply>>)
    requires F.PairsFit(pairs) && |F.EncodeStartup(pairs)| <= 10000 && F.AllWellFormed(ms)
    requires forall i :: 0 <= i < |pairs| ==> pairs[i].0 in m && m[pairs[i].0] == pairs[i].1
    requires forall k :: k in m ==> exists i :: 0 <= i < |pairs| && pairs[i].0 == k
    requires Greets(greeting, order)
    requires Lasting(Start(greeting), F.FramesOf(ms), w, lib)
    ensures Opening(F.EncodeStartup(pairs) + F.Stream(ms)) == (false, F.Ready(m, F.Stream(ms)))
    ensures AfterGreeting(greeting, F.Stream(ms), w, lib) == Run(Start(greeting), F.FramesOf(ms), w, lib)
    ensures var kinds := Kinds(Served(F.FramesOf(ms)));
            var trace := AfterGreeting(greeting, F.Stream(ms), w, lib).trace;
            && SplitsInto(kinds, parts) && trace == greeting + Flatten(parts)
            && (forall others :: SplitsInto(kinds, others) && greeting + Flatten(others) == trace ==> others == parts)
            && Readies(trace) == 1 + Turns(kinds)
            && (AllCountable(trace) ==>
                 && (Decode(EncodeAll(trace)) == greeting + Flatten(parts) <==> AllFitReplies(trace))
                 && (Legible(w, lib) ==> Decode(EncodeAll(trace)) == greeting + Flatten(parts)))
  {
    hide Run, Answers, Turns, Readies, Flatten, Served, Greets, F.EncodeStartup, F.Stream, F.ReadStartup, F.Frames;
    hide EncodeAll, Decode;
    hide F.ReadPayload, F.WellFormed, F.Ending, Fits, Countable, Lasting, AllReadable, Legible, AllFitReplies;
    hide AllCountable;
    F.SessionInputBack(m, pairs, ms);
    F.WholeStreamEnds(ms);
    WellFormedIsReadable(ms);
    parts := RepliesAreDetermined(greeting, F.FramesOf(ms), w, lib);
    GreetingIsReadyOnce(greeting, order);
    var trace := Run(Start(greeting), F.FramesOf(ms), w, lib).trace;
    if AllCountable(trace) {
      TraceBackIff(trace);
      if Legible(w, lib) {
        LegibleSessionFits(greeting, order, F.FramesOf(ms), w, lib);
      }
    }
  }
}
