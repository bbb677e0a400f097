/** Frontend messages: how a client writes them (PostgreSQL 16 documentation,
    section 55.7) and how the server reads them, frame by frame. */
module Frontend {
  import opened Text
  import opened Wire

  datatype Message =
    | Query(query: Text)
    | Parse(statement: Text, query: Text, paramOIDs: seq<int>)
    | Bind(portal: Text, statement: Text, paramFormats: seq<int>, params: Params, resultFormats: seq<int>)
    | Describe(target: byte, name: Text)
    | Execute(portal: Text, maxRows: int)
    | Sync
    | Flush
    | Close(target: byte, name: Text)
    | Terminate
    | Unknown(kind: byte, payload: Text)

  const KNOWN: set<byte> := {'Q', 'P', 'B', 'D', 'E', 'S', 'H', 'C', 'X'}

  // ---------- Reading payloads ----------

  function ReadQuery(payload: Text): Text {
    payload[..Find(payload, NUL)]
  }

  /** A Parse without a parameter count is accepted; half a count is not. */
  function ReadParse(payload: Text): (r: Read<Message>)
    ensures r.Got? ==> r.value.Parse?
  {
    var (statement, s1) :- NullString(payload);
    var (query, s2) :- NullString(s1);
    match Int16(s2)
    case Failed(EOF) => Got(Parse(statement, query, []), s2)
    case Failed(e) => Failed(e)
    case Panicked => Panicked
    case Got(n, s3) =>
      if n <= 0 then Got(Parse(statement, query, []), s3)
      else
        var (oids, s4) :- Int32s(s3, n);
        Got(Parse(statement, query, oids), s4)
  }

  function ReadBind(payload: Text): (r: Read<Message>)
    ensures r.Got? ==> r.value.Bind?
  {
    var (portal, s1) :- NullString(payload);
    var (statement, s2) :- NullString(s1);
    var (nf, s3) :- Int16(s2);
    if nf < 0 then Panicked
    else
      var (formats, s4) :- Int16s(s3, nf);
      var (np, s5) :- Int16(s4);
      if np < 0 then Panicked
      else
        var (params, s6) :- Parameters(s5, np);
        var (results, s7) :- ResultFormats(s6);
        Got(Bind(portal, statement, formats, params, results), s7)
  }

  /** The result formats may be missing altogether. */
  function ResultFormats(s: Text): Read<seq<int>> {
    match Int16(s)
    case Got(n, s1) => if n > 0 then Int16s(s1, n) else Got([], s1)
    case _ => Got([], s)
  }

  function ReadDescribe(payload: Text): (r: Read<Message>)
    ensures r.Got? ==> r.value.Describe?
  {
    if payload == [] then Failed(EmptyDescribe)
    else
      var (name, s1) :- NullString(payload[1..]);
      Got(Describe(payload[0], name), s1)
  }

  function ReadExecute(payload: Text): (r: Read<Message>)
    ensures r.Got? ==> r.value.Execute?
  {
    var (portal, s1) :- NullString(payload);
    match Int32(s1)
    case Failed(EOF) => Got(Execute(portal, 0), s1)
    case Failed(e) => Failed(e)
    case Panicked => Panicked
    case Got(n, s2) => Got(Execute(portal, n), s2)
  }

  function ReadClose(payload: Text): (r: Read<Message>)
    ensures r.Got? ==> r.value.Close?
  {
    if payload == [] then Failed(EmptyClose)
    else
      var (name, s1) :- NullString(payload[1..]);
      Got(Close(payload[0], name), s1)
  }

  function ReadPayload(kind: byte, payload: Text): Read<Message> {
    match kind
    case 'Q' => Got(Query(ReadQuery(payload)), [])
    case 'P' => ReadParse(payload)
    case 'B' => ReadBind(payload)
    case 'D' => ReadDescribe(payload)
    case 'E' => ReadExecute(payload)
    case 'S' => Got(Sync, payload)
    case 'H' => Got(Flush, payload)
    case 'C' => ReadClose(payload)
    case 'X' => Got(Terminate, payload)
    case _ => Got(Unknown(kind, payload), [])
  }

  /** The readers of the other messages return an error where ReadBind may
      panic: only it makes a slice of a length it has not looked at. */
  lemma OnlyBindPanics(payload: Text)
    ensures !ReadParse(payload).Panicked? && !ReadDescribe(payload).Panicked?
    ensures !ReadExecute(payload).Panicked? && !ReadClose(payload).Panicked?
  {
    hide NullString, Int16, Int32, Int32s;
    StringsDoNotPanic();
    forall s: Text, n: nat
      ensures !Int32s(s, n).Panicked?
    {
      Int32sDoNotPanic(s, n);
    }
  }

  lemma StringsDoNotPanic()
    ensures forall s: Text :: !NullString(s).Panicked? && !Int16(s).Panicked? && !Int32(s).Panicked?
  {
  }

  lemma {:induction false} Int32sDoNotPanic(s: Text, n: nat)
    ensures !Int32s(s, n).Panicked?
    decreases n
  {
    hide Int32;
    StringsDoNotPanic();
    if n > 0 {
      var r := Int32(s);
      if r.Got? {
        Int32sDoNotPanic(r.rest, n - 1);
      }
    }
  }

  /** A 16-bit count at this place has its sign bit set. */
  predicate NegativeAt(s: Text, k: nat) {
    k + 2 <= |s| && s[k] as int >= 0x80
  }

  /** Behind the two names of a Bind, the number of parameter formats is negative,
      or behind as many formats the number of parameters is. */
  predicate NegativeCount(payload: Text) {
    var i := Find(payload, NUL);
    && i < |payload|
    && var rest := payload[i + 1..];
       var j := Find(rest, NUL);
       && j < |rest|
       && var counts := rest[j + 1..];
          NegativeAt(counts, 0) || (|counts| >= 2 && NegativeAt(counts, 2 + 2 * Uint16(counts)))
  }

  /** Reading a Bind panics exactly when one of its two counts is negative. */
  lemma BindPanicsIff(payload: Text)
    ensures ReadBind(payload).Panicked? <==> NegativeCount(payload)
  {
    hide Int16s, Parameters, ResultFormats, Find, Int16;
    forall s: Text
      ensures !ResultFormats(s).Panicked?
    {
      ResultFormatsDoNotPanic(s);
    }
    forall s: Text, n: nat
      ensures !Parameters(s, n).Panicked?
    {
      ParametersDoNotPanic(s, n);
    }
    var i := Find(payload, NUL);
    if i < |payload| {
      var rest := payload[i + 1..];
      var j := Find(rest, NUL);
      if j < |rest| {
        var counts := rest[j + 1..];
        SignBit(counts);
        if |counts| >= 2 && !NegativeAt(counts, 0) {
          Int16sRest(counts[2..], Uint16(counts));
          BehindFormats(counts, Uint16(counts));
        }
      }
    }
  }

  lemma SignBit(s: Text)
    ensures Int16(s).Got? <==> |s| >= 2
    ensures Int16(s).Got? ==> (Int16(s).value < 0 <==> NegativeAt(s, 0))
    ensures Int16(s).Got? ==> Int16(s).rest == s[2..] && (Int16(s).value >= 0 ==> Int16(s).value == Uint16(s))
    ensures !Int16(s).Panicked?
  {
  }

  lemma {:induction false} Int16sRest(s: Text, n: nat)
    ensures !Int16s(s, n).Panicked? && (Int16s(s, n).Got? <==> 2 * n <= |s|)
    ensures Int16s(s, n).Got? ==> Int16s(s, n).rest == s[2 * n..]
    decreases n
  {
    if n > 0 && |s| >= 2 {
      Int16sRest(s[2..], n - 1);
    }
  }

  lemma BehindFormats(counts: Text, n: nat)
    requires |counts| >= 2
    ensures var s := counts[2..];
            (2 * n <= |s| && Int16(s[2 * n..]).Got? && Int16(s[2 * n..]).value < 0) <==> NegativeAt(counts, 2 + 2 * n)
    ensures 2 * n <= |counts[2..]| ==> !Int16(counts[2..][2 * n..]).Panicked?
  {
    hide Int16;
    if 2 * n <= |counts| - 2 {
      SignBit(counts[2..][2 * n..]);
    }
  }

  lemma ResultFormatsDoNotPanic(s: Text)
    ensures !ResultFormats(s).Panicked?
  {
    var r := Int16(s);
    if r.Got? && r.value > 0 {
      Int16sRest(r.rest, r.value);
    }
  }

  lemma {:induction false} ParametersDoNotPanic(s: Text, n: nat)
    ensures !Parameters(s, n).Panicked?
    decreases n
  {
    if n > 0 {
      var r := Parameter(s);
      if r.Got? {
        ParametersDoNotPanic(r.rest, n - 1);
      }
    }
  }

  // ---------- Payloads that stop early ----------

  /** A query without its terminator is the whole payload. */
  lemma UnterminatedQuery(q: Text)
    requires NUL !in q
    ensures ReadQuery(q) == q
  {
    FindNone(q, NUL);
    assert q[..|q|] == q;
  }

  /** A Parse may end behind its query, and a count that is not positive is none;
      half a count, or fewer types than counted, is an error. */
  lemma ShortParse(statement: Text, query: Text, n: int, tail: Text)
    requires NUL !in statement && NUL !in query && FitsSigned(n, 16)
    ensures var names := Terminated(statement) + Terminated(query);
            && ReadParse(names) == Got(Parse(statement, query, []), [])
            && (|tail| == 1 ==> ReadParse(names + tail) == Failed(UnexpectedEOF))
            && (n <= 0 ==> ReadParse(names + Be16(n) + tail) == Got(Parse(statement, query, []), tail))
            && (n > 0 && |tail| < 4 * n ==> ReadParse(names + Be16(n) + tail).Failed?)
  {
    hide NullString, Int32s, Terminated, Be16, Int16;
    var names := Terminated(statement) + Terminated(query);
    assert names == Terminated(statement) + Terminated(query);
    NullStringBack(statement, Terminated(query));
    LastStringBack(query);
    assert names + tail == Terminated(statement) + (Terminated(query) + tail);
    NullStringBack(statement, Terminated(query) + tail);
    NullStringBack(query, tail);
    var counted := Be16(n) + tail;
    assert names + Be16(n) + tail == Terminated(statement) + (Terminated(query) + counted);
    NullStringBack(statement, Terminated(query) + counted);
    NullStringBack(query, counted);
    Int16Back(n, tail);
    ShortNumbers(tail);
    ShortNumbers([]);
    if n > 0 && |tail| < 4 * n {
      TooFewInt32s(tail, n);
    }
  }

  lemma ShortNumbers(s: Text)
    ensures s == [] ==> Int16(s) == Failed(EOF) && Int32(s) == Failed(EOF)
    ensures |s| == 1 ==> Int16(s) == Failed(UnexpectedEOF)
    ensures 1 <= |s| < 4 ==> Int32(s) == Failed(UnexpectedEOF)
  {
  }

  lemma {:induction false} TooFewInt32s(s: Text, n: nat)
    requires |s| < 4 * n
    ensures Int32s(s, n).Failed?
    decreases n
  {
    if |s| >= 4 {
      TooFewInt32s(s[4..], n - 1);
    }
  }

  /** An Execute without a row limit has the limit 0; half a limit is an error. */
  lemma ShortExecute(portal: Text, tail: Text)
    requires NUL !in portal && |tail| < 4
    ensures ReadExecute(Terminated(portal) + tail) ==
            if tail == [] then Got(Execute(portal, 0), []) else Failed(UnexpectedEOF)
  {
    hide NullString, Terminated, Int32;
    NullStringBack(portal, tail);
    ShortNumbers(tail);
  }

  /** A Bind may end behind its parameters, and a count of result formats that is
      not positive, or is cut in half, is none. */
  lemma ShortResultFormats(s: Text, n: int)
    requires FitsSigned(n, 16)
    ensures |s| < 2 ==> ResultFormats(s) == Got([], s)
    ensures n <= 0 ==> ResultFormats(Be16(n) + s) == Got([], s)
    ensures n > 0 && |s| < 2 * n ==> ResultFormats(Be16(n) + s).Failed?
  {
    hide Be16, Int16s, Int16;
    Int16Back(n, s);
    SignBit(s);
    if n > 0 {
      Int16sRest(s, n);
    }
  }

  /** A parameter of any negative length is NULL; one longer than what is left is an
      error. */
  lemma ParameterLength(n: int, rest: Text)
    requires FitsSigned(n, 32)
    ensures n < 0 ==> Parameter(Be32(n) + rest) == Got(None, rest)
    ensures 0 <= n <= |rest| ==> Parameter(Be32(n) + rest) == Got(Some(rest[..n]), rest[n..])
    ensures n > |rest| ==> Parameter(Be32(n) + rest).Failed?
  {
    hide Be32, Int32;
    Int32Back(n, rest);
  }

  /** A Describe or Close of nothing is an error of its own; so is a name that does
      not end. */
  lemma ShortDescribe(target: byte, name: Text)
    requires NUL !in name
    ensures ReadDescribe([]) == Failed(EmptyDescribe) && ReadClose([]) == Failed(EmptyClose)
    ensures ReadDescribe([target] + name) == ReadClose([target] + name) == Failed(EOF)
  {
    assert ([target] + name)[1..] == name;
    FindNone(name, NUL);
  }

  /** The names of a Parse, Bind or Execute that do not end are an error. */
  lemma UnfinishedNames(name: Text)
    requires NUL !in name
    ensures ReadParse(name) == ReadBind(name) == ReadExecute(name) == Failed(EOF)
    ensures forall first: Text :: NUL !in first ==>
              ReadParse(Terminated(first) + name) == ReadBind(Terminated(first) + name) == Failed(EOF)
  {
    hide NullString, Terminated, Int16, Int32;
    NoEnd(name);
    forall first: Text | NUL !in first
      ensures ReadParse(Terminated(first) + name) == ReadBind(Terminated(first) + name) == Failed(EOF)
    {
      NullStringBack(first, name);
    }
  }

  lemma NoEnd(name: Text)
    requires NUL !in name
    ensures NullString(name) == Failed(EOF)
  {
    FindNone(name, NUL);
  }

  // ---------- Writing messages ----------

  function Kind(m: Message): byte {
    match m
    case Query(_) => 'Q'
    case Parse(_, _, _) => 'P'
    case Bind(_, _, _, _, _) => 'B'
    case Describe(_, _) => 'D'
    case Execute(_, _) => 'E'
    case Sync => 'S'
    case Flush => 'H'
    case Close(_, _) => 'C'
    case Terminate => 'X'
    case Unknown(kind, _) => kind
  }

  function Payload(m: Message): Text {
    match m
    case Query(q) => Terminated(q)
    case Parse(statement, q, oids) => Terminated(statement) + (Terminated(q) + (Be16(|oids|) + Be32s(oids)))
    case Bind(portal, statement, formats, params, results) =>
      Terminated(portal) + (Terminated(statement) + (Be16(|formats|) + (Be16s(formats) +
      (Be16(|params|) + (PutValues(params) + (Be16(|results|) + Be16s(results)))))))
    case Describe(target, name) => [target] + Terminated(name)
    case Execute(portal, maxRows) => Terminated(portal) + Be32(maxRows)
    case Sync => []
    case Flush => []
    case Close(target, name) => [target] + Terminated(name)
    case Terminate => []
    case Unknown(_, payload) => payload
  }

  /** What the message formats allow: no NUL inside a string, counts and values
      that fit their fields, and a payload a signed length can count. */
  ghost predicate WellFormed(m: Message) {
    && FitsSigned(|Payload(m)|, 32)
    && match m
       case Query(q) => NUL !in q
       case Parse(statement, q, oids) =>
         NUL !in statement && NUL !in q && FitsSigned(|oids|, 16) && AllFit(oids, 32)
       case Bind(portal, statement, formats, params, results) =>
         && NUL !in portal && NUL !in statement
         && FitsSigned(|formats|, 16) && AllFit(formats, 16)
         && FitsSigned(|params|, 16) && ValuesFit(params)
         && FitsSigned(|results|, 16) && AllFit(results, 16)
       case Describe(_, name) => NUL !in name
       case Execute(portal, maxRows) => NUL !in portal && FitsSigned(maxRows, 32)
       case Close(_, name) => NUL !in name
       case Unknown(kind, _) => kind !in KNOWN
       case _ => true
  }

  lemma AppendNothing(s: Text)
    ensures s + [] == s
  {
  }

  lemma ParseBack(statement: Text, query: Text, oids: seq<int>)
    requires NUL !in statement && NUL !in query && FitsSigned(|oids|, 16) && AllFit(oids, 32)
    ensures ReadParse(Payload(Parse(statement, query, oids))) == Got(Parse(statement, query, oids), [])
  {
    hide NullString, Int16, Int32s, Terminated, Be16, Be32s;
    var tail := Be16(|oids|) + Be32s(oids);
    NullStringBack(statement, Terminated(query) + tail);
    NullStringBack(query, tail);
    Int16Back(|oids|, Be32s(oids));
    Int32sBack(oids, []);
    AppendNothing(Be32s(oids));
    if oids == [] {
      NoInt32s();
    }
  }

  lemma NoInt32s()
    ensures Be32s([]) == []
  {
  }

  lemma ResultFormatsBack(results: seq<int>)
    requires FitsSigned(|results|, 16) && AllFit(results, 16)
    ensures ResultFormats(Be16(|results|) + Be16s(results)) == Got(results, [])
  {
    hide Int16, Be16;
    Int16Back(|results|, Be16s(results));
    Int16sBack(results, []);
    AppendNothing(Be16s(results));
  }

  lemma BindBack(m: Message)
    requires m.Bind? && WellFormed(m)
    ensures ReadBind(Payload(m)) == Got(m, [])
  {
    hide NullString, Int16, Int16s, Parameters, ResultFormats, Terminated, Be16, Be16s, PutValues;
    var tail4 := Be16(|m.resultFormats|) + Be16s(m.resultFormats);
    var tail3 := Be16(|m.params|) + (PutValues(m.params) + tail4);
    var tail2 := Be16(|m.paramFormats|) + (Be16s(m.paramFormats) + tail3);
    NullStringBack(m.portal, Terminated(m.statement) + tail2);
    NullStringBack(m.statement, tail2);
    Int16Back(|m.paramFormats|, Be16s(m.paramFormats) + tail3);
    Int16sBack(m.paramFormats, tail3);
    Int16Back(|m.params|, PutValues(m.params) + tail4);
    ParametersBack(m.params, tail4);
    ResultFormatsBack(m.resultFormats);
  }

  lemma ExecuteBack(portal: Text, maxRows: int)
    requires NUL !in portal && FitsSigned(maxRows, 32)
    ensures ReadExecute(Payload(Execute(portal, maxRows))) == Got(Execute(portal, maxRows), [])
  {
    hide NullString, Int32, Terminated, Be32;
    NullStringBack(portal, Be32(maxRows));
    Int32Back(maxRows, []);
    AppendNothing(Be32(maxRows));
  }

  /** Reading a written message gives that message; a NULL parameter stays
      apart from an empty one because they are different parameters. */
  lemma PayloadBack(m: Message)
    requires WellFormed(m)
    ensures ReadPayload(Kind(m), Payload(m)).Got? && ReadPayload(Kind(m), Payload(m)).value == m
  {
    hide NullString, ReadParse, ReadBind, ReadExecute, Terminated;
    match m
    case Query(q) =>
      QueryBack(q);
    case Parse(statement, query, oids) =>
      ParseBack(statement, query, oids);
    case Bind(_, _, _, _, _) =>
      BindBack(m);
    case Describe(target, name) =>
      LastStringBack(name);
      assert ([target] + Terminated(name))[1..] == Terminated(name);
    case Execute(portal, maxRows) =>
      ExecuteBack(portal, maxRows);
    case Close(target, name) =>
      LastStringBack(name);
      assert ([target] + Terminated(name))[1..] == Terminated(name);
    case _ =>
  }

  lemma QueryBack(q: Text)
    requires NUL !in q
    ensures ReadQuery(Terminated(q)) == q
  {
    LastStringBack(q);
  }

  // ---------- Streams ----------

  /** The frames the processing loop takes from a byte stream. */
  function Frames(s: Text): seq<Frame>
    decreases |s|
  {
    match NextFrame(s)
    case Whole(frame, rest) => [frame] + Frames(rest)
    case _ => []
  }

  /** What stops the loop behind the last whole frame. */
  function Ending(s: Text): (r: Arrival)
    ensures !r.Whole?
    decreases |s|
  {
    match NextFrame(s)
    case Whole(_, rest) => Ending(rest)
    case r => r
  }

  function FrameOf(m: Message): Frame {
    Frame(Kind(m), Payload(m))
  }

  function Encode(m: Message): (s: Text)
    ensures |s| == 5 + |Payload(m)|
  {
    PutFrame(FrameOf(m))
  }

  function Stream(ms: seq<Message>): Text {
    if ms == [] then [] else Encode(ms[0]) + Stream(ms[1..])
  }

  /** How many leading frames lie entirely within the first n bytes. */
  function Complete(ms: seq<Message>, n: nat): (k: nat)
    ensures k <= |ms|
  {
    if ms == [] || n < |Encode(ms[0])| then 0 else 1 + Complete(ms[1..], n - |Encode(ms[0])|)
  }

  function FramesOf(ms: seq<Message>): (r: seq<Frame>)
    ensures |r| == |ms|
  {
    seq(|ms|, i requires 0 <= i < |ms| => FrameOf(ms[i]))
  }

  lemma FramesOfCons(m: Message, ms: seq<Message>)
    ensures FramesOf([m] + ms) == [FrameOf(m)] + FramesOf(ms)
  {
  }

  ghost predicate AllWellFormed(ms: seq<Message>) {
    forall i :: 0 <= i < |ms| ==> WellFormed(ms[i])
  }

  /** A stream cut off after any number of bytes yields exactly the frames that
      arrived whole, and then ends. */
  lemma {:induction false} CutStream(ms: seq<Message>, n: nat)
    requires AllWellFormed(ms) && n <= |Stream(ms)|
    ensures Frames(Stream(ms)[..n]) == FramesOf(ms[..Complete(ms, n)]) && Ending(Stream(ms)[..n]).End?
  {
    hide Payload, NextFrame, PutFrame;
    if ms == [] {
      NothingEnds();
    } else if n < |Encode(ms[0])| {
      assert Stream(ms)[..n] == Encode(ms[0])[..n];
      FrameCut(FrameOf(ms[0]), n);
    } else {
      var rest := Stream(ms[1..])[..n - |Encode(ms[0])|];
      assert Stream(ms)[..n] == Encode(ms[0]) + rest;
      FrameBack(FrameOf(ms[0]), rest);
      CutStream(ms[1..], n - |Encode(ms[0])|);
      var k := Complete(ms, n);
      assert ms[..k] == [ms[0]] + ms[1..][..k - 1];
      FramesOfCons(ms[0], ms[1..][..k - 1]);
    }
  }

  lemma NothingEnds()
    ensures Ending([]).End?
  {
  }

  lemma WholeStreamEnds(ms: seq<Message>)
    requires AllWellFormed(ms)
    ensures Ending(Stream(ms)).End?
  {
    hide Stream, Ending, Frames, WellFormed;
    CutStream(ms, |Stream(ms)|);
    assert Stream(ms)[..|Stream(ms)|] == Stream(ms);
  }

  lemma {:induction false} WholeStreamComplete(ms: seq<Message>)
    ensures Complete(ms, |Stream(ms)|) == |ms|
  {
    if ms != [] {
      WholeStreamComplete(ms[1..]);
    }
  }

  /** Each complete frame of a whole stream reads back as the message sent. */
  lemma StreamBack(ms: seq<Message>)
    requires AllWellFormed(ms)
    ensures |Frames(Stream(ms))| == |ms|
    ensures forall i :: 0 <= i < |ms| ==>
      var f := Frames(Stream(ms))[i]; ReadPayload(f.kind, f.payload).Got? && ReadPayload(f.kind, f.payload).value == ms[i]
  {
    hide ReadPayload, Stream, Complete, WellFormed;
    var n := |Stream(ms)|;
    CutStream(ms, n);
    WholeStreamComplete(ms);
    assert Stream(ms)[..n] == Stream(ms);
    assert ms[..|ms|] == ms;
    forall i | 0 <= i < |ms|
      ensures ReadPayload(Kind(ms[i]), Payload(ms[i])).Got? && ReadPayload(Kind(ms[i]), Payload(ms[i])).value == ms[i]
    {
      PayloadBack(ms[i]);
    }
  }

  // ---------- Start-up ----------

  const PROTOCOL_VERSION := 196608
  const SSL_REQUEST := 80877103

  datatype StartupError = Short | BadSize | Unsupported

  /** The outcome of reading the first packet. An SSL request leaves whatever
      follows its code unread. */
  datatype Startup =
    | SSL(rest: Text)
    | Ready(params: map<Text, Text>, rest: Text)
    | Refused(error: StartupError)

  /** Key and value strings up to the first empty key or unfinished string. */
  function StartupParams(s: Text, acc: map<Text, Text>): map<Text, Text>
    decreases |s|
  {
    var i := Find(s, NUL);
    if i == |s| || i == 0 then acc
    else
      var after := s[i + 1..];
      var j := Find(after, NUL);
      if j == |after| then acc
      else StartupParams(after[j + 1..], acc[s[..i] := after[..j]])
  }

  function ReadStartup(s: Text): Startup {
    if |s| < 4 then Refused(StartupError.Short)
    else
      var n := Uint32(s);
      if n < 8 || n > 10000 then Refused(BadSize)
      else if |s| < 8 then Refused(StartupError.Short)
      else
        var code := Uint32(s[4..8]);
        if code == SSL_REQUEST then SSL(s[8..])
        else if code != PROTOCOL_VERSION then Refused(Unsupported)
        else if |s| < n then Refused(StartupError.Short)
        else Ready(StartupParams(s[8..n], map[]), s[n..])
  }

  /** What the first packet opens, from its length n, its code and what follows: an
      SSL request, a session when the version is 3.0 and the packet is all there, or
      a refusal. */
  lemma StartupOpens(n: nat, code: nat, rest: Text)
    requires n < 0x1_0000_0000 && code < 0x1_0000_0000
    ensures var r := ReadStartup(Be32(n) + (Be32(code) + rest));
            if n < 8 || n > 10000 then r == Refused(BadSize)
            else if code == 80877103 then r == SSL(rest)
            else if code != 196608 then r == Refused(Unsupported)
            else if |rest| < n - 8 then r == Refused(StartupError.Short)
            else r == Ready(StartupParams(rest[..n - 8], map[]), rest[n - 8..])
  {
    hide StartupParams, Uint32, Be32;
    var s := Be32(n) + (Be32(code) + rest);
    Uint32Be(n);
    Uint32Be(code);
    Uint32Prefix(s);
    assert s[..4] == Be32(n) && s[4..8] == Be32(code) && s[8..] == rest;
    if 8 <= n <= |s| {
      assert s[8..n] == rest[..n - 8] && s[n..] == rest[n - 8..];
    }
  }

  type Pairs = seq<(Text, Text)>

  function PutPairs(pairs: Pairs): Text {
    if pairs == [] then [NUL] else Terminated(pairs[0].0) + (Terminated(pairs[0].1) + PutPairs(pairs[1..]))
  }

  /** A list of pairs as a map; a later pair for a key wins. */
  function MapOf(pairs: Pairs, acc: map<Text, Text>): map<Text, Text> {
    if pairs == [] then acc else MapOf(pairs[1..], acc[pairs[0].0 := pairs[0].1])
  }

  ghost predicate PairsFit(pairs: Pairs) {
    forall i :: 0 <= i < |pairs| ==> pairs[i].0 != [] && NUL !in pairs[i].0 && NUL !in pairs[i].1
  }

  function EncodeStartup(pairs: Pairs): Text {
    var body := PutPairs(pairs);
    Be32(8 + |body|) + (Be32(PROTOCOL_VERSION) + body)
  }

  lemma {:induction false} PairsBack(pairs: Pairs, acc: map<Text, Text>)
    requires PairsFit(pairs)
    ensures StartupParams(PutPairs(pairs), acc) == MapOf(pairs, acc)
  {
    if pairs != [] {
      var (k, v) := pairs[0];
      var tail := PutPairs(pairs[1..]);
      var s := PutPairs(pairs);
      NullStringBack(k, Terminated(v) + tail);
      NullStringBack(v, tail);
      assert NullString(s) == Got(k, Terminated(v) + tail);
      PairsBack(pairs[1..], acc[k := v]);
    }
  }

  /** The start-up packet reads back as the map it lists, and leaves the
      messages after it untouched. */
  lemma StartupBack(pairs: Pairs, rest: Text)
    requires PairsFit(pairs) && |EncodeStartup(pairs)| <= 10000
    ensures ReadStartup(EncodeStartup(pairs) + rest) == Ready(MapOf(pairs, map[]), rest)
  {
    hide Be32, Uint32, StartupParams, PutPairs;
    var body := PutPairs(pairs);
    var s := EncodeStartup(pairs) + rest;
    Uint32Be(8 + |body|);
    Uint32Be(PROTOCOL_VERSION);
    assert s[..4] == Be32(8 + |body|);
    Uint32Prefix(s);
    assert s[4..8] == Be32(PROTOCOL_VERSION);
    assert s[8..8 + |body|] == body;
    assert s[8 + |body|..] == rest;
    PairsBack(pairs, map[]);
  }

  /** The list of parameters ends at the first empty key, whatever follows it, and at
      a key or a value that does not end. */
  lemma {:induction false} PairsEnd(pairs: Pairs, acc: map<Text, Text>, key: Text, junk: Text)
    requires PairsFit(pairs) && NUL !in key && NUL !in junk
    ensures forall more: Text :: StartupParams(PutPairs(pairs) + more, acc) == MapOf(pairs, acc)
    ensures StartupParams(BarePairs(pairs) + junk, acc) == MapOf(pairs, acc)
    ensures StartupParams(BarePairs(pairs) + Terminated(key) + junk, acc) == MapOf(pairs, acc)
    decreases |pairs|
  {
    hide Terminated, StartupParams, NullString;
    if pairs == [] {
      forall more: Text
        ensures StartupParams(PutPairs(pairs) + more, acc) == acc
      {
        EmptyKeyEnds(more, acc);
      }
      UnfinishedEnds(key, junk, acc);
      assert BarePairs(pairs) + junk == junk && BarePairs(pairs) + Terminated(key) + junk == Terminated(key) + junk;
    } else {
      var (k, v) := pairs[0];
      assert pairs[0] == (k, v);
      var bare := BarePairs(pairs[1..]);
      PairsEnd(pairs[1..], acc[k := v], key, junk);
      forall more: Text
        ensures StartupParams(PutPairs(pairs) + more, acc) == MapOf(pairs, acc)
      {
        assert PutPairs(pairs) + more == Terminated(k) + (Terminated(v) + (PutPairs(pairs[1..]) + more));
        OnePair(k, v, PutPairs(pairs[1..]) + more, acc);
      }
      assert BarePairs(pairs) + junk == Terminated(k) + (Terminated(v) + (bare + junk));
      OnePair(k, v, bare + junk, acc);
      assert BarePairs(pairs) + Terminated(key) + junk == Terminated(k) + (Terminated(v) + (bare + Terminated(key) + junk));
      OnePair(k, v, bare + Terminated(key) + junk, acc);
    }
  }

  /** The pairs without the byte that ends their list. */
  function BarePairs(pairs: Pairs): Text {
    if pairs == [] then [] else Terminated(pairs[0].0) + (Terminated(pairs[0].1) + BarePairs(pairs[1..]))
  }

  lemma OnePair(k: Text, v: Text, rest: Text, acc: map<Text, Text>)
    requires k != [] && NUL !in k && NUL !in v
    ensures StartupParams(Terminated(k) + (Terminated(v) + rest), acc) == StartupParams(rest, acc[k := v])
  {
    var s := Terminated(k) + (Terminated(v) + rest);
    assert s == k + [NUL] + (Terminated(v) + rest) && Terminated(v) + rest == v + [NUL] + rest;
    FindAfter(k, NUL, Terminated(v) + rest);
    FindAfter(v, NUL, rest);
    assert s[..|k|] == k && s[|k| + 1..] == Terminated(v) + rest;
    assert (Terminated(v) + rest)[..|v|] == v && (Terminated(v) + rest)[|v| + 1..] == rest;
  }

  lemma EmptyKeyEnds(more: Text, acc: map<Text, Text>)
    ensures StartupParams([NUL] + more, acc) == acc
  {
  }

  lemma UnfinishedEnds(key: Text, junk: Text, acc: map<Text, Text>)
    requires NUL !in key && NUL !in junk
    ensures StartupParams(junk, acc) == acc && StartupParams(Terminated(key) + junk, acc) == acc
  {
    FindNone(junk, NUL);
    assert Terminated(key) + junk == key + [NUL] + junk;
    FindAfter(key, NUL, junk);
    assert (Terminated(key) + junk)[|key| + 1..] == junk;
  }

  lemma {:induction false} MapOfListing(pairs: Pairs, acc: map<Text, Text>, m: map<Text, Text>)
    requires forall i :: 0 <= i < |pairs| ==> pairs[i].0 in m && m[pairs[i].0] == pairs[i].1
    requires forall k :: k in acc ==> k in m && m[k] == acc[k]
    requires forall k :: k in m ==> k in acc || exists i :: 0 <= i < |pairs| && pairs[i].0 == k
    ensures MapOf(pairs, acc) == m
  {
    if pairs == [] {
      assert acc == m;
    } else {
      forall k | k in m && k !in acc[pairs[0].0 := pairs[0].1]
        ensures exists i :: 0 <= i < |pairs[1..]| && pairs[1..][i].0 == k
      {
        var i :| 0 <= i < |pairs| && pairs[i].0 == k;
        assert pairs[1..][i - 1].0 == k;
      }
      MapOfListing(pairs[1..], acc[pairs[0].0 := pairs[0].1], m);
    }
  }

  /** A whole session's input, start-up map in any order and then any messages,
      reads back as that map and those messages. */
  lemma SessionInputBack(m: map<Text, Text>, pairs: Pairs, ms: seq<Message>)
    requires PairsFit(pairs) && |EncodeStartup(pairs)| <= 10000 && AllWellFormed(ms)
    requires forall i :: 0 <= i < |pairs| ==> pairs[i].0 in m && m[pairs[i].0] == pairs[i].1
    requires forall k :: k in m ==> exists i :: 0 <= i < |pairs| && pairs[i].0 == k
    ensures var r := ReadStartup(EncodeStartup(pairs) + Stream(ms));
            && r == Ready(m, Stream(ms))
            && Frames(r.rest) == FramesOf(ms)
            && forall i :: 0 <= i < |ms| ==>
                 var f := Frames(r.rest)[i]; ReadPayload(f.kind, f.payload).Got? && ReadPayload(f.kind, f.payload).value == ms[i]
  {
    hide ReadPayload, Stream, ReadStartup, EncodeStartup, Frames, WellFormed;
    StartupBack(pairs, Stream(ms));
    MapOfListing(pairs, map[], m);
    StreamBack(ms);
    var n := |Stream(ms)|;
    CutStream(ms, n);
    WholeStreamComplete(ms);
    assert Stream(ms)[..n] == Stream(ms);
    assert ms[..|ms|] == ms;
  }
}
