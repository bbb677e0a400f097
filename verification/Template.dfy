/** Template tags in rule cells: one scan from left to right, a shared sequence
    counter, and random numbers. */
module Template {
  import opened Text

  /** Two's-complement wrap to a signed 64-bit integer. */
  function Wrap64(n: int): (r: int)
    ensures FitsSigned(r, 64)
  {
    (n + 0x8000_0000_0000_0000) % 0x1_0000_0000_0000_0000 - 0x8000_0000_0000_0000
  }

  // ---------- Finding tags ----------

  predicate IsBrace(c: byte) {
    c == '{' || c == '}'
  }

  /** How many bytes precede the first brace. */
  function BraceFree(s: Text): (n: nat)
    ensures n <= |s| && (n < |s| ==> IsBrace(s[n]))
  {
    if s == [] || IsBrace(s[0]) then 0 else 1 + BraceFree(s[1..])
  }

  /** The length of the match of `\{\{\s*([^{}]+?)\s*\}\}` at the front, or 0. */
  function TagLength(s: Text): (n: nat)
    ensures n <= |s| && (n > 0 ==> n > 4)
  {
    if HasPrefix(s, "{{") then
      var k := BraceFree(s[2..]);
      if k > 0 && HasPrefix(s[2 + k..], "}}") then k + 4 else 0
    else 0
  }

  /** A template is bytes that stand for themselves and whole tags. */
  datatype Piece = Plain(c: byte) | Tag(raw: Text)

  function Source(pieces: seq<Piece>): Text {
    if pieces == [] then []
    else (match pieces[0] case Plain(c) => [c] case Tag(raw) => raw) + Source(pieces[1..])
  }

  function Scan(s: Text): seq<Piece> {
    if s == [] then []
    else
      var n := TagLength(s);
      if n == 0 then [Plain(s[0])] + Scan(s[1..]) else [Tag(s[..n])] + Scan(s[n..])
  }

  // ---------- Rendering ----------

  /** The shared counter, and how many library values have been used up. */
  datatype Generator = Generator(counter: int, used: nat)

  /** What the libraries will deliver: random numbers, and the texts of the
      uuid, time and e-mail tags. */
  datatype Oracle = Oracle(draw: nat -> nat, text: nat -> Text)

  /** `Panics` is the panic of rand.Int on a range that is not positive. */
  datatype Rendered = Out(text: Text, next: Generator) | Panics

  predicate IsSequence(op: Text) {
    op == "sequence" || op == "seq"
  }

  predicate IsRandom(op: Text) {
    op == "random" || op == "random_int"
  }

  predicate IsLibrary(op: Text) {
    op == "uuid" || op == "now" || op == "today" || op == "email"
  }

  function Parts(raw: Text): seq<Text>
    requires |raw| >= 4
  {
    Fields(TrimSpace(raw[2..|raw| - 2]))
  }

  /** The number of a parameter, with or without the dollar sign. */
  function ParamIndex(word: Text): Text {
    if HasPrefix(word, "$") then word[1..] else word
  }

  function ParamText(parts: seq<Text>, params: Params): Text {
    if |parts| < 2 then []
    else
      match ParseInt(ParamIndex(parts[1]), 64)
      case Some(k) => if 1 <= k <= |params| && params[k - 1].Some? then params[k - 1].value else NULL
      case None => NULL
  }

  /** The bounds of a random tag, when it has two numbers in order. */
  function RandomBounds(parts: seq<Text>): Option<(int, int)> {
    if |parts| < 3 then None
    else
      match (ParseInt(parts[1], 64), ParseInt(parts[2], 64))
      case (Some(lo), Some(hi)) => if lo <= hi then Some((lo, hi)) else None
      case _ => None
  }

  /** rand.Int takes a positive limit and delivers a number below it. */
  function RandomIn(lo: int, hi: int, draw: nat): Option<int> {
    var span := Wrap64(hi - lo + 1);
    if span <= 0 then None else Some(Wrap64(lo + draw % span))
  }

  function RenderTag(raw: Text, params: Params, g: Generator, o: Oracle): Rendered
    requires |raw| >= 4
  {
    var parts := Parts(raw);
    if parts == [] then Out(raw, g)
    else
      var op := ToLower(parts[0]);
      if op == "param" then Out(ParamText(parts, params), g)
      else if IsLibrary(op) then Out(o.text(g.used), g.(used := g.used + 1))
      else if IsSequence(op) then
        var n := Wrap64(g.counter + 1);
        Out(FormatInt(n), g.(counter := n))
      else if IsRandom(op) then RenderRandom(parts, g, o)
      else Out(raw, g)
  }

  function RenderRandom(parts: seq<Text>, g: Generator, o: Oracle): Rendered {
    match RandomBounds(parts)
    case None => Out("0", g)
    case Some((lo, hi)) =>
      match RandomIn(lo, hi, o.draw(g.used))
      case None => Panics
      case Some(n) => Out(FormatInt(n), g.(used := g.used + 1))
  }

  function RenderPiece(p: Piece, params: Params, g: Generator, o: Oracle): Rendered
    requires p.Tag? ==> |p.raw| >= 4
  {
    match p
    case Plain(c) => Out([c], g)
    case Tag(raw) => RenderTag(raw, params, g, o)
  }

  ghost predicate TagsFit(pieces: seq<Piece>) {
    forall i :: 0 <= i < |pieces| && pieces[i].Tag? ==> |pieces[i].raw| >= 4
  }

  /** Each piece rendered on its own, left to right. */
  function RenderPieces(pieces: seq<Piece>, params: Params, g: Generator, o: Oracle): Rendered
    requires TagsFit(pieces)
  {
    if pieces == [] then Out([], g)
    else
      match RenderPiece(pieces[0], params, g, o)
      case Panics => Panics
      case Out(t, g1) =>
        match RenderPieces(pieces[1..], params, g1, o)
        case Panics => Panics
        case Out(rest, g2) => Out(t + rest, g2)
  }

  // ---------- One pass ----------

  lemma {:induction false} ScanFits(s: Text)
    ensures TagsFit(Scan(s))
  {
    if s != [] {
      var n := TagLength(s);
      ScanFits(if n == 0 then s[1..] else s[n..]);
    }
  }

  /** Scanning loses nothing: the pieces, end to end, are the template. */
  lemma {:induction false} ScanKeepsSource(s: Text)
    ensures Source(Scan(s)) == s
  {
    hide TagLength;
    if s != [] {
      var n := TagLength(s);
      var rest := if n == 0 then s[1..] else s[n..];
      ScanKeepsSource(rest);
      assert Scan(s)[1..] == Scan(rest);
    }
  }

  lemma {:induction false} BraceFreeStops(s: Text, rest: Text)
    requires rest != [] && IsBrace(rest[0])
    ensures BraceFree(s + rest) == BraceFree(s)
  {
    if s == [] {
      assert s + rest == rest;
    } else {
      assert (s + rest)[0] == s[0] && (s + rest)[1..] == s[1..] + rest;
      BraceFreeStops(s[1..], rest);
    }
  }

  /** A text that goes on with two opening braces has the tag it would have on
      its own at the front, or none. */
  lemma TagStays(s: Text, rest: Text)
    requires s != [] && |rest| >= 2 && rest[0] == rest[1] == '{'
    ensures TagLength(s + rest) == TagLength(s)
  {
    hide BraceFree;
    var all := s + rest;
    if |s| == 1 {
      assert all[2..] == rest[1..];
      BraceAtFront(rest[1..]);
    } else {
      assert all[..2] == s[..2] && all[2..] == s[2..] + rest;
      BraceFreeStops(s[2..], rest);
      var k := BraceFree(s[2..]);
      var behind := s[2 + k..];
      assert all[2 + k..] == behind + rest;
      if |behind| >= 2 {
        assert (behind + rest)[..2] == behind[..2];
      } else {
        assert (behind + rest)[|behind|] == '{';
      }
    }
  }

  lemma BraceAtFront(s: Text)
    requires s != [] && IsBrace(s[0])
    ensures BraceFree(s) == 0
  {
  }

  /** Text in front of two opening braces scans as it does on its own, whatever
      braces and tags it has. */
  lemma {:induction false} ScanAppend(text: Text, rest: Text)
    requires |rest| >= 2 && rest[0] == rest[1] == '{'
    ensures Scan(text + rest) == Scan(text) + Scan(rest)
    decreases |text|
  {
    hide TagLength;
    if text == [] {
      assert text + rest == rest;
    } else {
      var s := text + rest;
      TagStays(text, rest);
      var n := TagLength(text);
      assert s[0] == text[0] && s[..n] == text[..n];
      var m := if n == 0 then 1 else n;
      assert s[m..] == text[m..] + rest;
      ScanAppend(text[m..], rest);
    }
  }

  lemma {:induction false} BraceFreeAll(e: Text, rest: Text)
    requires forall i :: 0 <= i < |e| ==> !IsBrace(e[i])
    requires rest != [] && IsBrace(rest[0])
    ensures BraceFree(e + rest) == |e|
  {
    if e == [] {
      assert e + rest == rest;
    } else {
      assert (e + rest)[1..] == e[1..] + rest;
      BraceFreeAll(e[1..], rest);
    }
  }

  lemma ScanTag(e: Text, rest: Text)
    requires e != [] && forall i :: 0 <= i < |e| ==> !IsBrace(e[i])
    ensures Scan(['{', '{'] + e + ['}', '}'] + rest) == [Tag(['{', '{'] + e + ['}', '}'])] + Scan(rest)
  {
    var raw := ['{', '{'] + e + ['}', '}'];
    var s := raw + rest;
    var close: Text := ['}', '}'];
    assert s[2..] == e + (close + rest);
    BraceFreeAll(e, close + rest);
    assert s[2 + |e|..] == close + rest;
    assert (close + rest)[..2] == close;
    assert s[..2] == ['{', '{'];
    assert s[..|raw|] == raw && s[|raw|..] == rest;
  }

  // ---------- Tags that leave the template as it is ----------

  /** A tag whose first word is no operation. */
  predicate IsUnknown(p: Piece)
    requires p.Tag? ==> |p.raw| >= 4
  {
    p.Tag? && (Parts(p.raw) == [] ||
               var op := ToLower(Parts(p.raw)[0]); op != "param" && !IsLibrary(op) && !IsSequence(op) && !IsRandom(op))
  }

  lemma {:induction false} KeptPieces(pieces: seq<Piece>, params: Params, g: Generator, o: Oracle)
    requires TagsFit(pieces) && forall i :: 0 <= i < |pieces| ==> pieces[i].Plain? || IsUnknown(pieces[i])
    ensures RenderPieces(pieces, params, g, o) == Out(Source(pieces), g)
  {
    hide Parts, ToLower;
    if pieces != [] {
      assert pieces[0].Plain? || IsUnknown(pieces[0]);
      KeptPieces(pieces[1..], params, g, o);
    }
  }

  /** A template whose tags are all unknown, or that has none, renders to itself
      byte for byte and uses nothing up. */
  lemma UnknownTagsAreKept(s: Text, params: Params, g: Generator, o: Oracle)
    requires TagsFit(Scan(s)) && forall i :: 0 <= i < |Scan(s)| ==> Scan(s)[i].Plain? || IsUnknown(Scan(s)[i])
    ensures RenderPieces(Scan(s), params, g, o) == Out(s, g)
  {
    hide Scan, IsUnknown, RenderPieces;
    KeptPieces(Scan(s), params, g, o);
    ScanKeepsSource(s);
  }

  /** Without two opening braces in a row nothing is a tag. */
  lemma {:induction false} NoOpeningNoTag(s: Text, params: Params, g: Generator, o: Oracle)
    requires !Contains(s, "{{")
    ensures TagsFit(Scan(s)) && RenderPieces(Scan(s), params, g, o) == Out(s, g)
  {
    if s != [] {
      NoOpeningNoTag(s[1..], params, g, o);
      assert Scan(s)[1..] == Scan(s[1..]);
      assert [s[0]] + s[1..] == s;
    }
  }

  /** Rendering goes on where it has got to. */
  function Before(a: Rendered, rest: seq<Piece>, params: Params, o: Oracle): Rendered
    requires TagsFit(rest)
  {
    match a
    case Panics => Panics
    case Out(t, g) => Prepend(t, RenderPieces(rest, params, g, o))
  }

  lemma {:induction false} RenderAppend(a: seq<Piece>, b: seq<Piece>, params: Params, g: Generator, o: Oracle)
    requires TagsFit(a) && TagsFit(b)
    ensures TagsFit(a + b)
    ensures RenderPieces(a + b, params, g, o) == Before(RenderPieces(a, params, g, o), b, params, o)
  {
    hide RenderTag;
    if a == [] {
      assert a + b == b;
      var r := RenderPieces(b, params, g, o);
      if r.Out? {
        assert [] + r.text == r.text;
      }
    } else {
      assert (a + b)[1..] == a[1..] + b;
      var r := RenderPiece(a[0], params, g, o);
      if r.Out? {
        RenderAppend(a[1..], b, params, r.next, o);
        var r1 := RenderPieces(a[1..], params, r.next, o);
        if r1.Out? && RenderPieces(b, params, r1.next, o).Out? {
          assert r.text + (r1.text + RenderPieces(b, params, r1.next, o).text) ==
                 (r.text + r1.text) + RenderPieces(b, params, r1.next, o).text;
        }
      }
    }
  }

  /** Whatever stands before a parameter tag renders as it would on its own, the
      parameter comes out verbatim whatever braces it holds, and rendering goes
      on behind the tag. */
  lemma ParamIsNotRescanned(text: Text, e: Text, rest: Text, params: Params, g: Generator, o: Oracle)
    requires e != [] && forall i :: 0 <= i < |e| ==> !IsBrace(e[i])
    requires var parts := Parts(['{', '{'] + e + ['}', '}']); parts != [] && ToLower(parts[0]) == "param"
    ensures var raw := ['{', '{'] + e + ['}', '}'];
            && TagsFit(Scan(text + (raw + rest))) && TagsFit(Scan(text)) && TagsFit(Scan(rest))
            && RenderPieces(Scan(text + (raw + rest)), params, g, o) ==
               match RenderPieces(Scan(text), params, g, o)
               case Panics => Panics
               case Out(before, g1) =>
                 Prepend(before, Prepend(ParamText(Parts(raw), params), RenderPieces(Scan(rest), params, g1, o)))
  {
    hide Scan, Parts, ParamText, ToLower;
    var raw := ['{', '{'] + e + ['}', '}'];
    ScanFits(text);
    ScanFits(rest);
    ScanAppend(text, raw + rest);
    ScanTag(e, rest);
    var pieces := [Tag(raw)] + Scan(rest);
    assert pieces[1..] == Scan(rest);
    RenderAppend(Scan(text), pieces, params, g, o);
  }

  // ---------- Sequence numbers ----------

  predicate IsSequenceTag(p: Piece)
    requires p.Tag? ==> |p.raw| >= 4
  {
    p.Tag? && Parts(p.raw) != [] && IsSequence(ToLower(Parts(p.raw)[0]))
  }

  function SequenceTags(pieces: seq<Piece>): nat
    requires TagsFit(pieces)
  {
    if pieces == [] then 0
    else (if IsSequenceTag(pieces[0]) then 1 else 0) + SequenceTags(pieces[1..])
  }

  lemma WrapTwice(n: int, k: int)
    ensures Wrap64(Wrap64(n) + k) == Wrap64(n + k)
  {
    var m := 0x1_0000_0000_0000_0000;
    var a := n + 0x8000_0000_0000_0000;
    assert (a % m + k) % m == (a + k) % m by { AddMod(a, k, m); }
  }

  lemma AddMod(a: int, k: int, m: int)
    requires m == 0x1_0000_0000_0000_0000
    ensures (a % m + k) % m == (a + k) % m
  {
    assert a == a / m * m + a % m;
  }

  lemma OperationsDiffer(op: Text)
    ensures IsSequence(op) ==> op != "param" && !IsLibrary(op)
    ensures IsLibrary(op) ==> op != "param"
  {
  }

  lemma PieceCounts(p: Piece, params: Params, g: Generator, o: Oracle)
    requires p.Tag? ==> |p.raw| >= 4
    ensures var r := RenderPiece(p, params, g, o);
            r.Out? ==>
              if IsSequenceTag(p) then r.text == FormatInt(r.next.counter) && r.next.counter == Wrap64(g.counter + 1)
              else r.next.counter == g.counter
  {
    hide Parts, ToLower, IsSequence, IsLibrary, IsRandom, FormatInt;
    if p.Tag? && Parts(p.raw) != [] {
      OperationsDiffer(ToLower(Parts(p.raw)[0]));
    }
  }

  /** In one render the i-th sequence tag gets the counter plus i, and the
      counter ends that many further on. */
  lemma {:induction false} SequenceTagsCount(pieces: seq<Piece>, i: nat, params: Params, g: Generator, o: Oracle)
    returns (before: Generator)
    requires TagsFit(pieces) && i < |pieces| && IsSequenceTag(pieces[i])
    requires RenderPieces(pieces, params, g, o).Out?
    ensures var k := SequenceTags(pieces[..i]) + 1;
            && RenderPiece(pieces[i], params, before, o).Out?
            && RenderPiece(pieces[i], params, before, o).text == FormatInt(Wrap64(g.counter + k))
            && RenderPieces(pieces[..i], params, g, o).Out?
            && RenderPieces(pieces[..i], params, g, o).next == before
  {
    hide RenderPiece, IsSequenceTag;
    var r := RenderPiece(pieces[0], params, g, o);
    PieceCounts(pieces[0], params, g, o);
    if i == 0 {
      before := g;
    } else {
      before := SequenceTagsCount(pieces[1..], i - 1, params, r.next, o);
      assert pieces[..i][1..] == pieces[1..][..i - 1];
      WrapTwice(g.counter + 1, SequenceTags(pieces[1..][..i - 1]) + 1);
    }
  }

  // ---------- Renders at the same time ----------

  /** A render under way: its template in pieces, and its parameters. */
  datatype Job = Job(pieces: seq<Piece>, params: Params)

  /** One render goes on by a piece, or the counter is reset. A piece takes at
      most one number, by one atomic operation. */
  datatype Event = Next(job: nat) | Reset

  /** How many pieces a render has done. */
  function Progress(events: seq<Event>, job: nat): nat {
    if events == [] then 0
    else Progress(events[..|events| - 1], job) + if events[|events| - 1] == Next(job) then 1 else 0
  }

  ghost predicate JobsFit(jobs: seq<Job>) {
    forall k :: 0 <= k < |jobs| ==> TagsFit(jobs[k].pieces)
  }

  /** The piece that event i renders. */
  function PieceAt(jobs: seq<Job>, events: seq<Event>, i: nat): Option<Piece>
    requires i < |events|
  {
    match events[i]
    case Reset => None
    case Next(k) =>
      var n := Progress(events[..i], k);
      if k < |jobs| && n < |jobs[k].pieces| then Some(jobs[k].pieces[n]) else None
  }

  /** What the renders share, after these events. */
  function Shared(jobs: seq<Job>, events: seq<Event>, g: Generator, o: Oracle): Generator
    requires JobsFit(jobs)
  {
    if events == [] then g
    else
      var n := |events| - 1;
      var before := Shared(jobs, events[..n], g, o);
      match events[n]
      case Reset => before.(counter := 0)
      case Next(k) =>
        match PieceAt(jobs, events, n)
        case None => before
        case Some(p) =>
          var r := RenderPiece(p, jobs[k].params, before, o);
          if r.Out? then r.next else before
  }

  /** What event i adds to the text of its render. */
  function TextAt(jobs: seq<Job>, events: seq<Event>, i: nat, g: Generator, o: Oracle): Text
    requires JobsFit(jobs) && i < |events|
  {
    match PieceAt(jobs, events, i)
    case None => []
    case Some(p) =>
      var r := RenderPiece(p, jobs[events[i].job].params, Shared(jobs, events[..i], g, o), o);
      if r.Out? then r.text else []
  }

  /** All that a render has written. */
  function Written(jobs: seq<Job>, events: seq<Event>, job: nat, g: Generator, o: Oracle): Text
    requires JobsFit(jobs)
  {
    if events == [] then []
    else
      var n := |events| - 1;
      Written(jobs, events[..n], job, g, o) + if events[n] == Next(job) then TextAt(jobs, events, n, g, o) else []
  }

  /** A render that nobody interrupts writes what RenderPieces says. */
  lemma {:induction false} AloneIsRender(jobs: seq<Job>, k: nat, events: seq<Event>, g: Generator, o: Oracle)
    requires JobsFit(jobs) && k < |jobs| && |events| <= |jobs[k].pieces|
    requires forall i :: 0 <= i < |events| ==> events[i] == Next(k)
    requires RenderPieces(jobs[k].pieces[..|events|], jobs[k].params, g, o).Out?
    ensures Progress(events, k) == |events|
    ensures Out(Written(jobs, events, k, g, o), Shared(jobs, events, g, o)) ==
            RenderPieces(jobs[k].pieces[..|events|], jobs[k].params, g, o)
  {
    hide RenderPiece;
    if events != [] {
      var n := |events| - 1;
      var pieces := jobs[k].pieces[..n];
      var last := [jobs[k].pieces[n]];
      assert jobs[k].pieces[..n + 1] == pieces + last;
      RenderAppend(pieces, last, jobs[k].params, g, o);
      AloneIsRender(jobs, k, events[..n], g, o);
      OnePiece(last[0], jobs[k].params, RenderPieces(pieces, jobs[k].params, g, o).next, o);
      assert events[..n] == events[..|events| - 1];
      assert PieceAt(jobs, events, n) == Some(last[0]);
    }
  }

  lemma OnePiece(p: Piece, params: Params, g: Generator, o: Oracle)
    requires p.Tag? ==> |p.raw| >= 4
    ensures RenderPieces([p], params, g, o) == RenderPiece(p, params, g, o)
  {
    hide RenderTag;
    var r := RenderPiece(p, params, g, o);
    if r.Out? {
      assert r.text + [] == r.text;
    }
  }

  /** Event i renders a sequence tag. */
  predicate Draws(jobs: seq<Job>, events: seq<Event>, i: nat)
    requires JobsFit(jobs) && i < |events|
  {
    PieceAt(jobs, events, i).Some? && IsSequenceTag(PieceAt(jobs, events, i).value)
  }

  function DrawCount(jobs: seq<Job>, events: seq<Event>): nat
    requires JobsFit(jobs)
  {
    if events == [] then 0
    else DrawCount(jobs, events[..|events| - 1]) + if Draws(jobs, events, |events| - 1) then 1 else 0
  }

  ghost predicate NoReset(events: seq<Event>, from: nat, to: nat)
    requires from <= to <= |events|
  {
    forall i :: from <= i < to ==> events[i].Next?
  }

  lemma EventCounts(jobs: seq<Job>, events: seq<Event>, i: nat, g: Generator, o: Oracle)
    requires JobsFit(jobs) && i < |events| && events[i].Next?
    ensures var before, after := Shared(jobs, events[..i], g, o), Shared(jobs, events[..i + 1], g, o);
            if Draws(jobs, events, i) then
              after.counter == Wrap64(before.counter + 1) && TextAt(jobs, events, i, g, o) == FormatInt(after.counter)
            else after.counter == before.counter
    ensures DrawCount(jobs, events[..i + 1]) == DrawCount(jobs, events[..i]) + if Draws(jobs, events, i) then 1 else 0
  {
    hide RenderPiece, IsSequenceTag, FormatInt, Wrap64;
    assert events[..i + 1][..i] == events[..i];
    assert PieceAt(jobs, events[..i + 1], i) == PieceAt(jobs, events, i);
    var p := PieceAt(jobs, events, i);
    if p.Some? {
      PieceCounts(p.value, jobs[events[i].job].params, Shared(jobs, events[..i], g, o), o);
      SequenceDoesNotPanic(p.value, jobs[events[i].job].params, Shared(jobs, events[..i], g, o), o);
    }
  }

  lemma SequenceDoesNotPanic(p: Piece, params: Params, g: Generator, o: Oracle)
    requires p.Tag? ==> |p.raw| >= 4
    ensures IsSequenceTag(p) ==> RenderPiece(p, params, g, o).Out?
  {
    hide Parts, ToLower, IsSequence, IsLibrary, IsRandom, FormatInt;
    if p.Tag? && Parts(p.raw) != [] {
      OperationsDiffer(ToLower(Parts(p.raw)[0]));
    }
  }

  lemma OneFurther(jobs: seq<Job>, events: seq<Event>, i: nat, base: int, g: Generator, o: Oracle)
    requires JobsFit(jobs) && i < |events| && events[i].Next?
    requires Shared(jobs, events[..i], g, o).counter == Wrap64(base + DrawCount(jobs, events[..i]))
    ensures Shared(jobs, events[..i + 1], g, o).counter == Wrap64(base + DrawCount(jobs, events[..i + 1]))
    ensures DrawCount(jobs, events[..i]) <= DrawCount(jobs, events[..i + 1])
  {
    hide Wrap64, Draws, Shared, DrawCount, TextAt, FormatInt;
    EventCounts(jobs, events, i, g, o);
    WrapTwice(base + DrawCount(jobs, events[..i]), 1);
  }

  /** From one draw on, without a reset, the counter is as many further as
      there were draws. */
  lemma {:induction false} CounterAdvances(jobs: seq<Job>, events: seq<Event>, from: nat, to: nat, g: Generator, o: Oracle)
    requires JobsFit(jobs) && from <= to <= |events| && NoReset(events, from, to)
    requires FitsSigned(Shared(jobs, events[..from], g, o).counter, 64)
    ensures DrawCount(jobs, events[..from]) <= DrawCount(jobs, events[..to])
    ensures Shared(jobs, events[..to], g, o).counter ==
            Wrap64(Shared(jobs, events[..from], g, o).counter + (DrawCount(jobs, events[..to]) - DrawCount(jobs, events[..from])))
  {
    hide Wrap64, Shared, DrawCount, FormatInt;
    var n := Shared(jobs, events[..from], g, o).counter;
    if from < to {
      CounterAdvances(jobs, events, from, to - 1, g, o);
      OneFurther(jobs, events, to - 1, n - DrawCount(jobs, events[..from]), g, o);
    } else {
      WrapFits(n);
    }
  }

  lemma WrapDistinct(n: int, k: int)
    requires FitsSigned(n, 64)
    ensures Wrap64(n + k) == n <==> k % 0x1_0000_0000_0000_0000 == 0
  {
  }

  /** Two sequence tags, of one render or of two that go on in any interleaving,
      put different texts into their cells if the counter is not reset between
      them, except exactly when the numbers drawn from one to the other are a
      multiple of 2^64. */
  lemma SequenceTextsDiffer(jobs: seq<Job>, events: seq<Event>, i: nat, j: nat, g: Generator, o: Oracle)
    requires JobsFit(jobs) && i < j < |events| && Draws(jobs, events, i) && Draws(jobs, events, j)
    requires NoReset(events, i, j + 1)
    ensures var drawn := DrawCount(jobs, events[..j + 1]) - DrawCount(jobs, events[..i + 1]);
            && drawn > 0
            && (TextAt(jobs, events, i, g, o) == TextAt(jobs, events, j, g, o) <==> drawn % 0x1_0000_0000_0000_0000 == 0)
  {
    hide Wrap64, Draws, Shared, DrawCount, TextAt, FormatInt;
    EventCounts(jobs, events, i, g, o);
    EventCounts(jobs, events, j, g, o);
    var a, b := Shared(jobs, events[..i + 1], g, o).counter, Shared(jobs, events[..j + 1], g, o).counter;
    CounterAdvances(jobs, events, i + 1, j + 1, g, o);
    CounterAdvances(jobs, events, i + 1, j, g, o);
    WrapDistinct(a, DrawCount(jobs, events[..j + 1]) - DrawCount(jobs, events[..i + 1]));
    ParseFormat(a, 64);
    ParseFormat(b, 64);
  }

  // ---------- Random numbers ----------

  lemma WrapFits(n: int)
    requires FitsSigned(n, 64)
    ensures Wrap64(n) == n
  {
  }

  /** A random tag delivers a number between its bounds exactly when the width
      of the range fits a signed 64-bit integer; otherwise it panics. */
  lemma RandomInRange(lo: int, hi: int, draw: nat)
    requires FitsSigned(lo, 64) && FitsSigned(hi, 64) && lo <= hi
    ensures RandomIn(lo, hi, draw).Some? <==> FitsSigned(hi - lo + 1, 64)
    ensures RandomIn(lo, hi, draw).Some? ==> lo <= RandomIn(lo, hi, draw).value <= hi
    ensures FitsSigned(hi - lo + 1, 64) && draw <= hi - lo ==> RandomIn(lo, hi, draw) == Some(lo + draw)
  {
    hide Wrap64;
    var span := hi - lo + 1;
    if FitsSigned(span, 64) {
      WrapFits(span);
      Remainder(draw, span);
      var rest := draw % span;
      WrapFits(lo + rest);
    } else {
      WrapFits(span - 0x1_0000_0000_0000_0000);
      WrapPeriod(span);
    }
  }

  lemma Remainder(draw: nat, span: int)
    requires span > 0
    ensures 0 <= draw % span < span && (draw < span ==> draw % span == draw)
  {
  }

  lemma WrapPeriod(n: int)
    ensures Wrap64(n - 0x1_0000_0000_0000_0000) == Wrap64(n)
  {
  }

  // ---------- The renderer ----------

  function Prepend(t: Text, r: Rendered): Rendered {
    match r
    case Panics => Panics
    case Out(rest, g) => Out(t + rest, g)
  }

  class Sequencer {
    var globalSequence: int

    constructor ()
      ensures globalSequence == 0
    {
      globalSequence := 0;
    }

    method NextSequence() returns (n: int)
      modifies this
      ensures n == globalSequence == Wrap64(old(globalSequence) + 1)
    {
      globalSequence := Wrap64(globalSequence + 1);
      n := globalSequence;
    }

    /** The step Reset of an interleaving; only tests of the server take it. */
    method ResetSequence()
      modifies this
      ensures globalSequence == 0
    {
      globalSequence := 0;
    }

    /** One tag; a sequence tag takes its number here. */
    method RenderMatch(raw: Text, params: Params, g: Generator, o: Oracle) returns (t: Rendered)
      requires |raw| >= 4 && g.counter == globalSequence
      modifies this
      ensures t == RenderTag(raw, params, g, o)
      ensures t.Out? ==> globalSequence == t.next.counter
    {
      hide Parts, ToLower, ParamText, RandomBounds, RandomIn, FormatInt;
      var parts := Parts(raw);
      if parts == [] {
        return Out(raw, g);
      }
      var op := ToLower(parts[0]);
      OperationsDiffer(op);
      if IsSequence(op) {
        var n := NextSequence();
        t := Out(FormatInt(n), g.(counter := n));
      } else {
        t := RenderTag(raw, params, g, o);
      }
    }

    method RenderTemplate(val: Text, params: Params, o: Oracle, used: nat) returns (r: Rendered)
      modifies this
      ensures TagsFit(Scan(val))
      ensures r == RenderPieces(Scan(val), params, Generator(old(globalSequence), used), o)
      ensures r.Out? ==> globalSequence == r.next.counter
    {
      hide RenderTag, TagLength, Scan, RenderPieces;
      ScanNothing(params, o);
      ScanFits(val);
      if !Contains(val, "{{") {
        NoOpeningNoTag(val, params, Generator(globalSequence, used), o);
        return Out(val, Generator(globalSequence, used));
      }
      assert val[0..] == val;
      ghost var g0 := Generator(globalSequence, used);
      ghost var all := RenderPieces(Scan(val), params, g0, o);
      var out: Text := [];
      var g := Generator(globalSequence, used);
      var i := 0;
      while i < |val|
        invariant i <= |val| && g.counter == globalSequence && TagsFit(Scan(val[i..]))
        invariant all == Prepend(out, RenderPieces(Scan(val[i..]), params, g, o))
      {
        var s := val[i..];
        var n := TagLength(s);
        ScanStep(s, params, g, o);
        if n == 0 {
          out := out + [val[i]];
          i := i + 1;
        } else {
          var t := RenderMatch(s[..n], params, g, o);
          if t.Panics? {
            return Panics;
          }
          out := out + t.text;
          g := t.next;
          i := i + n;
        }
      }
      assert val[i..] == [] && out + [] == out;
      r := Out(out, g);
    }
  }

  lemma ScanNothing(params: Params, o: Oracle)
    ensures Scan([]) == [] && TagsFit([])
    ensures forall g :: RenderPieces([], params, g, o) == Out([], g)
  {
  }

  lemma ScanStep(s: Text, params: Params, g: Generator, o: Oracle)
    requires s != []
    ensures TagsFit(Scan(s))
    ensures var n := TagLength(s);
            if n == 0 then
              TagsFit(Scan(s[1..])) && RenderPieces(Scan(s), params, g, o) == Prepend([s[0]], RenderPieces(Scan(s[1..]), params, g, o))
            else
              && TagsFit(Scan(s[n..]))
              && var t := RenderTag(s[..n], params, g, o);
                 RenderPieces(Scan(s), params, g, o) ==
                 if t.Panics? then Panics else Prepend(t.text, RenderPieces(Scan(s[n..]), params, t.next, o))
  {
    hide RenderTag;
    ScanFits(s);
    var n := TagLength(s);
    ScanFits(s[1..]);
    ScanFits(s[n..]);
    assert Scan(s)[1..] == if n == 0 then Scan(s[1..]) else Scan(s[n..]);
  }
}
