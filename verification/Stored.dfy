/** Does what a client stores come back as it was stored? A SELECT answers with
    the stored rows, and its answer is sent like that of any rule: every cell is
    rendered as a template first. */
module StoredValues {
  import opened Text
  import opened Rules
  import opened Values
  import opened Relational
  import opened Clauses
  import opened Template
  import opened Sessions
  import opened Conversations
  import opened ResultRows
  import Backend

  // ---------- Which texts render to themselves ----------

  predicate IsLibraryTag(p: Piece)
    requires p.Tag? ==> |p.raw| >= 4
  {
    p.Tag? && Parts(p.raw) != [] && IsLibrary(ToLower(Parts(p.raw)[0]))
  }

  /** A piece whose text is new each time. */
  predicate IsFresh(p: Piece)
    requires p.Tag? ==> |p.raw| >= 4
  {
    IsSequenceTag(p) || IsLibraryTag(p)
  }

  predicate Stays(p: Piece)
    requires p.Tag? ==> |p.raw| >= 4
  {
    p.Plain? || IsUnknown(p)
  }

  function NoDraw(i: nat): nat {
    0
  }

  /** Libraries that deliver the same text each time and draw zero. */
  function Always(c: byte): Oracle {
    Oracle(NoDraw, i => [c])
  }

  ghost predicate OneApart(a: Generator, b: Generator) {
    a.counter == 0 && b.counter == 1 && a.used == b.used
  }

  /** A fresh piece renders differently for two libraries and counters; every
      other piece renders the same, and leaves them as different as they were. */
  lemma PieceInTwoWorlds(p: Piece, g: Generator, h: Generator)
    requires (p.Tag? ==> |p.raw| >= 4) && OneApart(g, h)
    ensures var a, b := RenderPiece(p, [], g, Always('x')), RenderPiece(p, [], h, Always('y'));
            if IsFresh(p) then a.Out? && b.Out? && a.text != [] && b.text != [] && a.text[0] != b.text[0]
            else (a.Panics? && b.Panics?) || (a.Out? && b.Out? && a.text == b.text && OneApart(a.next, b.next))
  {
    hide Parts, ToLower, ParamText, IsSequence, IsLibrary, IsRandom, RenderRandom, FormatInt, Wrap64;
    if p.Tag? && Parts(p.raw) != [] {
      OperationsDiffer(ToLower(Parts(p.raw)[0]));
      RandomInTwoWorlds(Parts(p.raw), g, h);
      FirstNumbers();
    }
  }

  lemma FirstNumbers()
    ensures FormatInt(Wrap64(1)) == ['1'] && FormatInt(Wrap64(2)) == ['2']
  {
    hide Wrap64;
    WrapFits(1);
    WrapFits(2);
    assert DigitOf(1) == '1' && DigitOf(2) == '2';
  }

  lemma RandomInTwoWorlds(parts: seq<Text>, g: Generator, h: Generator)
    requires OneApart(g, h)
    ensures var a, b := RenderRandom(parts, g, Always('x')), RenderRandom(parts, h, Always('y'));
            (a.Panics? && b.Panics?) || (a.Out? && b.Out? && a.text == b.text && OneApart(a.next, b.next))
  {
    hide RandomBounds, RandomIn, FormatInt;
  }

  lemma {:induction false} FreshDiffers(pieces: seq<Piece>, g: Generator, h: Generator, i: nat)
    requires TagsFit(pieces) && i < |pieces| && IsFresh(pieces[i]) && OneApart(g, h)
    ensures var a, b := RenderPieces(pieces, [], g, Always('x')), RenderPieces(pieces, [], h, Always('y'));
            !(a.Out? && b.Out? && a.text == b.text)
    decreases |pieces|
  {
    hide RenderPiece, IsFresh, OneApart;
    PieceInTwoWorlds(pieces[0], g, h);
    var a, b := RenderPiece(pieces[0], [], g, Always('x')), RenderPiece(pieces[0], [], h, Always('y'));
    if !IsFresh(pieces[0]) && a.Out? && b.Out? {
      FreshDiffers(pieces[1..], a.next, b.next, i - 1);
      SameStart(a.text);
    } else if a.Out? && b.Out? {
      DifferentStart(a.text, b.text);
    }
  }

  lemma SameStart(a: Text)
    ensures forall s: Text, t: Text :: a + s == a + t ==> s == t
  {
    forall s: Text, t: Text | a + s == a + t
      ensures s == t
    {
      assert (a + s)[|a|..] == s && (a + t)[|a|..] == t;
    }
  }

  lemma DifferentStart(a: Text, b: Text)
    requires a != [] && b != [] && a[0] != b[0]
    ensures forall s: Text, t: Text :: a + s != b + t
  {
    forall s: Text, t: Text
      ensures a + s != b + t
    {
      assert (a + s)[0] == a[0] && (b + t)[0] == b[0];
    }
  }

  lemma {:induction false} DigitsAreShort(s: Text)
    requires s != [] && AllDigits(s)
    ensures |Itoa(DigitsValue(s))| <= |s|
  {
    if |s| > 1 {
      DigitsAreShort(s[..|s| - 1]);
    } else {
      assert s[..0] == [];
    }
  }

  lemma NumberIsShort(s: Text)
    requires SignedValue(s).Some?
    ensures |FormatInt(SignedValue(s).value)| <= |s|
  {
    var digits := if s != [] && (s[0] == '-' || s[0] == '+') then s[1..] else s;
    DigitsAreShort(digits);
  }

  lemma {:induction false} FieldIsPart(s: Text, i: nat)
    requires i < |Fields(s)|
    ensures |Fields(s)[i]| <= |s|
    decreases |s|
  {
    var t := TrimLeft(s, SPACES);
    var n := WordLength(t);
    if i > 0 {
      FieldIsPart(t[n..], i - 1);
    }
  }

  lemma PartIsShort(raw: Text, i: nat)
    requires |raw| >= 4 && i < |Parts(raw)|
    ensures |Parts(raw)[i]| <= |raw| - 4
  {
    hide Fields;
    FieldIsPart(TrimSpace(raw[2..|raw| - 2]), i);
  }

  /** Without parameters, and with the lowest number drawn, every tag but a fresh
      or an unknown one renders to less than it is. */
  lemma TagShrinks(raw: Text, g: Generator, o: Oracle)
    requires |raw| >= 4 && !Stays(Tag(raw)) && !IsFresh(Tag(raw)) && forall i :: o.draw(i) == 0
    ensures var r := RenderTag(raw, [], g, o); r.Out? ==> |r.text| < |raw|
  {
    hide Parts, ToLower, FormatInt, SignedValue, Wrap64;
    var parts := Parts(raw);
    PartIsShort(raw, 0);
    assert |parts[0]| == |ToLower(parts[0])|;
    if IsRandom(ToLower(parts[0])) && RandomBounds(parts).Some? {
      PartIsShort(raw, 1);
      NumberIsShort(parts[1]);
      LowestDrawn(RandomBounds(parts).value.0, RandomBounds(parts).value.1);
    }
  }

  lemma LowestDrawn(lo: int, hi: int)
    requires FitsSigned(lo, 64)
    ensures RandomIn(lo, hi, 0).Some? ==> RandomIn(lo, hi, 0).value == lo
  {
    hide Wrap64;
    WrapFits(lo);
    var span := Wrap64(hi - lo + 1);
    if span > 0 {
      Remainder(0, span);
    }
  }

  lemma {:induction false} KnownShrinks(pieces: seq<Piece>, g: Generator, o: Oracle)
    requires TagsFit(pieces) && forall i :: o.draw(i) == 0
    requires forall i :: 0 <= i < |pieces| ==> !IsFresh(pieces[i])
    ensures var r := RenderPieces(pieces, [], g, o);
            r.Out? ==> |r.text| <= |Source(pieces)| &&
                       ((exists i :: 0 <= i < |pieces| && !Stays(pieces[i])) ==> |r.text| < |Source(pieces)|)
    decreases |pieces|
  {
    hide IsFresh, IsUnknown, RenderTag;
    if pieces != [] {
      var p := pieces[0];
      PieceShrinks(p, g, o);
      var t := RenderPiece(p, [], g, o);
      if t.Out? {
        KnownShrinks(pieces[1..], t.next, o);
        assert forall i :: 1 <= i < |pieces| ==> pieces[i] == pieces[1..][i - 1];
      }
    }
  }

  lemma PieceShrinks(p: Piece, g: Generator, o: Oracle)
    requires (p.Tag? ==> |p.raw| >= 4) && !IsFresh(p) && forall i :: o.draw(i) == 0
    ensures var r, n := RenderPiece(p, [], g, o), |Source([p])|;
            r.Out? ==> |r.text| <= n && (!Stays(p) ==> |r.text| < n)
    ensures |Source([p])| == match p case Plain(_) => 1 case Tag(raw) => |raw|
  {
    hide Parts, ToLower, IsFresh, RenderTag;
    if p.Tag? && !IsUnknown(p) {
      TagShrinks(p.raw, g, o);
    } else if p.Tag? {
      UnknownStays(p.raw, g, o);
    }
  }

  lemma UnknownStays(raw: Text, g: Generator, o: Oracle)
    requires |raw| >= 4 && IsUnknown(Tag(raw))
    ensures RenderTag(raw, [], g, o) == Out(raw, g)
  {
    hide Parts, ToLower;
  }

  ghost predicate AlwaysKept(v: Text) {
    forall params: Params, g: Generator, o: Oracle :: RenderedCell(v, params, g, o) == Some(v)
  }

  /** A text renders to itself, whatever the parameters, the counter and the
      libraries, exactly when it has no tag with an operation in it. */
  lemma AlwaysKeptIff(v: Text)
    ensures TagsFit(Scan(v))
    ensures AlwaysKept(v) <==> forall i :: 0 <= i < |Scan(v)| ==> Stays(Scan(v)[i])
  {
    hide Scan, IsUnknown, IsFresh, RenderPieces;
    ScanFits(v);
    var pieces := Scan(v);
    if forall i :: 0 <= i < |pieces| ==> Stays(pieces[i]) {
      forall params: Params, g: Generator, o: Oracle
        ensures RenderedCell(v, params, g, o) == Some(v)
      {
        UnknownTagsAreKept(v, params, g, o);
      }
    } else if AlwaysKept(v) {
      assert RenderedCell(v, [], Generator(0, 0), Always('x')) == Some(v);
      assert RenderedCell(v, [], Generator(1, 0), Always('y')) == Some(v);
      if i :| 0 <= i < |pieces| && IsFresh(pieces[i]) {
        FreshDiffers(pieces, Generator(0, 0), Generator(1, 0), i);
      } else {
        ScanKeepsSource(v);
        KnownShrinks(pieces, Generator(0, 0), Always('x'));
      }
    }
  }

  // ---------- Two texts that do not ----------

  lemma WordFirst(word: Text, t: Text)
    requires OneWord(word) && Tail(t)
    ensures Fields(word + t) == [word] + Fields(t)
  {
    WordEnds(word, t);
    var s := word + t;
    assert s[0] == word[0] && TrimLeft(s, SPACES) == s;
    assert s[..|word|] == word && s[|word|..] == t;
  }

  lemma BlankFirst(t: Text)
    ensures Fields([' '] + t) == Fields(t)
  {
    assert ([' '] + t)[1..] == t;
  }

  lemma NoFields()
    ensures Fields([]) == []
  {
  }

  /** A tag as a stored value. */
  function TagText(e: Text): (raw: Text)
    ensures |raw| == |e| + 4
  {
    ['{', '{'] + e + ['}', '}']
  }

  lemma CellIsTag(e: Text, params: Params, g: Generator, o: Oracle)
    requires e != [] && forall i :: 0 <= i < |e| ==> !IsBrace(e[i])
    ensures RenderedCell(TagText(e), params, g, o) ==
            match RenderTag(TagText(e), params, g, o) case Out(t, _) => Some(t) case Panics => None
    ensures Parts(TagText(e)) == Fields(TrimSpace(e))
  {
    hide Scan, RenderTag, Fields, TrimSpace;
    var raw := TagText(e);
    ScanTag(e, []);
    ScanEmpty();
    assert raw + [] == raw && [Tag(raw)] + [] == [Tag(raw)];
    assert raw[2..|raw| - 2] == e;
    OnePiece(Tag(raw), params, g, o);
  }

  lemma OnePiece(p: Piece, params: Params, g: Generator, o: Oracle)
    requires p.Tag? ==> |p.raw| >= 4
    ensures RenderPieces([p], params, g, o) == RenderPiece(p, params, g, o)
  {
    hide RenderPiece;
    var r := RenderPiece(p, params, g, o);
    assert r.Out? ==> r.text + [] == r.text;
  }

  /** The first word of a tag says what it does, in any letter case. */
  lemma FirstWordDecides(op: Text, tail: Text, params: Params, g: Generator, o: Oracle)
    requires OneWord(op) && Tail(tail) && NoBrace(op) && NoBrace(tail)
    ensures var parts := Parts(TagText(op + tail)); parts != [] && parts[0] == op
    ensures RenderedCell(TagText(op + tail), params, g, o) ==
            match RenderTag(TagText(op + tail), params, g, o) case Out(t, _) => Some(t) case Panics => None
  {
    hide Fields, TrimSpace, RenderTag, Parts;
    CellIsTag(op + tail, params, g, o);
    FirstWord([], op, tail);
    assert [] + op + tail == op + tail;
  }

  predicate NoBrace(e: Text) {
    forall i :: 0 <= i < |e| ==> !IsBrace(e[i])
  }

  /** A stored `{{seq}}` or `{{sequence}}`, in any letter case, comes back as the
      next number. */
  lemma SequenceComesBackCounted(op: Text, tail: Text, params: Params, g: Generator, o: Oracle)
    requires OneWord(op) && Tail(tail) && NoBrace(op) && NoBrace(tail) && ToLower(op) in {"sequence", "seq"}
    ensures RenderedCell(TagText(op + tail), params, g, o) == Some(FormatInt(Wrap64(g.counter + 1)))
  {
    hide FormatInt, Wrap64, Parts, ToLower, RenderedCell;
    FirstWordDecides(op, tail, params, g, o);
    OperationsDiffer(ToLower(op));
  }

  lemma SeqIsSequence()
    ensures OneWord("seq") && NoBrace("seq") && ToLower("seq") == "seq"
  {
  }

  /** The uuid, time and e-mail tags come back as what the library delivers next. */
  lemma LibraryTagComesBack(op: Text, tail: Text, params: Params, g: Generator, o: Oracle)
    requires OneWord(op) && Tail(tail) && NoBrace(op) && NoBrace(tail) && ToLower(op) in {"uuid", "now", "today", "email"}
    ensures RenderedCell(TagText(op + tail), params, g, o) == Some(o.text(g.used))
  {
    hide Parts, ToLower, RenderedCell;
    FirstWordDecides(op, tail, params, g, o);
    OperationsDiffer(ToLower(op));
  }

  /** Two such tags in one cell take two deliveries, in order. */
  lemma LibraryTagsTakeTurns(a: Text, b: Text, params: Params, g: Generator, o: Oracle)
    requires OneWord(a) && NoBrace(a) && ToLower(a) in {"uuid", "now", "today", "email"}
    requires OneWord(b) && NoBrace(b) && ToLower(b) in {"uuid", "now", "today", "email"}
    ensures RenderedCell(TagText(a) + TagText(b), params, g, o) == Some(o.text(g.used) + o.text(g.used + 1))
  {
    hide Scan, Parts, ToLower, Fields, TrimSpace;
    FirstWordDecides(a, [], params, g, o);
    FirstWordDecides(b, [], params, g, o);
    assert a + [] == a && b + [] == b;
    ScanTag(a, TagText(b));
    ScanTag(b, []);
    ScanEmpty();
    assert TagText(b) + [] == TagText(b) && [Tag(TagText(b))] + [] == [Tag(TagText(b))];
    var pieces := [Tag(TagText(a))] + [Tag(TagText(b))];
    assert pieces[1..] == [Tag(TagText(b))];
    OperationsDiffer(ToLower(a));
    OperationsDiffer(ToLower(b));
    var g1 := g.(used := g.used + 1);
    OnePiece(Tag(TagText(b)), params, g1, o);
  }

  /** A random tag uses its draw up: the next one gets the next draw. */
  lemma RandomTagsTakeTurns(op: Text, lo: int, hi: int, params: Params, g: Generator, o: Oracle)
    requires IsRandomWord(op) && FitsSigned(lo, 64) && FitsSigned(hi, 64) && lo <= hi && FitsSigned(hi - lo + 1, 64)
    ensures var r := RenderTag(TagText(RandomText(op, lo, hi)), params, g, o); r.Out? && r.next == g.(used := g.used + 1)
  {
    hide FormatInt, Parts, Fields, ToLower, RandomIn, SignedValue;
    var e := RandomText(op, lo, hi);
    NumberIsWord(lo);
    NumberIsWord(hi);
    WholeTag(op, FormatInt(lo), FormatInt(hi), e);
    CellIsTag(e, params, g, o);
    TrimKeepsTrimmed(e, SPACES);
    RandomIsNoOther(ToLower(op));
    ParseFormat(lo, 64);
    ParseFormat(hi, 64);
    RandomInRange(lo, hi, o.draw(g.used));
  }

  /** A tag that begins with any other word comes back as it is. */
  lemma OtherTagComesBack(op: Text, tail: Text, params: Params, g: Generator, o: Oracle)
    requires OneWord(op) && Tail(tail) && NoBrace(op) && NoBrace(tail)
    requires ToLower(op) !in {"param", "uuid", "now", "today", "sequence", "seq", "random", "random_int", "email"}
    ensures RenderedCell(TagText(op + tail), params, g, o) == Some(TagText(op + tail))
  {
    hide Parts, ToLower, RenderedCell;
    FirstWordDecides(op, tail, params, g, o);
  }

  /** A parameter tag, with the number written plain or behind a dollar sign, comes
      back as the parameter, or as NULL when there is none of that number or it is
      null; without a number it comes back empty. */
  lemma ParameterComesBack(op: Text, k: nat, dollar: bool, params: Params, g: Generator, o: Oracle)
    requires OneWord(op) && NoBrace(op) && ToLower(op) == "param" && FitsSigned(|params|, 64)
    ensures var number := (if dollar then ['$'] else []) + Itoa(k);
            RenderedCell(TagText(op + ([' '] + number)), params, g, o) ==
            Some(if 1 <= k <= |params| && params[k - 1].Some? then params[k - 1].value else "NULL")
    ensures RenderedCell(TagText(op), params, g, o) == Some([])
  {
    hide Parts, ToLower, RenderedCell, Itoa, Fields, ParseInt;
    var number := (if dollar then ['$'] else []) + Itoa(k);
    NumberIsWord(k);
    assert FormatInt(k) == Itoa(k);
    TwoWords(op, number);
    CellIsTag(op + ([' '] + number), params, g, o);
    TrimKeepsTrimmed(op + ([' '] + number), SPACES);
    NumberRead(k, dollar);
    ParseFormat(k, 64);
    BareParameterIsEmpty(op, params, g, o);
  }

  lemma BareParameterIsEmpty(op: Text, params: Params, g: Generator, o: Oracle)
    requires OneWord(op) && NoBrace(op) && ToLower(op) == "param"
    ensures RenderedCell(TagText(op), params, g, o) == Some([])
  {
    hide ToLower, RenderedCell, Fields;
    TwoWords(op, op);
    CellIsTag(op, params, g, o);
    TrimKeepsTrimmed(op, SPACES);
  }

  lemma NumberRead(k: nat, dollar: bool)
    ensures ParamIndex((if dollar then ['$'] else []) + Itoa(k)) == Itoa(k)
  {
    ItoaValue(k);
    if dollar {
      assert (['$'] + Itoa(k))[..1] == "$" && (['$'] + Itoa(k))[1..] == Itoa(k);
    } else {
      assert [] + Itoa(k) == Itoa(k);
      assert Itoa(k)[..1][0] == Itoa(k)[0];
    }
  }

  lemma TwoWords(a: Text, b: Text)
    requires OneWord(a) && OneWord(b)
    ensures Fields(a) == [a] && Fields(a + ([' '] + b)) == [a, b] && Trimmed(a + ([' '] + b), SPACES)
  {
    hide Fields;
    NoFields();
    WordFirst(a, []);
    WordFirst(b, []);
    assert a + [] == a && b + [] == b;
    WordFirst(a, [' '] + b);
    BlankFirst(b);
  }

  function RandomText(op: Text, lo: int, hi: int): Text {
    op + ([' '] + (FormatInt(lo) + ([' '] + FormatInt(hi))))
  }

  predicate IsRandomWord(op: Text) {
    OneWord(op) && NoBrace(op) && ToLower(op) in {"random", "random_int"}
  }

  lemma RandomTag(op: Text, lo: int, hi: int, params: Params, g: Generator, o: Oracle)
    requires IsRandomWord(op) && FitsSigned(lo, 64) && FitsSigned(hi, 64)
    ensures RenderedCell(TagText(RandomText(op, lo, hi)), params, g, o) ==
            if lo > hi then Some("0")
            else match RandomIn(lo, hi, o.draw(g.used)) case Some(n) => Some(FormatInt(n)) case None => None
  {
    hide FormatInt, Parts, Fields, ToLower, RandomIn, SignedValue;
    var e := RandomText(op, lo, hi);
    NumberIsWord(lo);
    NumberIsWord(hi);
    WholeTag(op, FormatInt(lo), FormatInt(hi), e);
    CellIsTag(e, params, g, o);
    TrimKeepsTrimmed(e, SPACES);
    RandomIsNoOther(ToLower(op));
    ParseFormat(lo, 64);
    ParseFormat(hi, 64);
  }

  /** A stored random tag panics when it is selected exactly when its range is too
      wide: `{{random 0 9223372036854775807}}` does. */
  lemma RandomPanicsIff(op: Text, lo: int, hi: int, params: Params, g: Generator, o: Oracle)
    requires IsRandomWord(op) && FitsSigned(lo, 64) && FitsSigned(hi, 64) && lo <= hi
    ensures RenderedCell(TagText(RandomText(op, lo, hi)), params, g, o) == None <==> !FitsSigned(hi - lo + 1, 64)
  {
    hide RandomText, RandomIn, IsRandomWord, RenderedCell;
    RandomTag(op, lo, hi, params, g, o);
    RandomInRange(lo, hi, o.draw(g.used));
  }

  /** Otherwise it comes back as the number drawn, counted from the lower bound and
      never above the upper; with its bounds in the wrong order it is 0. */
  lemma RandomComesBackInRange(op: Text, lo: int, hi: int, params: Params, g: Generator, o: Oracle) returns (n: int)
    requires IsRandomWord(op) && FitsSigned(lo, 64) && FitsSigned(hi, 64)
    ensures lo <= hi && FitsSigned(hi - lo + 1, 64) ==>
              && RenderedCell(TagText(RandomText(op, lo, hi)), params, g, o) == Some(FormatInt(n))
              && lo <= n <= hi && (o.draw(g.used) <= hi - lo ==> n == lo + o.draw(g.used))
    ensures lo > hi ==> RenderedCell(TagText(RandomText(op, lo, hi)), params, g, o) == Some("0")
  {
    hide RandomText, RandomIn, IsRandomWord, RenderedCell, FormatInt;
    RandomTag(op, lo, hi, params, g, o);
    n := lo;
    if lo <= hi {
      RandomInRange(lo, hi, o.draw(g.used));
      match RandomIn(lo, hi, o.draw(g.used))
      case Some(k) => n := k;
      case None =>
    }
  }

  lemma NumberIsWord(n: int)
    ensures OneWord(FormatInt(n)) && NoBrace(FormatInt(n))
  {
    ItoaValue(if n < 0 then -n else n);
  }

  lemma RandomIsNoOther(op: Text)
    ensures IsRandom(op) ==> op != "param" && !IsLibrary(op) && !IsSequence(op)
  {
  }

  lemma WholeTag(a: Text, b: Text, c: Text, e: Text)
    requires OneWord(a) && OneWord(b) && OneWord(c) && e == a + ([' '] + (b + ([' '] + c)))
    ensures Fields(e) == [a, b, c] && Trimmed(e, SPACES)
  {
    hide Fields;
    NoFields();
    WordFirst(a, [' '] + (b + ([' '] + c)));
    BlankFirst(b + ([' '] + c));
    WordFirst(b, [' '] + c);
    BlankFirst(c);
    WordFirst(c, []);
    assert c + [] == c;
  }

  // ---------- From the store to the client ----------

  /** The rows of a table as messages, value by value. */
  function AsStored(rows: seq<Row>): (ms: seq<Backend.Reply>)
    ensures |ms| == |rows| && forall r :: 0 <= r < |rows| ==> ms[r].DataRow? && |ms[r].values| == |rows[r]|
    ensures forall r, c :: 0 <= r < |rows| && 0 <= c < |rows[r]| ==> ms[r].values[c] == Some(rows[r][c])
  {
    seq(|rows|, r requires 0 <= r < |rows| =>
      Backend.DataRow(seq(|rows[r]|, c requires 0 <= c < |rows[r]| => Some(rows[r][c]))))
  }

  /** No value is the text NULL and each renders to itself where it is rendered. */
  ghost predicate RowsKept(rows: seq<Row>, params: Params, at: (nat, nat) -> Generator, o: Oracle) {
    forall r, c :: 0 <= r < |rows| && 0 <= c < |rows[r]| ==>
      rows[r][c] != NULL && RenderedCell(rows[r][c], params, at(r, c), o) == Some(rows[r][c])
  }

  lemma {:induction false} CutShort(a: Answered, formats: seq<int>, lib: Library, n: nat)
    requires n <= |a.rule.rows|
    ensures |RowsUpTo(a, formats, lib, n).sent| <= n
  {
    hide Cells;
    if n > 0 {
      CutShort(a, formats, lib, n - 1);
    }
  }

  lemma ShownIff(a: Answered, params: Params, at: (nat, nat) -> Generator, o: Oracle, r: nat, c: nat, lib: Library)
    requires RenderedWith(a, params, at, o) && r < |a.rule.rows| && c < |a.rule.rows[r]| && c < |a.rule.columns|
    ensures var v := a.rule.rows[r][c];
            Shown(a, r, c, FieldsOf(a.rule, [])[c], lib) == Some(v) <==>
            v != NULL && RenderedCell(v, params, at(r, c), o) == Some(v)
  {
    hide RenderedCell, TypeSize, ColumnOID;
  }

  lemma SentIsStoredIff(a: Answered, params: Params, at: (nat, nat) -> Generator, o: Oracle, lib: Library)
    requires RenderedWith(a, params, at, o)
    requires forall r :: 0 <= r < |a.rule.rows| ==> |a.rule.rows[r]| == |a.rule.columns|
    requires RowsUpTo(a, [], lib, |a.rule.rows|).whole
    ensures RowsUpTo(a, [], lib, |a.rule.rows|).sent == AsStored(a.rule.rows) <==> RowsKept(a.rule.rows, params, at, o)
  {
    hide RowsUpTo, Shown, FieldOf, RenderedCell, RenderedWith;
    var rows, sent := a.rule.rows, RowsUpTo(a, [], lib, |a.rule.rows|).sent;
    RowsShape(a, [], lib, |rows|);
    forall r, c | 0 <= r < |rows| && 0 <= c < |rows[r]|
      ensures |sent| == |rows| && sent[r].DataRow? && |sent[r].values| == |rows[r]|
      ensures sent[r].values[c] == Some(rows[r][c]) <==>
              rows[r][c] != NULL && RenderedCell(rows[r][c], params, at(r, c), o) == Some(rows[r][c])
    {
      RowIsShown(a, [], lib, r);
      ShownIff(a, params, at, o, r, c, lib);
    }
    if RowsKept(rows, params, at, o) {
      forall r | 0 <= r < |rows|
        ensures sent[r] == AsStored(rows)[r]
      {
        RowIsShown(a, [], lib, r);
        assert sent[r].values == AsStored(rows)[r].values;
      }
    }
  }

  lemma KeptRenders(a: Answered, params: Params, at: (nat, nat) -> Generator, o: Oracle)
    requires RenderedWith(a, params, at, o) && RowsKept(a.rule.rows, params, at, o)
    ensures Renders(a)
  {
    hide RenderedCell;
  }

  lemma StarAnswer(db: Database, table: Text, params: Params)
    requires SanitizeName(table) in db && Rectangular(db[SanitizeName(table)])
    ensures var t, rule := db[SanitizeName(table)], Answer(db, Select(ALL, table, []), params);
            && rule.columns == t.columns && rule.rows == t.rows && rule.tag != []
            && !rule.dropConnection && rule.error.None?
            && forall r :: 0 <= r < |t.rows| ==> |t.rows[r]| == |t.columns|
  {
    hide SanitizeName;
    var t := db[SanitizeName(table)];
    EverySelected(t.columns, t.rows, params);
    var verb: Text := "SELECT ";
    assert |CountTag(verb, |t.rows|)| >= |verb|;
  }

  /** SELECT * over the simple protocol sends the table's rows value by value as
      they are stored, and completes, exactly when no value is the text NULL and
      each renders to itself. */
  lemma StoredRowsShownIff(s: Session, db: Database, table: Text, params: Params, a: Answered,
                           at: (nat, nat) -> Generator, o: Oracle, lib: Library)
    requires s.phase.Running? && !s.closed
    requires SanitizeName(table) in db && Rectangular(db[SanitizeName(table)]) && db[SanitizeName(table)].columns != []
    requires a.rule == Answer(db, Select(ALL, table, []), params) && RenderedWith(a, params, at, o)
    ensures var rows := db[SanitizeName(table)].rows;
            Respond(s, a, [], lib).trace ==
            s.trace + [Backend.RowDescription(FieldsOf(a.rule, []))] + AsStored(rows) + [Backend.CommandComplete(a.rule.tag)]
            <==> RowsKept(rows, params, at, o)
  {
    hide Answer, SanitizeName, RowsUpTo, AsStored, RowsKept, RenderedWith, FieldsOf, Renders;
    StarAnswer(db, table, params);
    var rows := db[SanitizeName(table)].rows;
    var sent := RowsUpTo(a, [], lib, |rows|);
    RespondCrashesIff(s, a, [], lib);
    CutShort(a, [], lib, |rows|);
    var head := s.trace + [Backend.RowDescription(FieldsOf(a.rule, []))];
    var end := [Backend.CommandComplete(a.rule.tag)];
    if sent.whole {
      RowsShape(a, [], lib, |rows|);
      SentIsStoredIff(a, params, at, o, lib);
      assert Respond(s, a, [], lib).trace == head + sent.sent + end;
      MiddleSame(head, sent.sent, AsStored(rows), end);
    } else {
      assert Respond(s, a, [], lib).trace == head + sent.sent;
      if RowsKept(rows, params, at, o) {
        KeptRenders(a, params, at, o);
      }
    }
  }

  lemma MiddleSame<T>(a: seq<T>, b: seq<T>, c: seq<T>, d: seq<T>)
    requires |b| == |c|
    ensures a + b + d == a + c + d <==> b == c
  {
    if a + b + d == a + c + d {
      assert (a + b + d)[|a|..|a| + |b|] == b;
      assert (a + c + d)[|a|..|a| + |c|] == c;
    }
  }

  lemma InsertKeepsShape(db: Database, table: Text, colList: Text, values: Text, params: Params)
    requires SanitizeName(table) in db && Rectangular(db[SanitizeName(table)])
    ensures var t, parsed := db[SanitizeName(table)], InsertRows(values, params);
            var after := Exec(db, Insert(table, colList, values), params);
            && SanitizeName(table) in after && Rectangular(after[SanitizeName(table)])
            && after[SanitizeName(table)] == t.(rows := t.rows + FitRows(parsed, |t.columns|))
  {
    hide SanitizeName, InsertRows;
  }

  lemma SentIsNoLonger(s: Session, a: Answered, lib: Library)
    requires s.phase.Running? && !s.closed
    requires a.rule.columns != [] && !a.rule.dropConnection && a.rule.error.None?
    ensures |Respond(s, a, [], lib).trace| <= |s.trace| + 1 + |a.rule.rows| + 1
  {
    hide RowsUpTo, FieldsOf;
    CutShort(a, [], lib, |a.rule.rows|);
  }

  /** Rows inserted from their text and then selected reach the client, behind the
      rows the table had and value by value as they were meant, exactly when the
      word RETURNING stands between blanks in no value, no value is the text NULL
      and each renders to itself. */
  lemma InsertedRowsShownIff(s: Session, db: Database, table: Text, colList: Text, rows: seq<seq<Cell>>, gap: Text,
                             bound: Params, params: Params, a: Answered, at: (nat, nat) -> Generator, o: Oracle, lib: Library)
    requires s.phase.Running? && !s.closed
    requires SanitizeName(table) in db && Rectangular(db[SanitizeName(table)]) && db[SanitizeName(table)].columns != []
    requires ReadableRows(rows, bound) && IsGap(gap) && FitsSigned(|bound|, 64)
    requires a.rule == Answer(Exec(db, Insert(table, colList, PrintRows(rows, gap)), bound), Select(ALL, table, []), params)
    requires RenderedWith(a, params, at, o)
    ensures var t := db[SanitizeName(table)];
            var meant := t.rows + FitRows(CellValues(rows, bound), |t.columns|);
            Respond(s, a, [], lib).trace ==
            s.trace + [Backend.RowDescription(FieldsOf(a.rule, []))] + AsStored(meant) + [Backend.CommandComplete(a.rule.tag)]
            <==> !Returns(PrintRows(rows, gap)) && RowsKept(meant, params, at, o)
  {
    hide SanitizeName, Exec, Answer, PrintRows, ReadableRows, CellValues, FitRows, AsStored, RowsKept, RenderedWith;
    hide FieldsOf, Respond, Returns, InsertRows;
    var values, t := PrintRows(rows, gap), db[SanitizeName(table)];
    var after := Exec(db, Insert(table, colList, values), bound);
    InsertKeepsShape(db, table, colList, values, bound);
    StarAnswer(after, table, params);
    if Returns(values) {
      ReturningLosesRows(rows, gap, bound);
      SentIsNoLonger(s, a, lib);
    } else {
      InsertedRowsReadBack(rows, gap, bound);
      StoredRowsShownIff(s, after, table, params, a, at, o, lib);
    }
  }

  lemma InsertedRowsReadBack(rows: seq<seq<Cell>>, gap: Text, bound: Params)
    requires ReadableRows(rows, bound) && IsGap(gap) && FitsSigned(|bound|, 64)
    requires !Returns(PrintRows(rows, gap))
    ensures InsertRows(PrintRows(rows, gap), bound) == CellValues(rows, bound)
  {
    hide PrintRows, ValuesOf, SplitReturning, ReadableRows;
    NothingCut(PrintRows(rows, gap));
    PrintedRowsReadBack(rows, gap, bound);
  }
}
