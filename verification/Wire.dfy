/** Big-endian integers, NUL-terminated strings and the other pieces protocol
    messages are made of, with the reads that take them apart again. */
module Wire {
  import opened Text

  // ---------- Integers ----------

  function Octet(n: int): byte
    requires 0 <= n < 256
  {
    n as char
  }

  /** PutUint16 and PutUint32: the low bits of n, most significant byte first. */
  function Be16(n: int): (s: Text)
    ensures |s| == 2
  {
    [Octet(n / 0x100 % 0x100), Octet(n % 0x100)]
  }

  function Be32(n: int): (s: Text)
    ensures |s| == 4
  {
    Be16(n / 0x1_0000) + Be16(n)
  }

  function Be64(n: int): (s: Text)
    ensures |s| == 8
  {
    Be32(n / 0x1_0000_0000) + Be32(n)
  }

  function Uint16(s: Text): (n: nat)
    requires |s| >= 2
    ensures n < 0x1_0000
  {
    s[0] as int * 0x100 + s[1] as int
  }

  function Uint32(s: Text): (n: nat)
    requires |s| >= 4
    ensures n < 0x1_0000_0000
  {
    Uint16(s) * 0x1_0000 + Uint16(s[2..])
  }

  function Uint64(s: Text): (n: nat)
    requires |s| >= 8
    ensures n < 0x1_0000_0000_0000_0000
  {
    Uint32(s) * 0x1_0000_0000 + Uint32(s[4..])
  }

  /** The two's-complement reading of an unsigned number of the given width. */
  function Signed(n: nat, bits: nat): int {
    if n < SignedLimit(bits) then n else n - 2 * SignedLimit(bits)
  }

  lemma Uint16Be(n: int)
    ensures Uint16(Be16(n)) == n % 0x1_0000
  {
  }

  lemma Uint32Be(n: int)
    ensures Uint32(Be32(n)) == n % 0x1_0000_0000
  {
    Uint16Be(n / 0x1_0000);
    Uint16Be(n);
    assert Be32(n)[2..] == Be16(n);
    assert Uint16(Be32(n)) == Uint16(Be16(n / 0x1_0000));
  }

  lemma Uint64Be(n: int)
    ensures Uint64(Be64(n)) == n % 0x1_0000_0000_0000_0000
  {
    hide Be32, Uint32;
    Uint32Be(n / 0x1_0000_0000);
    Uint32Be(n);
    assert Be64(n)[4..] == Be32(n);
    assert Be64(n)[..4] == Be32(n / 0x1_0000_0000);
    Uint32Prefix(Be64(n));
  }

  lemma Uint32Prefix(s: Text)
    requires |s| >= 4
    ensures Uint32(s) == Uint32(s[..4])
  {
  }

  // ---------- Reading ----------

  datatype ReadError = EOF | UnexpectedEOF | EmptyDescribe | EmptyClose

  /** A read from the front of the remaining bytes. `Panicked` is a Go run-time
      panic: a slice of negative length. */
  datatype Read<+T> = Got(value: T, rest: Text) | Failed(error: ReadError) | Panicked
  {
    predicate IsFailure() {
      !Got?
    }

    function PropagateFailure<U>(): Read<U>
      requires IsFailure()
    {
      match this
      case Failed(e) => Failed(e)
      case Panicked => Panicked
    }

    function Extract(): (T, Text)
      requires Got?
    {
      (value, rest)
    }
  }

  function NullString(s: Text): Read<Text> {
    var i := Find(s, NUL);
    if i == |s| then Failed(EOF) else Got(s[..i], s[i + 1..])
  }

  function Short(s: Text): ReadError {
    if s == [] then EOF else UnexpectedEOF
  }

  function Int16(s: Text): Read<int> {
    if |s| < 2 then Failed(Short(s)) else Got(Signed(Uint16(s), 16), s[2..])
  }

  function Int32(s: Text): Read<int> {
    if |s| < 4 then Failed(Short(s)) else Got(Signed(Uint32(s), 32), s[4..])
  }

  function Int16s(s: Text, n: nat): Read<seq<int>> {
    if n == 0 then Got([], s)
    else
      var (x, s1) :- Int16(s);
      var (xs, s2) :- Int16s(s1, n - 1);
      Got([x] + xs, s2)
  }

  function Int32s(s: Text, n: nat): Read<seq<int>> {
    if n == 0 then Got([], s)
    else
      var (x, s1) :- Int32(s);
      var (xs, s2) :- Int32s(s1, n - 1);
      Got([x] + xs, s2)
  }

  /** io.ReadFull of n bytes. */
  function Bytes(s: Text, n: nat): Read<Text> {
    if |s| < n then Failed(Short(s)) else Got(s[..n], s[n..])
  }

  /** One length-prefixed parameter; every negative length leaves it NULL. */
  function Parameter(s: Text): Read<Option<Text>> {
    var (len, s1) :- Int32(s);
    if len < 0 then Got(None, s1)
    else
      var (v, s2) :- Bytes(s1, len);
      Got(Some(v), s2)
  }

  function Parameters(s: Text, n: nat): Read<Params> {
    if n == 0 then Got([], s)
    else
      var (p, s1) :- Parameter(s);
      var (ps, s2) :- Parameters(s1, n - 1);
      Got([p] + ps, s2)
  }

  // ---------- Writing ----------

  function Terminated(s: Text): Text {
    s + [NUL]
  }

  function Be16s(xs: seq<int>): Text {
    if xs == [] then [] else Be16(xs[0]) + Be16s(xs[1..])
  }

  function Be32s(xs: seq<int>): Text {
    if xs == [] then [] else Be32(xs[0]) + Be32s(xs[1..])
  }

  /** A value with its length in front; NULL is the length -1 and no bytes. */
  function PutValue(p: Option<Text>): Text {
    match p
    case None => Be32(-1)
    case Some(v) => Be32(|v|) + v
  }

  function PutValues(ps: Params): Text {
    if ps == [] then [] else PutValue(ps[0]) + PutValues(ps[1..])
  }

  ghost predicate AllFit(xs: seq<int>, bits: nat) {
    forall i :: 0 <= i < |xs| ==> FitsSigned(xs[i], bits)
  }

  ghost predicate ValuesFit(ps: Params) {
    forall i :: 0 <= i < |ps| && ps[i].Some? ==> FitsSigned(|ps[i].value|, 32)
  }

  // ---------- What is written reads back ----------

  lemma NullStringBack(a: Text, rest: Text)
    requires NUL !in a
    ensures NullString(Terminated(a) + rest) == Got(a, rest)
  {
    var s := Terminated(a) + rest;
    assert s == a + [NUL] + rest;
    FindAfter(a, NUL, rest);
    assert s[..|a|] == a;
  }

  lemma LastStringBack(a: Text)
    requires NUL !in a
    ensures NullString(Terminated(a)) == Got(a, [])
  {
    NullStringBack(a, []);
    assert Terminated(a) + [] == Terminated(a);
  }

  lemma Int16Back(n: int, rest: Text)
    requires FitsSigned(n, 16)
    ensures Int16(Be16(n) + rest) == Got(n, rest)
  {
    var s := Be16(n) + rest;
    Uint16Be(n);
    assert Uint16(s) == Uint16(Be16(n));
    assert s[2..] == rest;
  }

  lemma Int32Back(n: int, rest: Text)
    requires FitsSigned(n, 32)
    ensures Int32(Be32(n) + rest) == Got(n, rest)
  {
    var s := Be32(n) + rest;
    Uint32Be(n);
    assert s[..4] == Be32(n);
    Uint32Prefix(s);
    assert s[4..] == rest;
  }

  lemma {:induction false} Int16sBack(xs: seq<int>, rest: Text)
    requires AllFit(xs, 16)
    ensures Int16s(Be16s(xs) + rest, |xs|) == Got(xs, rest)
  {
    hide Int16, Be16;
    if xs == [] {
      assert Be16s(xs) + rest == rest;
    } else {
      var tail := Be16s(xs[1..]) + rest;
      assert Be16s(xs) + rest == Be16(xs[0]) + tail;
      Int16Back(xs[0], tail);
      Int16sBack(xs[1..], rest);
      assert [xs[0]] + xs[1..] == xs;
    }
  }

  lemma {:induction false} Int32sBack(xs: seq<int>, rest: Text)
    requires AllFit(xs, 32)
    ensures Int32s(Be32s(xs) + rest, |xs|) == Got(xs, rest)
  {
    hide Int32, Be32;
    if xs == [] {
      assert Be32s(xs) + rest == rest;
    } else {
      var tail := Be32s(xs[1..]) + rest;
      assert Be32s(xs) + rest == Be32(xs[0]) + tail;
      Int32Back(xs[0], tail);
      Int32sBack(xs[1..], rest);
      assert [xs[0]] + xs[1..] == xs;
    }
  }

  lemma ParameterBack(p: Option<Text>, rest: Text)
    requires p.Some? ==> FitsSigned(|p.value|, 32)
    ensures Parameter(PutValue(p) + rest) == Got(p, rest)
  {
    hide Int32, Be32;
    match p
    case None =>
      Int32Back(-1, rest);
    case Some(v) =>
      assert PutValue(p) + rest == Be32(|v|) + (v + rest);
      Int32Back(|v|, v + rest);
      assert (v + rest)[..|v|] == v && (v + rest)[|v|..] == rest;
  }

  lemma {:induction false} ParametersBack(ps: Params, rest: Text)
    requires ValuesFit(ps)
    ensures Parameters(PutValues(ps) + rest, |ps|) == Got(ps, rest)
  {
    hide Parameter, PutValue;
    if ps == [] {
      assert PutValues(ps) + rest == rest;
    } else {
      var tail := PutValues(ps[1..]) + rest;
      assert PutValues(ps) + rest == PutValue(ps[0]) + tail;
      ParameterBack(ps[0], tail);
      ParametersBack(ps[1..], rest);
      assert [ps[0]] + ps[1..] == ps;
    }
  }

  // ---------- Frames ----------

  datatype Frame = Frame(kind: byte, payload: Text)

  /** The next frame, or why the loop ends: no more bytes, a length below 4, or
      a length whose payload size is negative as an int32 (a panic). */
  datatype Arrival = Whole(frame: Frame, rest: Text) | End | BadLength | Oversized

  function NextFrame(s: Text): (r: Arrival)
    ensures r.Whole? ==> |r.rest| < |s|
  {
    if |s| < 5 then End
    else
      var n := Uint32(s[1..5]);
      if n < 4 then BadLength
      else if n - 4 >= SignedLimit(32) then Oversized
      else if |s| - 5 < n - 4 then End
      else Whole(Frame(s[0], s[5..n + 1]), s[n + 1..])
  }

  function PutFrame(f: Frame): (s: Text)
    ensures |s| == 5 + |f.payload|
  {
    [f.kind] + (Be32(4 + |f.payload|) + f.payload)
  }

  /** A written frame is taken off the front of any stream, whole. */
  lemma FrameBack(f: Frame, rest: Text)
    requires FitsSigned(|f.payload|, 32)
    ensures NextFrame(PutFrame(f) + rest) == Whole(f, rest)
  {
    hide Be32, Uint32;
    var s := PutFrame(f) + rest;
    Uint32Be(4 + |f.payload|);
    assert s[1..5] == Be32(4 + |f.payload|);
    assert s[5..5 + |f.payload|] == f.payload;
    assert s[5 + |f.payload|..] == rest;
  }

  /** A frame cut short yields nothing. */
  lemma FrameCut(f: Frame, n: nat)
    requires FitsSigned(|f.payload|, 32) && n < |PutFrame(f)|
    ensures NextFrame(PutFrame(f)[..n]) == End
  {
    hide Be32, Uint32;
    var s := PutFrame(f)[..n];
    if n >= 5 {
      Uint32Be(4 + |f.payload|);
      assert s[1..5] == Be32(4 + |f.payload|);
    }
  }

  /** What five bytes of header open: a length counts itself, so one below 4 ends the
      loop; one whose payload a signed 32-bit number cannot count panics; otherwise the
      frame is taken when all of it has come. */
  lemma FrameOpens(kind: byte, n: nat, rest: Text)
    requires n < 0x1_0000_0000
    ensures var r := NextFrame([kind] + Be32(n) + rest);
            if n < 4 then r == BadLength
            else if n - 4 >= 0x8000_0000 then r == Oversized
            else if |rest| < n - 4 then r == End
            else r == Whole(Frame(kind, rest[..n - 4]), rest[n - 4..])
  {
    hide Be32, Uint32;
    var s := [kind] + Be32(n) + rest;
    Uint32Be(n);
    assert s[1..5] == Be32(n) && s[5..] == rest;
    if 4 <= n && n - 4 <= |rest| {
      assert s[5..n + 1] == rest[..n - 4] && s[n + 1..] == rest[n - 4..];
    }
  }
}
