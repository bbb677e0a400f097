/** Go strings and byte slices, and the parts of Go's `strings` and `strconv`
    packages the server relies on. Both are sequences of 8-bit units, so one type
    serves for both and the conversions between them disappear. Letter case and
    white space are those of ASCII. */
module Text {
  type byte = c: char | c as int < 256 witness '\0'
  type Text = seq<byte>

  datatype Option<+T> = None | Some(value: T)

  /** The bound parameters of a statement; None is SQL NULL (a nil slice). */
  type Params = seq<Option<Text>>

  const NUL: byte := '\0'

  /** White space to strings.TrimSpace and strings.Fields. */
  const SPACES: set<byte> := {'\t', '\n', '\U{0B}', '\U{0C}', '\r', ' '}
  const QUOTES: set<byte> := {'"', '\''}
  const NAME_QUOTES: set<byte> := {'"', '\'', '`'}

  const NULL: Text := "NULL"

  function Lower(c: byte): byte {
    if 'A' <= c <= 'Z' then c + 32 as char else c
  }

  function Upper(c: byte): byte {
    if 'a' <= c <= 'z' then c - 32 as char else c
  }

  function ToLower(s: Text): (r: Text)
    ensures |r| == |s|
  {
    seq(|s|, i requires 0 <= i < |s| => Lower(s[i]))
  }

  function ToUpper(s: Text): (r: Text)
    ensures |r| == |s|
  {
    seq(|s|, i requires 0 <= i < |s| => Upper(s[i]))
  }

  predicate EqualFold(a: Text, b: Text) {
    ToLower(a) == ToLower(b)
  }

  lemma LowerIdempotent(s: Text)
    ensures ToLower(ToLower(s)) == ToLower(s)
  {
    assert forall c: byte :: Lower(Lower(c)) == Lower(c);
  }

  function TrimLeft(s: Text, cut: set<byte>): (r: Text)
    ensures |r| <= |s|
    ensures r != [] ==> r[0] !in cut
  {
    if s != [] && s[0] in cut then TrimLeft(s[1..], cut) else s
  }

  function TrimRight(s: Text, cut: set<byte>): (r: Text)
    ensures |r| <= |s|
    ensures r != [] ==> r[|r| - 1] !in cut
  {
    if s != [] && s[|s| - 1] in cut then TrimRight(s[..|s| - 1], cut) else s
  }

  function Trim(s: Text, cut: set<byte>): Text {
    TrimRight(TrimLeft(s, cut), cut)
  }

  function TrimSpace(s: Text): Text {
    Trim(s, SPACES)
  }

  predicate AllBlank(s: Text, cut: set<byte>) {
    forall i :: 0 <= i < |s| ==> s[i] in cut
  }

  /** The text has nothing to trim at either end. */
  predicate Trimmed(s: Text, cut: set<byte>) {
    s == [] || (s[0] !in cut && s[|s| - 1] !in cut)
  }

  lemma TrimKeepsTrimmed(s: Text, cut: set<byte>)
    requires Trimmed(s, cut)
    ensures Trim(s, cut) == s
  {
  }

  lemma {:induction false} TrimRightIsPrefix(s: Text, cut: set<byte>)
    ensures TrimRight(s, cut) == s[..|TrimRight(s, cut)|]
  {
    if s != [] && s[|s| - 1] in cut {
      var t := s[..|s| - 1];
      TrimRightIsPrefix(t, cut);
      assert t[..|TrimRight(t, cut)|] == s[..|TrimRight(t, cut)|];
    }
  }

  lemma {:induction false} TrimLeftIsSuffix(s: Text, cut: set<byte>)
    ensures TrimLeft(s, cut) == s[|s| - |TrimLeft(s, cut)|..]
  {
    if s != [] && s[0] in cut {
      TrimLeftIsSuffix(s[1..], cut);
    }
  }

  /** The trimmed text is a slice of the text, with nothing left to trim. */
  lemma TrimIsSlice(s: Text, cut: set<byte>) returns (from: nat, to: nat)
    ensures from <= to <= |s| && Trim(s, cut) == s[from..to]
    ensures Trimmed(Trim(s, cut), cut)
  {
    var t := TrimLeft(s, cut);
    TrimLeftIsSuffix(s, cut);
    TrimRightIsPrefix(t, cut);
    from := |s| - |t|;
    to := from + |TrimRight(t, cut)|;
  }

  lemma {:induction false} TrimLeftCut(p: Text, s: Text, cut: set<byte>)
    requires forall i :: 0 <= i < |p| ==> p[i] in cut
    ensures TrimLeft(p + s, cut) == TrimLeft(s, cut)
  {
    if p == [] {
      assert p + s == s;
    } else {
      assert (p + s)[1..] == p[1..] + s;
      TrimLeftCut(p[1..], s, cut);
    }
  }

  lemma {:induction false} TrimRightCut(s: Text, p: Text, cut: set<byte>)
    requires forall i :: 0 <= i < |p| ==> p[i] in cut
    ensures TrimRight(s + p, cut) == TrimRight(s, cut)
  {
    if p == [] {
      assert s + p == s;
    } else {
      assert (s + p)[..|s + p| - 1] == s + p[..|p| - 1];
      TrimRightCut(s, p[..|p| - 1], cut);
    }
  }

  /** Trimming removes exactly the cut bytes around an already trimmed core. */
  lemma TrimAround(p: Text, s: Text, q: Text, cut: set<byte>)
    requires forall i :: 0 <= i < |p| ==> p[i] in cut
    requires forall i :: 0 <= i < |q| ==> q[i] in cut
    requires Trimmed(s, cut)
    ensures Trim(p + s + q, cut) == s
  {
    assert p + s + q == p + (s + q);
    TrimLeftCut(p, s + q, cut);
    if s == [] {
      assert s + q == q + [];
      TrimLeftCut(q, [], cut);
    } else {
      assert TrimLeft(s + q, cut) == s + q;
      TrimRightCut(s, q, cut);
    }
  }

  /** The first position of c, or the length when there is none. */
  function Find(s: Text, c: byte): (i: nat)
    ensures i <= |s|
    ensures i < |s| ==> s[i] == c
  {
    if s == [] || s[0] == c then 0 else 1 + Find(s[1..], c)
  }

  lemma {:induction false} FindFirst(s: Text, c: byte)
    ensures c !in s[..Find(s, c)]
  {
    if s != [] && s[0] != c {
      FindFirst(s[1..], c);
      assert s[..Find(s, c)] == [s[0]] + s[1..][..Find(s[1..], c)];
    }
  }

  lemma {:induction false} FindAfter(a: Text, c: byte, b: Text)
    requires c !in a
    ensures Find(a + [c] + b, c) == |a|
  {
    var s := a + [c] + b;
    if a != [] {
      assert s[1..] == a[1..] + [c] + b;
      assert a[0] in a;
      FindAfter(a[1..], c, b);
    }
  }

  lemma {:induction false} FindNone(s: Text, c: byte)
    requires c !in s
    ensures Find(s, c) == |s|
  {
    if s != [] {
      assert s[0] in s;
      FindNone(s[1..], c);
    }
  }

  /** The first position where p starts in s, or -1. */
  function IndexOf(s: Text, p: Text): (i: int)
    ensures -1 <= i && (i >= 0 ==> i + |p| <= |s|)
  {
    if HasPrefix(s, p) then 0
    else if s == [] then -1
    else
      var k := IndexOf(s[1..], p);
      if k < 0 then -1 else k + 1
  }

  predicate Contains(s: Text, p: Text) {
    IndexOf(s, p) >= 0
  }

  predicate HasPrefix(s: Text, p: Text) {
    |p| <= |s| && s[..|p|] == p
  }

  predicate HasSuffix(s: Text, p: Text) {
    |p| <= |s| && s[|s| - |p|..] == p
  }

  /** The text after the last dot, or all of it. */
  function AfterLastDot(s: Text): Text
    decreases |s|
  {
    var i := Find(s, '.');
    if i == |s| then s else AfterLastDot(s[i + 1..])
  }

  /** strings.Split with a one-byte separator. */
  function Split(s: Text, c: byte): (parts: seq<Text>)
    ensures |parts| > 0
    decreases |s|
  {
    var i := Find(s, c);
    if i == |s| then [s] else [s[..i]] + Split(s[i + 1..], c)
  }

  /** A part of a split is a slice of the text without the separator. */
  lemma {:induction false} SplitPart(s: Text, c: byte, n: nat)
    requires n < |Split(s, c)|
    ensures c !in Split(s, c)[n]
    ensures forall x :: x in Split(s, c)[n] ==> x in s
    decreases |s|
  {
    var i := Find(s, c);
    FindFirst(s, c);
    assert s[..|s|] == s;
    if i < |s| && n > 0 {
      SplitPart(s[i + 1..], c, n - 1);
    }
  }

  function Join(parts: seq<Text>, c: byte): Text
    requires |parts| > 0
  {
    if |parts| == 1 then parts[0] else parts[0] + [c] + Join(parts[1..], c)
  }

  lemma SplitWhole(s: Text, c: byte)
    requires c !in s
    ensures Split(s, c) == [s]
  {
    FindNone(s, c);
  }

  lemma SplitOnce(a: Text, c: byte, rest: Text)
    requires c !in a
    ensures Split(a + [c] + rest, c) == [a] + Split(rest, c)
  {
    hide Find;
    FindAfter(a, c, rest);
    var s := a + [c] + rest;
    assert s[..|a|] == a;
    assert s[|a| + 1..] == rest;
  }

  lemma {:induction false} SplitJoin(parts: seq<Text>, c: byte)
    requires |parts| > 0
    requires forall i :: 0 <= i < |parts| ==> c !in parts[i]
    ensures Split(Join(parts, c), c) == parts
  {
    hide Split, Find;
    if |parts| == 1 {
      SplitWhole(parts[0], c);
    } else {
      SplitOnce(parts[0], c, Join(parts[1..], c));
      SplitJoin(parts[1..], c);
      assert [parts[0]] + parts[1..] == parts;
    }
  }

  /** strings.Fields: the maximal runs of bytes that are not white space. */
  function Fields(s: Text): seq<Text>
    decreases |s|
  {
    var t := TrimLeft(s, SPACES);
    if t == [] then []
    else
      var n := WordLength(t);
      [t[..n]] + Fields(t[n..])
  }

  function WordLength(s: Text): (n: nat)
    ensures n <= |s|
    ensures s != [] && s[0] !in SPACES ==> n > 0
  {
    if s == [] || s[0] in SPACES then 0 else 1 + WordLength(s[1..])
  }

  // ---------- Decimal numbers ----------

  predicate IsDigit(c: byte) {
    '0' <= c <= '9'
  }

  function DigitOf(n: nat): (c: byte)
    requires n < 10
    ensures IsDigit(c)
  {
    ('0' as int + n) as char
  }

  function DigitValue(c: byte): (n: nat)
    requires IsDigit(c)
    ensures n < 10
  {
    c as int - '0' as int
  }

  function Itoa(n: nat): (s: Text)
    ensures s != []
  {
    if n < 10 then [DigitOf(n)] else Itoa(n / 10) + [DigitOf(n % 10)]
  }

  function FormatInt(n: int): Text {
    if n < 0 then ['-'] + Itoa(-n) else Itoa(n)
  }

  predicate AllDigits(s: Text) {
    forall i :: 0 <= i < |s| ==> IsDigit(s[i])
  }

  function DigitsValue(s: Text): nat
    requires AllDigits(s)
  {
    if s == [] then 0 else DigitsValue(s[..|s| - 1]) * 10 + DigitValue(s[|s| - 1])
  }

  lemma {:induction false} ItoaValue(n: nat)
    ensures AllDigits(Itoa(n)) && DigitsValue(Itoa(n)) == n
  {
    var s := Itoa(n);
    if n >= 10 {
      assert s[..|s| - 1] == Itoa(n / 10);
      ItoaValue(n / 10);
    } else {
      assert s[..0] == [];
    }
  }

  /** A signed number of the given width is at least -SignedLimit and less than SignedLimit. */
  function SignedLimit(bits: nat): int {
    match bits
    case 16 => 0x8000
    case 32 => 0x8000_0000
    case _ => 0x8000_0000_0000_0000
  }

  predicate FitsSigned(n: int, bits: nat) {
    -SignedLimit(bits) <= n < SignedLimit(bits)
  }

  /** A decimal number with its optional sign; None when it has another shape. */
  function SignedValue(s: Text): Option<int> {
    var digits := if s != [] && (s[0] == '-' || s[0] == '+') then s[1..] else s;
    if digits == [] || !AllDigits(digits) then None
    else
      var magnitude: int := DigitsValue(digits);
      Some(if s[0] == '-' then -magnitude else magnitude)
  }

  /** strconv.ParseInt in base 10; None stands for its error. */
  function ParseInt(s: Text, bits: nat): (r: Option<int>)
    ensures r.Some? ==> FitsSigned(r.value, bits)
  {
    match SignedValue(s)
    case Some(n) => if FitsSigned(n, bits) then Some(n) else None
    case None => None
  }

  lemma SignedValueFormat(n: int)
    ensures SignedValue(FormatInt(n)) == Some(n)
  {
    var s := FormatInt(n);
    if n < 0 {
      ItoaValue(-n);
      assert s[1..] == Itoa(-n);
    } else {
      ItoaValue(n);
      assert IsDigit(s[0]);
    }
  }

  /** A plus sign and leading zeros do not matter. */
  lemma {:induction false} PaddedValue(zeros: Text, n: nat)
    requires forall i :: 0 <= i < |zeros| ==> zeros[i] == '0'
    ensures SignedValue(zeros + Itoa(n)) == Some(n) && SignedValue(['+'] + zeros + Itoa(n)) == Some(n)
  {
    hide DigitsValue;
    ItoaValue(n);
    ZerosValue(zeros, Itoa(n));
    var s := zeros + Itoa(n);
    assert (['+'] + zeros + Itoa(n))[1..] == s;
    assert IsDigit(s[0]);
  }

  lemma {:induction false} ZerosValue(zeros: Text, s: Text)
    requires (forall i :: 0 <= i < |zeros| ==> zeros[i] == '0') && AllDigits(s)
    ensures AllDigits(zeros + s) && DigitsValue(zeros + s) == DigitsValue(s)
    decreases |zeros| + |s|
  {
    if s != [] {
      assert (zeros + s)[..|zeros + s| - 1] == zeros + s[..|s| - 1];
      ZerosValue(zeros, s[..|s| - 1]);
    } else if zeros != [] {
      assert (zeros + s)[..|zeros| - 1] == zeros[..|zeros| - 1] + s;
      ZerosValue(zeros[..|zeros| - 1], s);
    }
  }

  /** Reading back a printed number succeeds exactly when it fits the width. */
  lemma ParseFormat(n: int, bits: nat)
    ensures ParseInt(FormatInt(n), bits) == if FitsSigned(n, bits) then Some(n) else None
  {
    SignedValueFormat(n);
  }
}
