/** Binary values: what a column of each type becomes when the client asked for
    the binary format. */
module Binary {
  import opened Text
  import opened Wire
  import opened Calendar

  const OID_BOOL := 16
  const OID_BYTEA := 17
  const OID_INT8 := 20
  const OID_INT2 := 21
  const OID_INT4 := 23
  const OID_FLOAT4 := 700
  const OID_FLOAT8 := 701
  const OID_DATE := 1082
  const OID_TIMESTAMP := 1114
  const OID_TIMESTAMPTZ := 1184

  /** Types whose encoding is left to Go's libraries. */
  const LIBRARY: set<int> := {OID_FLOAT4, OID_FLOAT8, OID_TIMESTAMP, OID_TIMESTAMPTZ}

  // ---------- Hexadecimal ----------

  function HexDigit(n: nat): byte
    requires n < 16
  {
    if n < 10 then DigitOf(n) else ('a' as int + n - 10) as char
  }

  function HexValue(c: byte): Option<nat> {
    if '0' <= c <= '9' then Some(c as int - '0' as int)
    else if 'a' <= c <= 'f' then Some(c as int - 'a' as int + 10)
    else if 'A' <= c <= 'F' then Some(c as int - 'A' as int + 10)
    else None
  }

  /** hex.DecodeString; None is its error. */
  function DecodeHex(s: Text): Option<Text> {
    if s == [] then Some([])
    else if |s| == 1 then None
    else
      match (HexValue(s[0]), HexValue(s[1]), DecodeHex(s[2..]))
      case (Some(hi), Some(lo), Some(rest)) => if hi < 16 && lo < 16 then Some([Octet(16 * hi + lo)] + rest) else None
      case _ => None
  }

  function HexText(b: Text): Text {
    if b == [] then [] else [HexDigit(b[0] as int / 16), HexDigit(b[0] as int % 16)] + HexText(b[1..])
  }

  // ---------- Dates ----------

  /** time.Parse with layout 2006-01-02: four, two and two digits, a real date. */
  function ParseDate(s: Text): Option<Date> {
    if |s| == 10 && s[4] == '-' && s[7] == '-' && AllDigits(s[..4]) && AllDigits(s[5..7]) && AllDigits(s[8..]) then
      var d := Date(DigitsValue(s[..4]), DigitsValue(s[5..7]), DigitsValue(s[8..]));
      if Valid(d) then Some(d) else None
    else None
  }

  function Pad2(n: nat): Text
    requires n < 100
  {
    [DigitOf(n / 10), DigitOf(n % 10)]
  }

  function FormatDate(d: Date): Text
    requires Valid(d)
  {
    Pad2(d.year / 100) + Pad2(d.year % 100) + ['-'] + Pad2(d.month) + ['-'] + Pad2(d.day)
  }

  // ---------- Encoding ----------

  function IntBits(oid: int): nat {
    if oid == OID_INT2 then 16 else if oid == OID_INT4 then 32 else 64
  }

  /** The big-endian two's complement of n in 2, 4 or 8 bytes. */
  function PutInt(n: int, bits: nat): Text {
    match bits
    case 16 => Be16(n)
    case 32 => Be32(n)
    case _ => Be64(n)
  }

  function GetInt(s: Text): int {
    if |s| == 2 then Signed(Uint16(s), 16)
    else if |s| == 4 then Signed(Uint32(s), 32)
    else if |s| == 8 then Signed(Uint64(s), 64)
    else 0
  }

  function EncodedInt(t: Text, bits: nat): Text {
    match ParseInt(TrimSpace(t), bits)
    case Some(n) => PutInt(n, bits)
    case None => t
  }

  function EncodedBool(t: Text): Text {
    var lower := ToLower(TrimSpace(t));
    if lower == "true" || lower == "t" || lower == "1" || lower == "yes" then [Octet(1)] else [Octet(0)]
  }

  function EncodedBytes(t: Text): Text {
    var trimmed := TrimSpace(t);
    if HasPrefix(trimmed, "\\x") then
      match DecodeHex(trimmed[2..])
      case Some(b) => b
      case None => t
    else t
  }

  function EncodedDate(t: Text): Text {
    match ParseDate(TrimSpace(t))
    case Some(d) => Be32(WholeDays(Sub(DayNumber(d))))
    case None => t
  }

  /** `library` stands for the float and timestamp encodings. */
  function Encoded(oid: int, t: Text, library: (int, Text) -> Text): Text {
    if oid == OID_BOOL then EncodedBool(t)
    else if oid == OID_INT2 || oid == OID_INT4 || oid == OID_INT8 then EncodedInt(t, IntBits(oid))
    else if oid == OID_BYTEA then EncodedBytes(t)
    else if oid == OID_DATE then EncodedDate(t)
    else if oid in LIBRARY then library(oid, t)
    else t
  }

  // ---------- Filling the buffers ----------

  /** The last `width` base-256 digits of n, most significant first. */
  function BigEndian(n: int, width: nat): (s: Text)
    ensures |s| == width
    decreases width
  {
    if width == 0 then [] else BigEndian(n / 0x100, width - 1) + [Octet(n % 0x100)]
  }

  lemma BigEndianIsPutInt(n: int)
    ensures BigEndian(n, 2) == Be16(n) && BigEndian(n, 4) == Be32(n) && BigEndian(n, 8) == Be64(n)
  {
    TwoDigits(n);
    FourDigits(n);
    FourDigits(n / 0x1_0000_0000);
    assert Shifted(n, 4) == n / 0x100 / 0x100 / 0x100 / 0x100 == n / 0x1_0000_0000;
    BigEndianSplit(n, 4, 4);
  }

  lemma TwoDigits(n: int)
    ensures BigEndian(n, 2) == Be16(n)
  {
    assert BigEndian(n / 0x100, 1) == [] + [Octet(n / 0x100 % 0x100)];
  }

  lemma FourDigits(n: int)
    ensures BigEndian(n, 4) == Be32(n)
  {
    TwoDigits(n);
    TwoDigits(n / 0x1_0000);
    assert n / 0x100 / 0x100 == n / 0x1_0000;
    BigEndianSplit(n, 2, 2);
  }

  /** n after its last k digits are dropped one at a time. */
  function Shifted(n: int, k: nat): int
    decreases k
  {
    if k == 0 then n else Shifted(n / 0x100, k - 1)
  }

  lemma {:induction false} BigEndianSplit(n: int, high: nat, low: nat)
    ensures BigEndian(n, high + low) == BigEndian(Shifted(n, low), high) + BigEndian(n, low)
    decreases low
  {
    if low == 0 {
      assert BigEndian(n, high) + [] == BigEndian(n, high);
    } else {
      BigEndianSplit(n / 0x100, high, low - 1);
    }
  }

  /** PutUint16, PutUint32 and PutUint64, by the size of the buffer. */
  method PutUint(buf: array<byte>, n: int)
    modifies buf
    ensures buf[..] == BigEndian(n, buf.Length)
  {
    var m, i := n, buf.Length;
    assert BigEndian(n, buf.Length) + [] == BigEndian(n, buf.Length);
    while i > 0
      invariant 0 <= i <= buf.Length
      invariant BigEndian(n, buf.Length) == BigEndian(m, i) + buf[i..]
    {
      i := i - 1;
      buf[i] := Octet(m % 0x100);
      m := m / 0x100;
    }
  }

  method IntBuffer(t: Text, bits: nat) returns (r: Text)
    requires bits == 16 || bits == 32 || bits == 64
    ensures r == EncodedInt(t, bits)
  {
    hide Be16, Be32, Be64, BigEndian;
    match ParseInt(TrimSpace(t), bits)
    case None =>
      r := t;
    case Some(n) =>
      var buf := new byte[bits / 8];
      PutUint(buf, n);
      BigEndianIsPutInt(n);
      r := buf[..];
  }

  method EncodeBinaryValue(oid: int, t: Text, library: (int, Text) -> Text) returns (r: Text)
    ensures r == Encoded(oid, t, library)
  {
    if oid == OID_INT2 || oid == OID_INT4 || oid == OID_INT8 {
      r := IntBuffer(t, IntBits(oid));
    } else if oid == OID_DATE {
      match ParseDate(TrimSpace(t)) {
        case None =>
          r := t;
        case Some(d) =>
          var buf := new byte[4];
          var days := WholeDays(Sub(DayNumber(d)));
          PutUint(buf, days);
          BigEndianIsPutInt(days);
          r := buf[..];
      }
    } else if oid == OID_BOOL {
      r := EncodedBool(t);
    } else if oid == OID_BYTEA {
      r := EncodedBytes(t);
    } else if oid in LIBRARY {
      r := library(oid, t);
    } else {
      r := t;
    }
  }

  // ---------- Integers ----------

  lemma SignedBack(n: int, bits: nat)
    requires FitsSigned(n, bits) && (bits == 16 || bits == 32 || bits == 64)
    ensures Signed(n % (2 * SignedLimit(bits)), bits) == n
  {
    var m := 2 * SignedLimit(bits);
    if n < 0 {
      assert n % m == n + m;
    } else {
      assert n % m == n;
    }
  }

  lemma PutIntBack(n: int, bits: nat)
    requires FitsSigned(n, bits) && (bits == 16 || bits == 32 || bits == 64)
    ensures 8 * |PutInt(n, bits)| == bits && GetInt(PutInt(n, bits)) == n
  {
    hide Be16, Be32, Be64, Uint16, Uint32, Uint64, Signed;
    SignedBack(n, bits);
    Uint16Be(n);
    Uint32Be(n);
    Uint64Be(n);
  }

  /** int2, int4 and int8, by type number, in bytes. */
  function IntWidth(oid: int): nat {
    if oid == 21 then 2 else if oid == 23 then 4 else 8
  }

  /** Every text: an in-range decimal becomes that number in exactly the type's
      width, and anything else stays as it is. */
  lemma IntegerText(oid: int, t: Text, library: (int, Text) -> Text)
    requires oid in {21, 23, 20}
    ensures var r, v, width := Encoded(oid, t, library), SignedValue(TrimSpace(t)), IntWidth(oid);
            if v.Some? && FitsSigned(v.value, 8 * width) then |r| == width && GetInt(r) == v.value else r == t
  {
    hide PutInt, GetInt, SignedValue, TrimSpace;
    var v := SignedValue(TrimSpace(t));
    if v.Some? && FitsSigned(v.value, IntBits(oid)) {
      PutIntBack(v.value, IntBits(oid));
    }
  }

  lemma FormattedHasNoSpace(n: int)
    ensures TrimSpace(FormatInt(n)) == FormatInt(n)
  {
    var s := FormatInt(n);
    if n < 0 {
      ItoaValue(-n);
    } else {
      ItoaValue(n);
    }
    assert s != [] && s[0] !in SPACES && s[|s| - 1] !in SPACES;
    TrimKeepsTrimmed(s, SPACES);
  }

  /** A printed number is encoded as itself exactly when it fits the type. */
  lemma IntegerBack(oid: int, n: int, library: (int, Text) -> Text)
    requires oid in {21, 23, 20}
    ensures var r := Encoded(oid, FormatInt(n), library);
            if FitsSigned(n, 8 * IntWidth(oid)) then |r| == IntWidth(oid) && GetInt(r) == n else r == FormatInt(n)
  {
    hide Encoded, FormatInt, GetInt, SignedValue;
    IntegerText(oid, FormatInt(n), library);
    FormattedHasNoSpace(n);
    SignedValueFormat(n);
  }

  const TRUE_WORDS: set<Text> := {"true", "t", "1", "yes"}

  /** True, t, 1 and yes in any letter case and with any white space around them
      become the byte 1, every other text becomes the byte 0. */
  lemma TruthBack(lead: Text, w: Text, trail: Text, library: (int, Text) -> Text)
    requires AllBlank(lead, SPACES) && AllBlank(trail, SPACES) && Trimmed(w, SPACES)
    ensures Encoded(16, lead + w + trail, library) == [Octet(if ToLower(w) in TRUE_WORDS then 1 else 0)]
  {
    hide ToLower, Trim;
    TrimAround(lead, w, trail, SPACES);
  }

  // ---------- Bytes ----------

  lemma HexDigitIff(c: byte, n: nat)
    requires n < 16
    ensures HexValue(c) == Some(n) <==> Lower(c) == HexDigit(n)
    ensures HexValue(c).Some? ==> HexValue(c).value < 16
  {
  }

  /** A text decodes to these bytes exactly when it is their hexadecimal form, in
      any letter case. */
  lemma {:induction false} HexIff(s: Text, b: Text)
    ensures DecodeHex(s) == Some(b) <==> ToLower(s) == HexText(b)
  {
    hide HexValue, HexDigit, Lower;
    if |s| >= 2 && b != [] {
      HexIff(s[2..], b[1..]);
      HexDigitIff(s[0], b[0] as int / 16);
      HexDigitIff(s[1], b[0] as int % 16);
      NibbleBounds(s[0]);
      NibbleBounds(s[1]);
      assert ToLower(s) == [Lower(s[0]), Lower(s[1])] + ToLower(s[2..]);
      SameTwo(Lower(s[0]), Lower(s[1]), ToLower(s[2..]), HexDigit(b[0] as int / 16), HexDigit(b[0] as int % 16), HexText(b[1..]));
      TwoNibbles(s, b);
    }
    assert |ToLower(s)| == |s|;
  }

  lemma SameTwo(a: byte, b: byte, u: Text, c: byte, d: byte, v: Text)
    ensures [a, b] + u == [c, d] + v <==> a == c && b == d && u == v
  {
    if [a, b] + u == [c, d] + v {
      assert ([a, b] + u)[0] == a && ([a, b] + u)[1] == b && ([a, b] + u)[2..] == u;
      assert ([c, d] + v)[0] == c && ([c, d] + v)[1] == d && ([c, d] + v)[2..] == v;
    }
  }

  lemma NibbleBounds(c: byte)
    ensures HexValue(c).Some? ==> HexValue(c).value < 16
  {
  }

  lemma TwoNibbles(s: Text, b: Text)
    requires |s| >= 2 && b != []
    ensures DecodeHex(s) == Some(b) <==>
            HexValue(s[0]) == Some(b[0] as int / 16) && HexValue(s[1]) == Some(b[0] as int % 16) && DecodeHex(s[2..]) == Some(b[1..])
  {
    hide HexValue;
    NibbleBounds(s[0]);
    NibbleBounds(s[1]);
    assert b == [b[0]] + b[1..];
    match (HexValue(s[0]), HexValue(s[1]), DecodeHex(s[2..]))
    case (Some(hi), Some(lo), Some(rest)) =>
      assert ([Octet(16 * hi + lo)] + rest)[0] == Octet(16 * hi + lo) && ([Octet(16 * hi + lo)] + rest)[1..] == rest;
      assert (16 * hi + lo) / 16 == hi && (16 * hi + lo) % 16 == lo;
    case _ =>
  }

  /** A text beginning with `\\x` becomes exactly the bytes whose hexadecimal form,
      in any letter case, follows; a text of another form stays as it is. */
  lemma BytesIff(lead: Text, s: Text, trail: Text, b: Text, library: (int, Text) -> Text)
    requires AllBlank(lead, SPACES) && AllBlank(trail, SPACES) && (s == [] || s[|s| - 1] !in SPACES)
    ensures var t := lead + (['\\', 'x'] + s) + trail;
            && (ToLower(s) == HexText(b) ==> Encoded(17, t, library) == b)
            && ((forall bytes :: ToLower(s) != HexText(bytes)) ==> Encoded(17, t, library) == t)
  {
    hide DecodeHex, HexText, ToLower, Trim;
    var core: Text := ['\\', 'x'] + s;
    assert core[|core| - 1] == if s == [] then 'x' else s[|s| - 1];
    TrimAround(lead, core, trail, SPACES);
    assert core[..2] == "\\x" && core[2..] == s;
    HexIff(s, b);
    if forall bytes :: ToLower(s) != HexText(bytes) {
      var r := DecodeHex(s);
      if r.Some? {
        HexIff(s, r.value);
      }
    }
  }

  /** Everything else stays as it is: bytes without the prefix, and every type that
      is neither a number, a boolean, bytes, a date nor a timestamp. */
  lemma OtherTextStays(oid: int, t: Text, library: (int, Text) -> Text)
    ensures oid !in {16, 17, 20, 21, 23, 700, 701, 1082, 1114, 1184} ==> Encoded(oid, t, library) == t
    ensures oid in {700, 701, 1114, 1184} ==> Encoded(oid, t, library) == library(oid, t)
    ensures !HasPrefix(TrimSpace(t), "\\x") ==> Encoded(17, t, library) == t
  {
    hide EncodedBool, EncodedInt, EncodedDate, TrimSpace;
  }

  // ---------- Dates ----------

  lemma Pad2Value(n: nat)
    requires n < 100
    ensures AllDigits(Pad2(n)) && DigitsValue(Pad2(n)) == n
  {
    var s := Pad2(n);
    assert s[..1] == [DigitOf(n / 10)] && s[..1][..0] == [];
    assert DigitsValue(s[..1]) == n / 10;
  }

  lemma Pad4Value(n: nat)
    requires n < 10000
    ensures var s := Pad2(n / 100) + Pad2(n % 100); AllDigits(s) && DigitsValue(s) == n
  {
    var a, b := Pad2(n / 100), Pad2(n % 100);
    Pad2Value(n / 100);
    var s := a + b;
    assert s[..3] == a + [b[0]] && s[..3][..2] == a;
    assert DigitsValue(s[..3]) == n / 100 * 10 + n % 100 / 10;
  }

  lemma DateBack(d: Date)
    requires Valid(d)
    ensures ParseDate(TrimSpace(FormatDate(d))) == Some(d)
  {
    hide DigitsValue, Valid, AllDigits;
    var s := FormatDate(d);
    ValidBounds(d);
    Pad4Value(d.year);
    Pad2Value(d.month);
    Pad2Value(d.day);
    TrimKeepsTrimmed(s, SPACES);
    DateParts(Pad2(d.year / 100) + Pad2(d.year % 100), Pad2(d.month), Pad2(d.day));
  }

  lemma DateParts(y: Text, m: Text, d: Text)
    requires |y| == 4 && |m| == 2 && |d| == 2
    ensures var s := y + ['-'] + m + ['-'] + d;
            && |s| == 10 && s[4] == '-' && s[7] == '-'
            && s[..4] == y && s[5..7] == m && s[8..] == d
  {
  }

  lemma ValidBounds(d: Date)
    requires Valid(d)
    ensures d.year < 10000 && d.month < 100 && d.day < 100
  {
  }

  /** A date is encoded as its day count, cut to 106751 days either way: exactly
      the count when and only when the date is that close to 2000-01-01. */
  lemma DateEncodes(d: Date, library: (int, Text) -> Text)
    requires Valid(d)
    ensures var r := Encoded(1082, FormatDate(d), library);
            && |r| == 4 && GetInt(r) == Clamp(DayNumber(d))
            && (GetInt(r) == DayNumber(d) <==> -DAY_LIMIT <= DayNumber(d) <= DAY_LIMIT)
  {
    hide ParseDate, FormatDate, DayNumber, Sub, WholeDays, GetInt, TrimSpace;
    DateBack(d);
    DaysThroughDuration(DayNumber(d));
    PutIntBack(Clamp(DayNumber(d)), 32);
  }

  lemma TwoDigitsBack(s: Text)
    requires |s| == 2 && AllDigits(s)
    ensures DigitsValue(s) < 100 && Pad2(DigitsValue(s)) == s
  {
    assert s[..1][..0] == [];
    assert DigitsValue(s[..1]) == DigitValue(s[0]);
  }

  lemma FourDigitsBack(s: Text)
    requires |s| == 4 && AllDigits(s)
    ensures DigitsValue(s) == 100 * DigitsValue(s[..2]) + DigitsValue(s[2..]) < 10000
    ensures Pad2(DigitsValue(s) / 100) + Pad2(DigitsValue(s) % 100) == s
  {
    hide Pad2;
    TwoDigitsBack(s[..2]);
    TwoDigitsBack(s[2..]);
    assert s[..3][..2] == s[..2] && s[2..][..1] == [s[2]] && [s[2]][..0] == [];
    assert DigitsValue(s[..3]) == 10 * DigitsValue(s[..2]) + DigitValue(s[2]);
    assert DigitsValue([s[2]]) == DigitValue(s[2]);
    assert s[..2] + s[2..] == s;
  }

  /** A text is taken for a date only if it is one, as printed. */
  lemma OnlyDatesEncode(t: Text, library: (int, Text) -> Text) returns (d: Date)
    ensures Encoded(1082, t, library) != t ==> Valid(d) && TrimSpace(t) == FormatDate(d)
  {
    hide Valid, Pad2, DigitsValue, AllDigits, TrimSpace, DayNumber, Sub, WholeDays;
    var s := TrimSpace(t);
    d := Date(2000, 1, 1);
    var r := ParseDate(s);
    if r.Some? {
      d := r.value;
      FourDigitsBack(s[..4]);
      TwoDigitsBack(s[5..7]);
      TwoDigitsBack(s[8..]);
      assert s == s[..4] + ['-'] + s[5..7] + ['-'] + s[8..];
    }
  }
}
