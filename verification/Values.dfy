/** The store's text scanners: value tuples, SET lists, WHERE equalities and names. */
module Values {
  import opened Text
  import opened Rules

  /** Trims blanks and quotes, drops a schema prefix and lowers the case. */
  function SanitizeName(n: Text): (r: Text)
    ensures ToLower(r) == r
  {
    var name := AfterLastDot(Trim(TrimSpace(n), NAME_QUOTES));
    LowerIdempotent(name);
    ToLower(name)
  }

  /** The first column whose name equals target up to case, or -1. */
  function FindColIndex(cols: seq<Text>, target: Text): (i: int)
    ensures -1 <= i < |cols|
    ensures i >= 0 ==> EqualFold(cols[i], target) && forall j :: 0 <= j < i ==> !EqualFold(cols[j], target)
    ensures i < 0 ==> forall j :: 0 <= j < |cols| ==> !EqualFold(cols[j], target)
  {
    if cols == [] then -1
    else if EqualFold(cols[0], target) then 0
    else
      var k := FindColIndex(cols[1..], target);
      assert forall j :: 1 <= j < |cols| ==> cols[j] == cols[1..][j - 1];
      if k < 0 then -1 else k + 1
  }

  // ---------- Placeholders ----------

  /** The parameter a `$k` names, when k is in range. */
  function BoundIndex(s: Text, params: Params): (r: Option<nat>)
    ensures r.Some? ==> r.value < |params|
  {
    if HasPrefix(s, "$") then
      match ParseInt(s[1..], 64)
      case Some(k) => if 0 < k <= |params| then Some(k - 1) else None
      case None => None
    else None
  }

  function BoundText(p: Option<Text>): Text {
    match p
    case None => NULL
    case Some(v) => v
  }

  /** One value of a tuple or of a SET pair. */
  function ParsedValue(raw: Text, params: Params): Text {
    var t := TrimSpace(raw);
    match BoundIndex(t, params)
    case Some(i) => BoundText(params[i])
    case None => Trim(t, QUOTES)
  }

  lemma PlaceholderIndex(k: nat, params: Params)
    requires 1 <= k <= |params| && FitsSigned(|params|, 64)
    ensures var s: Text := ['$'] + Itoa(k); BoundIndex(s, params) == Some(k - 1) && Trimmed(s, SPACES)
  {
    var s: Text := ['$'] + Itoa(k);
    assert s[1..] == Itoa(k);
    assert FormatInt(k) == Itoa(k);
    ParseFormat(k, 64);
    ItoaValue(k);
    assert s[..1] == ['$'];
  }

  lemma BoundPlaceholder(k: nat, params: Params)
    requires 1 <= k <= |params| && FitsSigned(|params|, 64)
    ensures ParsedValue(['$'] + Itoa(k), params) == BoundText(params[k - 1])
    ensures params[k - 1].None? ==> ParsedValue(['$'] + Itoa(k), params) == NULL
    ensures params[k - 1].Some? ==> ParsedValue(['$'] + Itoa(k), params) == params[k - 1].value
  {
    hide BoundIndex;
    PlaceholderIndex(k, params);
    TrimKeepsTrimmed(['$'] + Itoa(k), SPACES);
  }

  // ---------- Value tuples ----------

  /** The contents of the leftmost, non-overlapping matches of `\(([^)]+)\)`. */
  function Tuples(s: Text): seq<Text>
    decreases |s|, 1
  {
    var p := Find(s, '(');
    if p == |s| then [] else TuplesInside(s[p + 1..])
  }

  /** The matches when s follows an opening parenthesis. */
  function TuplesInside(s: Text): seq<Text>
    decreases |s|, 0
  {
    var q := Find(s, ')');
    if q == |s| then []
    else if q == 0 then Tuples(s[1..])
    else [s[..q]] + Tuples(s[q + 1..])
  }

  function ParsedTuple(content: Text, params: Params): (row: Row)
    ensures row != []
  {
    var raw := Split(content, ',');
    seq(|raw|, i requires 0 <= i < |raw| => ParsedValue(raw[i], params))
  }

  function ParsedTuples(contents: seq<Text>, params: Params): seq<Row> {
    seq(|contents|, i requires 0 <= i < |contents| => ParsedTuple(contents[i], params))
  }

  function ValuesOf(s: Text, params: Params): seq<Row> {
    ParsedTuples(Tuples(s), params)
  }

  method ParseValuesTuples(valuesStr: Text, params: Params) returns (rows: seq<Row>)
    ensures rows == ValuesOf(valuesStr, params)
  {
    rows := [];
    var matches := Tuples(valuesStr);
    for m := 0 to |matches|
      invariant rows == ParsedTuples(matches[..m], params)
    {
      var rawVals := Split(matches[m], ',');
      var row: Row := [];
      for i := 0 to |rawVals|
        invariant |row| == i
        invariant forall j :: 0 <= j < i ==> row[j] == ParsedValue(rawVals[j], params)
      {
        row := row + [ParsedValue(rawVals[i], params)];
      }
      assert row == ParsedTuple(matches[m], params);
      rows := rows + [row];
    }
    assert matches[..|matches|] == matches;
  }

  // ---------- Printing and reading back ----------

  /** What a client writes for a value, with the blanks around it: a literal in
      quotes or without, or a placeholder. */
  datatype Cell =
    | Literal(left: Text, open: Text, text: Text, close: Text, right: Text)
    | Placeholder(left: Text, k: nat, right: Text)

  function Quoted(v: Text): Cell {
    Literal([], ['\''], v, ['\''], [])
  }

  /** The cell without the blanks around it. */
  function Core(c: Cell): Text {
    match c
    case Literal(_, open, text, close, _) => open + text + close
    case Placeholder(_, k, _) => ['$'] + Itoa(k)
  }

  function PrintCell(c: Cell): Text {
    c.left + Core(c) + c.right
  }

  function PrintCells(row: seq<Cell>): (r: seq<Text>)
    ensures |r| == |row|
  {
    seq(|row|, i requires 0 <= i < |row| => PrintCell(row[i]))
  }

  function PrintTuple(row: seq<Cell>): Text {
    if row == [] then [] else Join(PrintCells(row), ',')
  }

  /** Tuples in parentheses with a gap, such as a comma and a blank, between two. */
  function PrintTuples(contents: seq<Text>, gap: Text): Text {
    if contents == [] then []
    else ['('] + contents[0] + [')'] + if |contents| == 1 then [] else gap + PrintTuples(contents[1..], gap)
  }

  function PrintRows(rows: seq<seq<Cell>>, gap: Text): Text {
    PrintTuples(seq(|rows|, i requires 0 <= i < |rows| => PrintTuple(rows[i])), gap)
  }

  predicate IsGap(gap: Text) {
    '(' !in gap && ')' !in gap
  }

  /** A literal survives quoting when it has no comma, no closing parenthesis
      and no quote at either end. */
  predicate Clean(v: Text) {
    ',' !in v && ')' !in v && Trimmed(v, QUOTES)
  }

  /** A value with only blanks and quotes around it; without quotes it starts
      with neither a blank nor a dollar sign. A placeholder must be in range. */
  predicate Spelled(c: Cell, params: Params) {
    && AllBlank(c.left, SPACES) && AllBlank(c.right, SPACES)
    && match c
       case Literal(_, open, text, close, _) =>
         && AllBlank(open, QUOTES) && AllBlank(close, QUOTES) && Trimmed(text, QUOTES)
         && (open == [] ==> text != [] && text[0] !in SPACES && text[0] != '$')
         && (close == [] ==> text != [] && text[|text| - 1] !in SPACES)
       case Placeholder(_, k, _) => 1 <= k <= |params|
  }

  /** Spelled, and without the bytes that end a value or a tuple. */
  predicate Readable(c: Cell, params: Params) {
    Spelled(c, params) && (c.Literal? ==> Clean(c.text))
  }

  /** The value a client means: the text as written, the bound bytes whatever
      they contain, the text NULL for a NULL. */
  function Meant(c: Cell, params: Params): Text
    requires c.Placeholder? ==> 1 <= c.k <= |params|
  {
    match c
    case Literal(_, _, text, _, _) => text
    case Placeholder(_, k, _) => BoundText(params[k - 1])
  }

  ghost predicate ReadableRow(row: seq<Cell>, params: Params) {
    row != [] && forall j :: 0 <= j < |row| ==> Readable(row[j], params)
  }

  ghost predicate ReadableRows(rows: seq<seq<Cell>>, params: Params) {
    forall i :: 0 <= i < |rows| ==> ReadableRow(rows[i], params)
  }

  ghost function RowValues(row: seq<Cell>, params: Params): Row
    requires ReadableRow(row, params)
  {
    seq(|row|, j requires 0 <= j < |row| => Meant(row[j], params))
  }

  ghost function CellValues(rows: seq<seq<Cell>>, params: Params): (r: seq<Row>)
    requires ReadableRows(rows, params)
    ensures |r| == |rows|
  {
    seq(|rows|, i requires 0 <= i < |rows| => RowValues(rows[i], params))
  }

  lemma DigitsAvoid(n: nat, c: byte)
    requires !IsDigit(c)
    ensures c !in Itoa(n)
  {
    ItoaValue(n);
  }

  /** A value spelled in any of these ways is what the client means, in a tuple,
      in a SET list and in a WHERE. */
  lemma CellRead(c: Cell, params: Params)
    requires Spelled(c, params) && FitsSigned(|params|, 64)
    ensures ParsedValue(PrintCell(c), params) == WhereTarget(PrintCell(c), params) == Meant(c, params)
  {
    hide BoundIndex;
    CoreTrimmed(c, params);
    TrimAround(c.left, Core(c), c.right, SPACES);
    match c
    case Literal(_, open, text, close, _) =>
      NotBound(Core(c), params);
      TrimAround(open, text, close, QUOTES);
    case Placeholder(_, k, _) =>
      PlaceholderIndex(k, params);
      assert HasPrefix(Core(c), "$");
  }

  /** A placeholder for which there is no parameter is no placeholder: in a tuple or
      a SET list it stays as it is, and a WHERE compares with its own text. */
  lemma UnboundPlaceholder(left: Text, k: nat, right: Text, params: Params)
    requires AllBlank(left, SPACES) && AllBlank(right, SPACES) && (k == 0 || k > |params|)
    ensures var s := left + (['$'] + Itoa(k)) + right;
            ParsedValue(s, params) == WhereTarget(s, params) == ['$'] + Itoa(k)
  {
    hide ParseInt, Itoa;
    var w: Text := ['$'] + Itoa(k);
    ItoaValue(k);
    assert w[1..] == Itoa(k) == FormatInt(k) && w[..1] == ['$'];
    ParseFormat(k, 64);
    TrimAround(left, w, right, SPACES);
    TrimKeepsTrimmed(w, QUOTES);
  }

  lemma CoreTrimmed(c: Cell, params: Params)
    requires Spelled(c, params) && FitsSigned(|params|, 64)
    ensures Trimmed(Core(c), SPACES) && Core(c) != []
    ensures c.Literal? ==> Core(c)[0] != '$'
  {
    match c
    case Literal(_, open, text, close, _) =>
      assert forall q: byte :: q in QUOTES ==> q !in SPACES && q != '$';
    case Placeholder(_, k, _) =>
      PlaceholderIndex(k, params);
  }

  lemma NotBound(s: Text, params: Params)
    requires s != [] && s[0] != '$'
    ensures !HasPrefix(s, "$") && BoundIndex(s, params).None?
  {
    assert s[..1][0] == s[0];
  }

  lemma PrintedCell(c: Cell, params: Params)
    requires Readable(c, params) && FitsSigned(|params|, 64)
    ensures ParsedValue(PrintCell(c), params) == Meant(c, params)
    ensures ',' !in PrintCell(c) && ')' !in PrintCell(c) && PrintCell(c) != []
  {
    hide ParsedValue, Core;
    CellRead(c, params);
    CoreTrimmed(c, params);
    CellAvoids(c, params, ',');
    CellAvoids(c, params, ')');
  }

  lemma CellAvoids(c: Cell, params: Params, d: byte)
    requires Spelled(c, params) && (c.Literal? ==> d !in c.text)
    requires d !in SPACES && d !in QUOTES && d != '$' && !IsDigit(d)
    ensures d !in PrintCell(c)
  {
    BlanksAvoid(c.left, SPACES, d);
    BlanksAvoid(c.right, SPACES, d);
    match c
    case Literal(_, open, text, close, _) =>
      BlanksAvoid(open, QUOTES, d);
      BlanksAvoid(close, QUOTES, d);
    case Placeholder(_, k, _) =>
      DigitsAvoid(k, d);
  }

  lemma BlanksAvoid(s: Text, cut: set<byte>, d: byte)
    requires AllBlank(s, cut) && d !in cut
    ensures d !in s
  {
  }

  lemma QuotedIsReadable(v: Text, params: Params)
    requires Clean(v)
    ensures Readable(Quoted(v), params) && Meant(Quoted(v), params) == v
  {
  }

  lemma {:induction false} JoinAvoids(parts: seq<Text>, c: byte, d: byte)
    requires |parts| > 0 && c != d
    requires forall i :: 0 <= i < |parts| ==> d !in parts[i] && parts[i] != []
    ensures d !in Join(parts, c) && Join(parts, c) != []
  {
    if |parts| > 1 {
      JoinAvoids(parts[1..], c, d);
    }
  }

  lemma {:induction false} FindPast(a: Text, c: byte, s: Text)
    requires c !in a
    ensures Find(a + s, c) == |a| + Find(s, c)
  {
    if a == [] {
      assert a + s == s;
    } else {
      assert (a + s)[1..] == a[1..] + s;
      assert a[0] in a;
      FindPast(a[1..], c, s);
    }
  }

  lemma TuplesSkip(gap: Text, s: Text)
    requires '(' !in gap
    ensures Tuples(gap + s) == Tuples(s)
  {
    var t, p := gap + s, Find(s, '(');
    FindPast(gap, '(', s);
    if p < |s| {
      assert t[|gap| + p + 1..] == s[p + 1..];
    }
  }

  lemma TuplesHead(content: Text, rest: Text)
    requires content != [] && ')' !in content
    ensures Tuples(['('] + content + [')'] + rest) == [content] + Tuples(rest)
  {
    var s := ['('] + content + [')'] + rest;
    var after := content + [')'] + rest;
    assert s[1..] == after;
    FindAfter(content, ')', rest);
    assert after[..|content|] == content;
    assert after[|content| + 1..] == rest;
  }

  lemma TuplesNone()
    ensures Tuples([]) == []
  {
  }

  lemma {:induction false} TuplesPrinted(contents: seq<Text>, gap: Text)
    requires forall i :: 0 <= i < |contents| ==> contents[i] != [] && ')' !in contents[i]
    requires IsGap(gap)
    ensures Tuples(PrintTuples(contents, gap)) == contents
  {
    hide Tuples;
    TuplesNone();
    if contents != [] {
      if |contents| == 1 {
        TuplesHead(contents[0], []);
      } else {
        var rest := PrintTuples(contents[1..], gap);
        TuplesHead(contents[0], gap + rest);
        TuplesSkip(gap, rest);
        TuplesPrinted(contents[1..], gap);
      }
      assert contents == [contents[0]] + contents[1..];
    }
  }

  lemma PrintedTuple(row: seq<Cell>, params: Params)
    requires ReadableRow(row, params) && FitsSigned(|params|, 64)
    ensures PrintTuple(row) != [] && ')' !in PrintTuple(row)
    ensures ParsedTuple(PrintTuple(row), params) == RowValues(row, params)
  {
    var cells := PrintCells(row);
    forall i | 0 <= i < |cells|
      ensures ParsedValue(cells[i], params) == Meant(row[i], params)
      ensures ',' !in cells[i] && ')' !in cells[i] && cells[i] != []
    {
      PrintedCell(row[i], params);
    }
    JoinAvoids(cells, ',', ')');
    SplitJoin(cells, ',');
  }

  /** Reading back printed rows gives the values the client meant: clean
      literals as written, in-range placeholders as the bound bytes whatever
      those contain. */
  lemma PrintedRowsReadBack(rows: seq<seq<Cell>>, gap: Text, params: Params)
    requires ReadableRows(rows, params) && IsGap(gap) && FitsSigned(|params|, 64)
    ensures ValuesOf(PrintRows(rows, gap), params) == CellValues(rows, params)
  {
    hide ParsedTuple, PrintTuple, PrintTuples, Tuples, RowValues;
    var contents := seq(|rows|, i requires 0 <= i < |rows| => PrintTuple(rows[i]));
    forall i | 0 <= i < |rows|
      ensures contents[i] != [] && ')' !in contents[i]
      ensures ParsedTuple(contents[i], params) == RowValues(rows[i], params)
    {
      PrintedTuple(rows[i], params);
    }
    TuplesPrinted(contents, gap);
  }

  function Literals(rows: seq<Row>): (r: seq<seq<Cell>>)
    ensures |r| == |rows| && forall i :: 0 <= i < |rows| ==> |r[i]| == |rows[i]|
    ensures forall i, j :: 0 <= i < |rows| && 0 <= j < |rows[i]| ==> r[i][j] == Quoted(rows[i][j])
  {
    seq(|rows|, i requires 0 <= i < |rows| =>
      seq(|rows[i]|, j requires 0 <= j < |rows[i]| => Quoted(rows[i][j])))
  }

  lemma {:induction false} TupleHasNoParen(s: Text, n: nat)
    requires n < |TuplesInside(s)|
    ensures TuplesInside(s)[n] != [] && ')' !in TuplesInside(s)[n]
    decreases |s|
  {
    var q := Find(s, ')');
    FindFirst(s, ')');
    if q == 0 || n > 0 {
      var rest := s[q + 1..];
      TupleHasNoParen(rest[Find(rest, '(') + 1..], if q == 0 then n else n - 1);
    }
  }

  /** Every literal the scanner returns is clean. */
  lemma ScannedValueIsClean(s: Text, i: nat, j: nat)
    requires i < |Tuples(s)| && j < |Split(Tuples(s)[i], ',')|
    ensures Clean(ValuesOf(s, [])[i][j])
  {
    TupleHasNoParen(s[Find(s, '(') + 1..], i);
    SplitPart(Tuples(s)[i], ',', j);
    ParsedIsSlice(Split(Tuples(s)[i], ',')[j]);
  }

  lemma ParsedIsSlice(raw: Text)
    ensures Trimmed(ParsedValue(raw, []), QUOTES)
    ensures forall d :: d !in raw ==> d !in ParsedValue(raw, [])
  {
    var a, b := TrimIsSlice(raw, SPACES);
    var t := TrimSpace(raw);
    var c, d := TrimIsSlice(t, QUOTES);
    assert ParsedValue(raw, []) == raw[a..b][c..d];
  }

  /** Quoted rows survive printing and scanning exactly when every row has a
      value and every value is clean. */
  lemma QuotedRowsReadBackIff(rows: seq<Row>, gap: Text)
    requires IsGap(gap)
    ensures ValuesOf(PrintRows(Literals(rows), gap), []) == rows
            <==> forall row :: row in rows ==> row != [] && forall v :: v in row ==> Clean(v)
  {
    var printed := Literals(rows);
    if forall row :: row in rows ==> row != [] && forall v :: v in row ==> Clean(v) {
      forall i | 0 <= i < |printed|
        ensures ReadableRow(printed[i], []) && RowValues(printed[i], []) == rows[i]
      {
        assert rows[i] in rows;
        forall j | 0 <= j < |rows[i]|
          ensures Readable(printed[i][j], []) && Meant(printed[i][j], []) == rows[i][j]
        {
          QuotedIsReadable(rows[i][j], []);
        }
      }
      PrintedRowsReadBack(printed, gap, []);
      assert CellValues(printed, []) == rows;
    }
    forall i, j | 0 <= i < |rows| && 0 <= j < |rows[i]| && ValuesOf(PrintRows(printed, gap), []) == rows
      ensures Clean(rows[i][j])
    {
      ScannedValueIsClean(PrintRows(printed, gap), i, j);
    }
  }

  /** A scanner finds at most one tuple for each closing parenthesis. */
  lemma {:induction false} TuplesClosed(s: Text)
    ensures |Tuples(s)| <= multiset(s)[')']
    decreases |s|, 1
  {
    var p := Find(s, '(');
    if p < |s| {
      assert s == s[..p + 1] + s[p + 1..];
      TuplesInsideClosed(s[p + 1..]);
    }
  }

  lemma {:induction false} TuplesInsideClosed(s: Text)
    ensures |TuplesInside(s)| <= multiset(s)[')']
    decreases |s|, 0
  {
    var q := Find(s, ')');
    if q < |s| {
      assert s == s[..q] + [s[q]] + s[q + 1..];
      TuplesClosed(s[q + 1..]);
    }
  }

  lemma {:induction false} PrintedClosings(contents: seq<Text>, gap: Text)
    requires IsGap(gap) && forall i :: 0 <= i < |contents| ==> ')' !in contents[i]
    ensures multiset(PrintTuples(contents, gap))[')'] == |contents|
  {
    if contents != [] {
      var rest := if |contents| == 1 then [] else gap + PrintTuples(contents[1..], gap);
      assert PrintTuples(contents, gap) == ['('] + contents[0] + [')'] + rest;
      if |contents| > 1 {
        PrintedClosings(contents[1..], gap);
        NoClosing(gap, PrintTuples(contents[1..], gap));
      }
      hide PrintTuples;
      OneClosing(contents[0], rest);
    }
  }

  lemma {:induction false} PrintedEnd(contents: seq<Text>, gap: Text)
    requires contents != []
    ensures var s := PrintTuples(contents, gap); s != [] && s[|s| - 1] == ')'
  {
    if |contents| > 1 {
      PrintedEnd(contents[1..], gap);
    }
  }

  lemma OneClosing(content: Text, rest: Text)
    requires ')' !in content
    ensures multiset(['('] + content + [')'] + rest)[')'] == 1 + multiset(rest)[')']
  {
    assert multiset(['('] + content + [')'] + rest) == multiset(['(']) + multiset(content) + multiset([')']) + multiset(rest);
    assert multiset(content)[')'] == 0;
  }

  lemma NoClosing(gap: Text, rest: Text)
    requires ')' !in gap
    ensures multiset(gap + rest)[')'] == multiset(rest)[')']
  {
    assert multiset(gap + rest) == multiset(gap) + multiset(rest);
    assert multiset(gap)[')'] == 0;
  }

  // ---------- SET lists ----------

  /** The assignments of a SET list: pairs without '=' are skipped and a later
      pair for the same column wins. */
  function AssignmentsOf(pairs: seq<Text>, params: Params): (m: map<Text, Text>)
    ensures forall k :: k in m ==> ToLower(k) == k
  {
    if pairs == [] then map[]
    else
      var m := AssignmentsOf(pairs[..|pairs| - 1], params);
      var p := pairs[|pairs| - 1];
      var eq := Find(p, '=');
      if eq == |p| then m else m[SanitizeName(p[..eq]) := ParsedValue(p[eq + 1..], params)]
  }

  method ParseSetAssignments(setExpr: Text, params: Params) returns (res: map<Text, Text>)
    ensures res == AssignmentsOf(Split(setExpr, ','), params)
  {
    hide ParsedValue, SanitizeName;
    res := map[];
    var pairs := Split(setExpr, ',');
    for n := 0 to |pairs|
      invariant res == AssignmentsOf(pairs[..n], params)
    {
      assert pairs[..n + 1][..n] == pairs[..n];
      var p := pairs[n];
      var eq := Find(p, '=');
      if eq < |p| {
        res := res[SanitizeName(p[..eq]) := ParsedValue(p[eq + 1..], params)];
      }
    }
    assert pairs[..|pairs|] == pairs;
  }

  // ---------- WHERE ----------

  function WhereTarget(raw: Text, params: Params): Text {
    var t := TrimSpace(raw);
    if HasPrefix(t, "$") then
      match BoundIndex(t, params)
      case Some(i) => BoundText(params[i])
      case None => t
    else Trim(t, QUOTES)
  }

  /** A WHERE that is not an equality, or names no column of the row, accepts
      every row; an equality ignores case. */
  predicate EvaluateWhere(where: Text, cols: seq<Text>, row: Row, params: Params) {
    var eq := Find(where, '=');
    if where == [] || eq == |where| then true
    else
      var idx := FindColIndex(cols, SanitizeName(where[..eq]));
      if 0 <= idx < |row| then EqualFold(row[idx], WhereTarget(where[eq + 1..], params)) else true
  }
}
