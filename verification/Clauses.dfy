/** Statements as a client writes them: what the text of a name, a WHERE equality,
    a SET list or a VALUES list makes the store do. */
module Clauses {
  import opened Text
  import opened Rules
  import opened Values
  import opened Relational

  // ---------- Names ----------

  /** A name with nothing to trim and no schema. */
  predicate PlainName(n: Text) {
    Trimmed(n, SPACES) && Trimmed(n, NAME_QUOTES) && '.' !in n
  }

  lemma {:induction false} LastDot(schema: Text, n: Text)
    requires '.' !in n
    ensures AfterLastDot(schema + ['.'] + n) == n
    decreases |schema|
  {
    var s := schema + ['.'] + n;
    var i := Find(schema, '.');
    FindFirst(schema, '.');
    assert schema[..|schema|] == schema;
    if i == |schema| {
      FindAfter(schema, '.', n);
      FindNone(n, '.');
      assert s[|schema| + 1..] == n;
    } else {
      var rest := schema[i + 1..];
      assert s == schema[..i] + ['.'] + (rest + ['.'] + n);
      FindAfter(schema[..i], '.', rest + ['.'] + n);
      assert s[i + 1..] == rest + ['.'] + n;
      LastDot(rest, n);
    }
  }

  lemma {:induction false} TrimLeftStops(a: Text, b: Text, cut: set<byte>)
    requires b != [] && b[0] !in cut
    ensures TrimLeft(a + b, cut) == TrimLeft(a, cut) + b
  {
    if a == [] {
      assert a + b == b;
    } else {
      assert (a + b)[0] == a[0] && (a + b)[1..] == a[1..] + b;
      if a[0] in cut {
        TrimLeftStops(a[1..], b, cut);
      }
    }
  }

  /** Trimming stops at the dot from the left and at the name from the right. */
  lemma TrimBefore(schema: Text, n: Text, q: Text, cut: set<byte>)
    requires '.' !in cut && AllBlank(q, cut) && (n == [] || n[|n| - 1] !in cut)
    ensures Trim(schema + ['.'] + n + q, cut) == TrimLeft(schema, cut) + ['.'] + n
  {
    hide TrimLeft;
    var tail := ['.'] + n + q;
    assert schema + ['.'] + n + q == schema + tail;
    TrimLeftStops(schema, tail, cut);
    var s := TrimLeft(schema, cut) + ['.'] + n;
    assert TrimLeft(schema, cut) + tail == s + q;
    TrimRightCut(s, q, cut);
    assert s[|s| - 1] == if n == [] then '.' else n[|n| - 1];
  }

  lemma DotIsKept()
    ensures '.' !in SPACES && '.' !in NAME_QUOTES
  {
  }

  /** A name as a client spells it: quotes around all of it, a schema before it,
      blanks outside. */
  datatype Name = Name(left: Text, open: Text, schema: Option<Text>, name: Text, close: Text, right: Text)
  {
    function Word(): Text {
      open + (if schema.Some? then schema.value + ['.'] else []) + name + close
    }

    predicate Valid() {
      && AllBlank(left, SPACES) && AllBlank(right, SPACES)
      && AllBlank(open, NAME_QUOTES) && AllBlank(close, NAME_QUOTES) && PlainName(name)
    }

    predicate Avoids(c: byte) {
      c !in name && (schema.Some? ==> c !in schema.value)
    }
  }

  function PrintName(n: Name): Text {
    n.left + n.Word() + n.right
  }

  /** However it is spelled, a name is the name in lower case. */
  lemma NameSpellings(n: Name)
    requires n.Valid()
    ensures SanitizeName(PrintName(n)) == ToLower(n.name)
  {
    hide AfterLastDot, Trim, ToLower;
    match n.schema
    case None => UnqualifiedName(n);
    case Some(schema) =>
      var first := n.left + n.open + schema;
      DotIsKept();
      NameEnds(n);
      assert PrintName(n) == first + ['.'] + (n.name + n.close) + n.right;
      TrimBefore(first, n.name + n.close, n.right, SPACES);
      var second := TrimLeft(first, SPACES);
      assert second + ['.'] + (n.name + n.close) == second + ['.'] + n.name + n.close;
      TrimBefore(second, n.name, n.close, NAME_QUOTES);
      LastDot(TrimLeft(second, NAME_QUOTES), n.name);
  }

  lemma NameEnds(n: Name)
    requires n.Valid()
    ensures n.name + n.close == [] || (n.name + n.close)[|n.name + n.close| - 1] !in SPACES
    ensures Trimmed(n.open + n.name + n.close, SPACES)
  {
    assert forall q: byte :: q in NAME_QUOTES ==> q !in SPACES;
  }

  lemma UnqualifiedName(n: Name)
    requires n.Valid() && n.schema.None?
    ensures SanitizeName(PrintName(n)) == ToLower(n.name)
  {
    hide Trim, ToLower;
    NameEnds(n);
    assert n.Word() == n.open + n.name + n.close;
    TrimAround(n.left, n.Word(), n.right, SPACES);
    TrimAround(n.open, n.name, n.close, NAME_QUOTES);
    FindNone(n.name, '.');
  }

  /** When schema and name are quoted each on its own, the quote before the name
      is neither at an end nor before the dot: it stays, and the name is another. */
  lemma EachQuoted(n: Text, schema: Text, quote: byte)
    requires PlainName(n) && quote in NAME_QUOTES && n != []
    ensures SanitizeName([quote] + schema + [quote] + ['.'] + ([quote] + n + [quote])) == ToLower([quote] + n)
    ensures ToLower([quote] + n) != ToLower(n)
  {
    hide AfterLastDot, Trim;
    DotIsKept();
    var left := [quote] + schema + [quote];
    var m := [quote] + n;
    var s := left + ['.'] + (m + [quote]);
    TrimBefore(left, m + [quote], [], SPACES);
    assert s == left + ['.'] + (m + [quote]) + [];
    assert TrimLeft(left, SPACES) == left;
    assert s == left + ['.'] + m + [quote];
    TrimBefore(left, m, [quote], NAME_QUOTES);
    LastDot(TrimLeft(left, NAME_QUOTES), m);
  }

  lemma NameAvoids(n: Name, d: byte)
    requires n.Valid() && n.Avoids(d) && d !in SPACES && d !in NAME_QUOTES && d != '.'
    ensures d !in PrintName(n)
  {
    BlanksAvoid(n.left, SPACES, d);
    BlanksAvoid(n.right, SPACES, d);
    BlanksAvoid(n.open, NAME_QUOTES, d);
    BlanksAvoid(n.close, NAME_QUOTES, d);
  }

  // ---------- WHERE ----------

  /** A name and a value a client can put around an equals sign. */
  predicate Comparable(n: Name, c: Cell, params: Params) {
    n.Valid() && n.Avoids('=') && Spelled(c, params) && FitsSigned(|params|, 64)
  }

  function Equation(n: Name, c: Cell): Text {
    PrintName(n) + ['='] + PrintCell(c)
  }

  lemma EquationParts(n: Name, c: Cell)
    requires n.Valid() && n.Avoids('=')
    ensures var e, s := Find(Equation(n, c), '='), Equation(n, c);
            e < |s| && s[..e] == PrintName(n) && s[e + 1..] == PrintCell(c)
  {
    hide PrintName, PrintCell;
    NameAvoids(n, '=');
    FindAfter(PrintName(n), '=', PrintCell(c));
  }

  /** `name = value` accepts the rows whose first column of that name equals the
      value up to case, and every row when no column has the name. */
  lemma WhereFilters(cols: seq<Text>, row: Row, n: Name, c: Cell, params: Params)
    requires Comparable(n, c, params)
    ensures var i := FindColIndex(cols, ToLower(n.name));
            EvaluateWhere(Equation(n, c), cols, row, params) <==>
            (0 <= i < |row| ==> EqualFold(row[i], Meant(c, params)))
  {
    hide WhereTarget, SanitizeName, PrintCell, PrintName, Spelled;
    EquationParts(n, c);
    NameSpellings(n);
    CellRead(c, params);
  }

  /** A WHERE without an equals sign accepts every row. */
  lemma WhereWithoutEquality(where: Text, cols: seq<Text>, row: Row, params: Params)
    requires '=' !in where
    ensures EvaluateWhere(where, cols, row, params)
  {
    FindNone(where, '=');
  }

  lemma {:induction false} EveryRowWithoutEquality(where: Text, cols: seq<Text>, rows: seq<Row>, params: Params)
    requires '=' !in where
    ensures Selected(where, cols, rows, params) == rows && Rejected(where, cols, rows, params) == []
  {
    hide EvaluateWhere;
    if rows != [] {
      WhereWithoutEquality(where, cols, rows[0], params);
      EveryRowWithoutEquality(where, cols, rows[1..], params);
      assert [rows[0]] + rows[1..] == rows;
    }
  }

  /** A condition that is no equality, such as `a > 1` or `a IS NULL`, is no
      condition: SELECT returns the whole table, DELETE empties it, and UPDATE
      assigns to every row. */
  lemma WithoutEqualityAllRows(db: Database, table: Text, setExpr: Text, where: Text, params: Params)
    requires SanitizeName(table) in db && '=' !in where
    ensures var t := db[SanitizeName(table)];
            var m := AssignmentsOf(Split(setExpr, ','), params);
            && Answer(db, Select(ALL, table, where), params).rows == t.rows
            && Exec(db, Relational.Delete(table, where), params) == db[SanitizeName(table) := t.(rows := [])]
            && Answer(db, Relational.Update(table, setExpr, where), params).tag == UpdateTag(|t.rows|)
            && var after := Exec(db, Relational.Update(table, setExpr, where), params)[SanitizeName(table)];
               |after.rows| == |t.rows| && forall r :: 0 <= r < |t.rows| ==> after.rows[r] == AssignRow(t.columns, t.rows[r], m)
  {
    hide SanitizeName, EvaluateWhere, Selected, Rejected, AssignRow, AssignmentsOf, UpdateTag, Split;
    var t := db[SanitizeName(table)];
    EveryRowWithoutEquality(where, t.columns, t.rows, params);
    forall r | 0 <= r < |t.rows|
      ensures EvaluateWhere(where, t.columns, t.rows[r], params)
    {
      WhereWithoutEquality(where, t.columns, t.rows[r], params);
    }
  }

  /** The rows with this value in column i, up to case, in order. */
  function WithValue(rows: seq<Row>, i: nat, v: Text): seq<Row> {
    if rows == [] then []
    else (if i < |rows[0]| && EqualFold(rows[0][i], v) then [rows[0]] else []) + WithValue(rows[1..], i, v)
  }

  function WithoutValue(rows: seq<Row>, i: nat, v: Text): seq<Row> {
    if rows == [] then []
    else (if i < |rows[0]| && EqualFold(rows[0][i], v) then [] else [rows[0]]) + WithoutValue(rows[1..], i, v)
  }

  lemma {:induction false} RowsByText(cols: seq<Text>, rows: seq<Row>, n: Name, c: Cell, params: Params)
    requires Comparable(n, c, params) && FindColIndex(cols, ToLower(n.name)) >= 0
    requires forall r :: 0 <= r < |rows| ==> |rows[r]| == |cols|
    ensures var i := FindColIndex(cols, ToLower(n.name));
            && Selected(Equation(n, c), cols, rows, params) == WithValue(rows, i, Meant(c, params))
            && Rejected(Equation(n, c), cols, rows, params) == WithoutValue(rows, i, Meant(c, params))
  {
    hide EvaluateWhere, Equation, Meant, Comparable, EqualFold;
    if rows != [] {
      RowsByText(cols, rows[1..], n, c, params);
      WhereFilters(cols, rows[0], n, c, params);
    }
  }

  /** SELECT * and DELETE with an equality, from the text of the statement: what
      is returned, and what is left. */
  lemma SelectAndDeleteByText(db: Database, table: Text, n: Name, c: Cell, params: Params)
    requires SanitizeName(table) in db && Rectangular(db[SanitizeName(table)])
    requires Comparable(n, c, params) && FindColIndex(db[SanitizeName(table)].columns, ToLower(n.name)) >= 0
    ensures var t := db[SanitizeName(table)];
            var i, v := FindColIndex(t.columns, ToLower(n.name)), Meant(c, params);
            && Answer(db, Select(ALL, table, Equation(n, c)), params).rows == WithValue(t.rows, i, v)
            && Exec(db, Relational.Delete(table, Equation(n, c)), params) ==
               db[SanitizeName(table) := t.(rows := WithoutValue(t.rows, i, v))]
  {
    hide SanitizeName, Selected, Rejected, WithValue, WithoutValue, Equation, Comparable, Meant;
    var t := db[SanitizeName(table)];
    RowsByText(t.columns, t.rows, n, c, params);
  }

  const ALL: Text := "*"

  // ---------- SET ----------

  type Assignments = seq<(Name, Cell)>

  function Equations(pairs: Assignments): (es: seq<Text>)
    ensures |es| == |pairs|
  {
    seq(|pairs|, i requires 0 <= i < |pairs| => Equation(pairs[i].0, pairs[i].1))
  }

  /** A name that survives between commas and before an equals sign. */
  predicate Settable(n: Name) {
    n.Valid() && n.Avoids('=') && n.Avoids(',')
  }

  predicate Assignable(p: (Name, Cell), params: Params) {
    Settable(p.0) && Spelled(p.1, params) && FitsSigned(|params|, 64) && (p.1.Literal? ==> ',' !in p.1.text)
  }

  ghost predicate InRange(pairs: Assignments, params: Params) {
    forall i :: 0 <= i < |pairs| ==> pairs[i].1.Placeholder? ==> 1 <= pairs[i].1.k <= |params|
  }

  /** The assignments a client means: a later one for a column wins. */
  ghost function Intended(pairs: Assignments, params: Params): map<Text, Text>
    requires InRange(pairs, params)
  {
    if pairs == [] then map[]
    else
      var (n, c) := pairs[|pairs| - 1];
      assert pairs[|pairs| - 1] == (n, c);
      Intended(pairs[..|pairs| - 1], params)[ToLower(n.name) := Meant(c, params)]
  }

  lemma EquationHasNoComma(p: (Name, Cell), params: Params)
    requires Assignable(p, params)
    ensures ',' !in Equation(p.0, p.1)
  {
    hide PrintName, PrintCell, Spelled;
    NameAvoids(p.0, ',');
    CellAvoids(p.1, params, ',');
  }

  lemma {:induction false} AssignmentsRead(pairs: Assignments, params: Params)
    requires forall i :: 0 <= i < |pairs| ==> Assignable(pairs[i], params)
    ensures InRange(pairs, params) && AssignmentsOf(Equations(pairs), params) == Intended(pairs, params)
  {
    hide Equation, Meant;
    if pairs != [] {
      var n := |pairs| - 1;
      assert Equations(pairs)[..n] == Equations(pairs[..n]);
      AssignmentsRead(pairs[..n], params);
      AssignmentRead(Equations(pairs), pairs[n].0, pairs[n].1, params);
    }
  }

  lemma AssignmentRead(es: seq<Text>, n: Name, c: Cell, params: Params)
    requires es != [] && es[|es| - 1] == Equation(n, c) && Comparable(n, c, params)
    ensures AssignmentsOf(es, params) == AssignmentsOf(es[..|es| - 1], params)[ToLower(n.name) := Meant(c, params)]
  {
    hide SanitizeName, ParsedValue, WhereTarget, Equation, Meant, PrintName, PrintCell;
    EquationParts(n, c);
    NameSpellings(n);
    CellRead(c, params);
  }

  /** A printed SET list without a comma in a value reads back as the assignments
      the client meant. */
  lemma SetListReadsBack(pairs: Assignments, params: Params)
    requires pairs != [] && forall i :: 0 <= i < |pairs| ==> Assignable(pairs[i], params)
    ensures InRange(pairs, params)
    ensures AssignmentsOf(Split(Join(Equations(pairs), ','), ','), params) == Intended(pairs, params)
  {
    hide Assignable, Equation;
    forall i | 0 <= i < |pairs|
      ensures ',' !in Equations(pairs)[i]
    {
      EquationHasNoComma(pairs[i], params);
    }
    SplitJoin(Equations(pairs), ',');
    AssignmentsRead(pairs, params);
  }

  /** A value in quotes, whatever is between them. */
  predicate InQuotes(c: Cell) {
    && c.Literal? && AllBlank(c.left, SPACES) && AllBlank(c.right, SPACES)
    && c.open != [] && AllBlank(c.open, QUOTES) && c.close != [] && AllBlank(c.close, QUOTES)
  }

  /** Quoted assignments to different columns read back exactly when no value has
      a comma in it or a quote at an end. */
  lemma SetListReadsBackIff(pairs: Assignments)
    requires pairs != [] && forall i :: 0 <= i < |pairs| ==> Settable(pairs[i].0) && InQuotes(pairs[i].1)
    requires forall i, j :: 0 <= i < j < |pairs| ==> !EqualFold(pairs[i].0.name, pairs[j].0.name)
    ensures InRange(pairs, [])
    ensures AssignmentsOf(Split(Join(Equations(pairs), ','), ','), []) == Intended(pairs, []) <==>
            forall i :: 0 <= i < |pairs| ==> ',' !in pairs[i].1.text && Trimmed(pairs[i].1.text, QUOTES)
  {
    hide AssignmentsOf, Intended, Equations, Split, Join, Trimmed, Settable;
    var list := Join(Equations(pairs), ',');
    if forall i :: 0 <= i < |pairs| ==> ',' !in pairs[i].1.text && Trimmed(pairs[i].1.text, QUOTES) {
      forall i | 0 <= i < |pairs|
        ensures Assignable(pairs[i], [])
      {
        CleanIsAssignable(pairs[i].0, pairs[i].1);
      }
      SetListReadsBack(pairs, []);
    }
    if AssignmentsOf(Split(list, ','), []) == Intended(pairs, []) {
      forall i | 0 <= i < |pairs|
        ensures ',' !in pairs[i].1.text && Trimmed(pairs[i].1.text, QUOTES)
      {
        IntendedAt(pairs, i);
        ReadHasNoComma(list, ToLower(pairs[i].0.name));
      }
    }
  }

  lemma CleanIsAssignable(n: Name, c: Cell)
    requires Settable(n) && InQuotes(c) && ',' !in c.text && Trimmed(c.text, QUOTES)
    ensures Assignable((n, c), [])
  {
  }

  lemma ReadHasNoComma(list: Text, key: Text)
    requires key in AssignmentsOf(Split(list, ','), [])
    ensures var v := AssignmentsOf(Split(list, ','), [])[key]; ',' !in v && Trimmed(v, QUOTES)
  {
    hide AssignmentsOf, Split, Trimmed;
    forall k | 0 <= k < |Split(list, ',')|
      ensures ',' !in Split(list, ',')[k]
    {
      SplitPart(list, ',', k);
    }
    AssignedHasNoComma(Split(list, ','), key);
  }

  lemma {:induction false} IntendedAt(pairs: Assignments, i: nat)
    requires i < |pairs| && forall k :: 0 <= k < |pairs| ==> pairs[k].1.Literal?
    requires forall k, j :: 0 <= k < j < |pairs| ==> !EqualFold(pairs[k].0.name, pairs[j].0.name)
    ensures ToLower(pairs[i].0.name) in Intended(pairs, [])
    ensures Intended(pairs, [])[ToLower(pairs[i].0.name)] == pairs[i].1.text
  {
    hide ToLower;
    if i < |pairs| - 1 {
      IntendedAt(pairs[..|pairs| - 1], i);
      assert !EqualFold(pairs[i].0.name, pairs[|pairs| - 1].0.name);
    }
  }

  lemma {:induction false} AssignedHasNoComma(pieces: seq<Text>, key: Text)
    requires key in AssignmentsOf(pieces, []) && forall k :: 0 <= k < |pieces| ==> ',' !in pieces[k]
    ensures var v := AssignmentsOf(pieces, [])[key]; ',' !in v && Trimmed(v, QUOTES)
  {
    hide ParsedValue, SanitizeName, Trimmed;
    var p := pieces[|pieces| - 1];
    var eq := Find(p, '=');
    if eq < |p| && key == SanitizeName(p[..eq]) {
      ParsedIsSlice(p[eq + 1..]);
    } else {
      AssignedHasNoComma(pieces[..|pieces| - 1], key);
    }
  }

  lemma {:induction false} AssignmentsAppend(xs: seq<Text>, ys: seq<Text>, params: Params)
    ensures AssignmentsOf(xs + ys, params) == AssignmentsOf(xs, params) + AssignmentsOf(ys, params)
  {
    hide ParsedValue, SanitizeName;
    if ys == [] {
      assert xs + ys == xs;
    } else {
      var n := |ys| - 1;
      AssignmentsAppend(xs, ys[..n], params);
      assert (xs + ys)[..|xs + ys| - 1] == xs + ys[..n];
    }
  }

  lemma {:induction false} NothingAssigned(pieces: seq<Text>, params: Params)
    requires forall k :: 0 <= k < |pieces| ==> '=' !in pieces[k]
    ensures AssignmentsOf(pieces, params) == map[]
  {
    if pieces != [] {
      FindNone(pieces[|pieces| - 1], '=');
      NothingAssigned(pieces[..|pieces| - 1], params);
    }
  }

  function HalfQuoted(a: Text): Cell {
    Literal([], ['\''], a, [], [])
  }

  lemma CutAtComma(n: Name, a: Text, b: Text, params: Params)
    requires Settable(n) && FitsSigned(|params|, 64)
    requires a != [] && ',' !in a && Trimmed(a, SPACES) && Trimmed(a, QUOTES)
    ensures Comparable(n, HalfQuoted(a), params) && ',' !in Equation(n, HalfQuoted(a))
    ensures Equation(n, Quoted(a + [','] + b)) == Equation(n, HalfQuoted(a)) + [','] + (b + ['\''])
  {
    hide PrintName, PrintCell, Trimmed;
    HalfIsSpelled(a, params);
    EquationHasNoComma((n, HalfQuoted(a)), params);
    HalfPrinted(a, b);
  }

  lemma HalfIsSpelled(a: Text, params: Params)
    requires a != [] && Trimmed(a, SPACES) && Trimmed(a, QUOTES)
    ensures Spelled(HalfQuoted(a), params)
  {
  }

  lemma HalfPrinted(a: Text, b: Text)
    ensures PrintCell(Quoted(a + [','] + b)) == PrintCell(HalfQuoted(a)) + [','] + (b + ['\''])
  {
  }

  /** A comma in a quoted value ends it: what follows is read as further pairs,
      which assign nothing unless they hold an equals sign. `name='Doe, John'`
      assigns `Doe`. */
  lemma CommaEndsValue(n: Name, a: Text, b: Text, params: Params)
    requires Settable(n) && FitsSigned(|params|, 64)
    requires a != [] && ',' !in a && Trimmed(a, SPACES) && Trimmed(a, QUOTES)
    ensures var read := AssignmentsOf(Split(Equation(n, Quoted(a + [','] + b)), ','), params);
            && read == map[ToLower(n.name) := a] + AssignmentsOf(Split(b + ['\''], ','), params)
            && ('=' !in b ==> read == map[ToLower(n.name) := a])
  {
    hide AssignmentsOf, Split, Equation, Settable, Trimmed;
    var behind := b + ['\''];
    CutAtComma(n, a, b, params);
    SplitOnce(Equation(n, HalfQuoted(a)), ',', behind);
    AssignmentsAppend([Equation(n, HalfQuoted(a))], Split(behind, ','), params);
    OneAssignment(n, HalfQuoted(a), params);
    if '=' !in b {
      forall k | 0 <= k < |Split(behind, ',')|
        ensures '=' !in Split(behind, ',')[k]
      {
        SplitPart(behind, ',', k);
      }
      NothingAssigned(Split(behind, ','), params);
    }
  }

  lemma OneAssignment(n: Name, c: Cell, params: Params)
    requires Comparable(n, c, params)
    ensures AssignmentsOf([Equation(n, c)], params) == map[ToLower(n.name) := Meant(c, params)]
  {
    hide Equation, Comparable, Meant;
    AssignmentRead([Equation(n, c)], n, c, params);
    assert [Equation(n, c)][..0] == [];
  }

  /** UPDATE with a SET list and an equality, from its text: exactly the rows with
      the value change, and in them exactly the first column of each name set. */
  lemma UpdateByText(db: Database, table: Text, pairs: Assignments, n: Name, c: Cell, params: Params, r: nat, j: nat)
    requires SanitizeName(table) in db && Rectangular(db[SanitizeName(table)])
    requires pairs != [] && forall i :: 0 <= i < |pairs| ==> Assignable(pairs[i], params)
    requires Comparable(n, c, params)
    requires r < |db[SanitizeName(table)].rows| && j < |db[SanitizeName(table)].columns|
    ensures InRange(pairs, params)
    ensures var t, m := db[SanitizeName(table)], Intended(pairs, params);
            var i := FindColIndex(t.columns, ToLower(n.name));
            var after := Exec(db, Relational.Update(table, Join(Equations(pairs), ','), Equation(n, c)), params);
            && SanitizeName(table) in after && |after[SanitizeName(table)].rows| == |t.rows|
            && |after[SanitizeName(table)].rows[r]| == |t.columns| && after[SanitizeName(table)].columns == t.columns
            && after.Keys == db.Keys && (forall k :: k in db && k != SanitizeName(table) ==> after[k] == db[k])
            && after[SanitizeName(table)].rows[r][j] ==
               if ToLower(t.columns[j]) in m && FindColIndex(t.columns, ToLower(t.columns[j])) == j && (i < 0 || EqualFold(t.rows[r][i], Meant(c, params)))
               then m[ToLower(t.columns[j])] else t.rows[r][j]
  {
    hide SanitizeName, EvaluateWhere, Equation, Meant, Assignable, AssignmentsOf, Split, FindColIndex, Comparable;
    hide Intended, Equations, Join;
    var t := db[SanitizeName(table)];
    SetListReadsBack(pairs, params);
    WhereFilters(t.columns, t.rows[r], n, c, params);
  }

  /** A table whose column gets one value in both its rows, sent half before and
      half after: the client sees rows of a table there never was. */
  lemma SentRowsAreTorn(n: Name, a: Text, b: Text, v: Text)
    requires Settable(n) && ',' !in v && Trimmed(v, QUOTES) && a != v && b != v
    ensures var t, list := Table([ToLower(n.name)], [TEXT_OID], [[a], [b]]), Equation(n, Quoted(v));
            var sent := t.rows[..1] + UpdateRows([], t.columns, t.rows[1..], AssignmentsOf(Split(list, ','), []), []);
            && sent == [[a], [v]] && sent != t.rows
            && UpdateTable(t, list, [], []).rows == [[v], [v]] && sent != UpdateTable(t, list, [], []).rows
  {
    hide Equation, AssignmentsOf, Split, Settable, Trimmed;
    var pairs := [(n, Quoted(v))];
    QuotedIsAssignable(n, v);
    SetListReadsBack(pairs, []);
    assert Join(Equations(pairs), ',') == Equation(n, Quoted(v));
    assert pairs[..0] == [];
    LowerIdempotent(n.name);
    var cols, m := [ToLower(n.name)], map[ToLower(n.name) := v];
    assert Intended(pairs, []) == Intended([], [])[ToLower(n.name) := v];
    assert forall row: Row :: |row| == 1 ==> UpdateRow([], cols, row, m, []) == [v];
  }

  lemma QuotedIsAssignable(n: Name, v: Text)
    requires Settable(n) && ',' !in v && Trimmed(v, QUOTES)
    ensures Assignable((n, Quoted(v)), [])
  {
  }

  // ---------- INSERT ----------

  /** The word that starts a RETURNING clause is somewhere in the values. */
  predicate Returns(values: Text) {
    Contains(ToUpper(values), RETURNING)
  }

  lemma RowsComeBackIff(db: Database, table: Text, colList: Text, rows: seq<seq<Cell>>, gap: Text,
                        params: Params)
    requires SanitizeName(table) in db && FitsSigned(|params|, 64)
    requires ReadableRows(rows, params) && IsGap(gap)
    ensures var values := PrintRows(rows, gap);
            var after := Exec(db, Insert(table, colList, values), params);
            var t := db[SanitizeName(table)];
            && (Answer(after, Select(ALL, table, []), params).rows == t.rows + FitRows(CellValues(rows, params), |t.columns|)
                <==> !Returns(values))
            && (Answer(db, Insert(table, colList, values), params).tag == InsertTag(|rows|) <==> !Returns(values))
  {
    hide SanitizeName, ValuesOf, PrintRows, ToUpper, IndexOf, FitRows, InsertTag, RETURNING, ReadableRows, CellValues;
    hide SplitReturning;
    var values, t := PrintRows(rows, gap), db[SanitizeName(table)];
    var parsed := InsertRows(values, params);
    EverySelected(t.columns, t.rows + FitRows(parsed, |t.columns|), params);
    if Returns(values) {
      ReturningLosesRows(rows, gap, params);
      TagCounts(|parsed|, |rows|);
    } else {
      NothingCut(values);
      PrintedRowsReadBack(rows, gap, params);
    }
  }

  /** Rows inserted from their text into a table that exists come back behind the
      rows it had, padded with NULL or cut to its width, column list or not,
      exactly when the word RETURNING stands between blanks in no value; and
      exactly then the tag counts them. */
  lemma InsertedRowsComeBackIff(db: Database, table: Text, colList: Text, rows: seq<seq<Cell>>, gap: Text,
                                params: Params)
    requires SanitizeName(table) in db && FitsSigned(|params|, 64)
    requires ReadableRows(rows, params) && IsGap(gap)
    ensures var values := PrintRows(rows, gap);
            var after := Exec(db, Insert(table, colList, values), params);
            var t := db[SanitizeName(table)];
            && (Answer(after, Select(ALL, table, []), params).rows == t.rows + FitRows(CellValues(rows, params), |t.columns|)
                <==> !Returns(values))
            && (Answer(db, Insert(table, colList, values), params).tag == "INSERT 0 " + Itoa(|rows|) <==> !Returns(values))
  {
    hide SanitizeName, PrintRows, FitRows, InsertTag, ReadableRows, CellValues, Exec, Answer, Returns, Itoa;
    RowsComeBackIff(db, table, colList, rows, gap, params);
    InsertTagText(|rows|);
  }

  lemma InsertTagText(n: nat)
    ensures InsertTag(n) == "INSERT 0 " + Itoa(n)
  {
  }

  lemma NothingCut(values: Text)
    requires !Returns(values)
    ensures SplitReturning(values) == (values, [])
  {
  }

  lemma TagCounts(m: nat, n: nat)
    requires m != n
    ensures InsertTag(m) != InsertTag(n)
  {
    ItoaValue(m);
    ItoaValue(n);
    var verb: Text := "INSERT 0 ";
    assert InsertTag(m)[|verb|..] == Itoa(m) && InsertTag(n)[|verb|..] == Itoa(n);
  }

  /** The cut is before the last closing parenthesis, so a tuple is lost. */
  lemma ReturningLosesRows(rows: seq<seq<Cell>>, gap: Text, params: Params)
    requires ReadableRows(rows, params) && IsGap(gap) && FitsSigned(|params|, 64)
    requires Returns(PrintRows(rows, gap))
    ensures |InsertRows(PrintRows(rows, gap), params)| < |rows|
  {
    hide Tuples, PrintTuples, PrintTuple, IndexOf, ToUpper, ParsedTuple;
    var contents := seq(|rows|, i requires 0 <= i < |rows| => PrintTuple(rows[i]));
    forall i | 0 <= i < |rows|
      ensures ')' !in contents[i]
    {
      PrintedTuple(rows[i], params);
    }
    PrintedClosings(contents, gap);
    if contents != [] {
      PrintedEnd(contents, gap);
    }
    var values := PrintRows(rows, gap);
    assert |RETURNING| == 11;
    assert contents == [] ==> values == [] by { NothingPrinted(gap); }
    CutBeforeLast(values);
    TuplesClosed(SplitReturning(values).0);
  }

  lemma NothingPrinted(gap: Text)
    ensures PrintTuples([], gap) == []
  {
  }

  lemma CutBeforeLast(values: Text)
    requires Returns(values) && values != [] && values[|values| - 1] == ')'
    ensures multiset(SplitReturning(values).0)[')'] < multiset(values)[')']
  {
    hide IndexOf, ToUpper;
    var idx := IndexOf(ToUpper(values), RETURNING);
    assert |RETURNING| == 11;
    var before, behind := values[..idx], values[idx..];
    assert values == before + behind;
    assert behind[|behind| - 1] == ')';
    var from, to := TrimIsSlice(before, SPACES);
    assert before == before[..from] + before[from..to] + before[to..];
  }

  /** One row whose value has the word in it, and nothing is inserted. */
  lemma ReturningInValue(x: Text, word: Text, y: Text, params: Params)
    requires ToUpper(word) == RETURNING && Clean(x + word + y) && FitsSigned(|params|, 64)
    ensures var values := PrintRows([[Quoted(x + word + y)]], []);
            Returns(values) && InsertRows(values, params) == []
  {
    hide IndexOf, ToUpper, InsertRows, PrintRows, Clean, Readable;
    var rows, k := [[Quoted(x + word + y)]], |x| + 2;
    var values := PrintRows(rows, []);
    OneRowPrinted(x + word + y);
    assert values == (['(', '\''] + x) + word + (y + ['\'', ')']);
    UpperPart(['(', '\''] + x, word, y + ['\'', ')']);
    OccursIsFound(ToUpper(values), RETURNING, k);
    QuotedIsReadable(x + word + y, params);
    ReturningLosesRows(rows, [], params);
  }

  lemma OneRowPrinted(v: Text)
    ensures PrintRows([[Quoted(v)]], []) == ['(', '\''] + v + ['\'', ')']
  {
  }

  lemma UpperPart(a: Text, word: Text, b: Text)
    ensures HasPrefix(ToUpper(a + word + b)[|a|..], ToUpper(word))
  {
  }

  /** `INSERT INTO t VALUES ('he is returning home')` inserts nothing. */
  lemma NobodyReturnsHome(params: Params)
    requires FitsSigned(|params|, 64)
    ensures InsertRows(PrintRows([[Quoted("he is" + " returning " + "home")]], []), params) == []
  {
    hide InsertRows, PrintRows;
    assert ToUpper(" returning ") == RETURNING;
    ReturningInValue("he is", " returning ", "home", params);
  }

  lemma {:induction false} OccursIsFound(s: Text, p: Text, k: nat)
    requires k <= |s| && HasPrefix(s[k..], p)
    ensures Contains(s, p)
  {
    if k > 0 {
      assert s[1..][k - 1..] == s[k..];
      OccursIsFound(s[1..], p, k - 1);
    } else {
      assert s[0..] == s;
    }
  }

  lemma {:induction false} EverySelected(cols: seq<Text>, rows: seq<Row>, params: Params)
    ensures Selected([], cols, rows, params) == rows
  {
    if rows != [] {
      EverySelected(cols, rows[1..], params);
      assert EvaluateWhere([], cols, rows[0], params);
      assert [rows[0]] + rows[1..] == rows;
    }
  }

  // ---------- CREATE TABLE ----------

  /** A column with its type and whatever follows, or a table constraint with the
      word it starts with. */
  datatype Definition = Column(head: Name, rest: Text) | Constraint(head: Name, rest: Text)

  predicate OneWord(w: Text) {
    w != [] && forall i :: 0 <= i < |w| ==> w[i] !in SPACES
  }

  predicate Tail(t: Text) {
    t == [] || t[0] in SPACES
  }

  predicate Definable(d: Definition) {
    d.head.Valid() && OneWord(d.head.Word()) && ',' !in d.head.Word() && d.head.right == [] && Tail(d.rest)
  }

  function PrintDefinition(d: Definition): Text {
    PrintName(d.head) + d.rest
  }

  function PrintDefinitions(ds: seq<Definition>): (r: seq<Text>)
    ensures |r| == |ds|
  {
    seq(|ds|, i requires 0 <= i < |ds| => PrintDefinition(ds[i]))
  }

  /** The columns the client means. */
  function ColumnNames(ds: seq<Definition>): seq<Text> {
    if ds == [] then []
    else (if ds[0].Column? then [ToLower(ds[0].head.name)] else []) + ColumnNames(ds[1..])
  }

  /** The four words a table constraint can start with, in any letter case. */
  predicate Reserved(w: Text) {
    ToLower(w) in {"primary", "foreign", "constraint", "unique"}
  }

  lemma ReservedWords()
    ensures forall w :: IsConstraintWord(w) <==> Reserved(w)
  {
    hide ToLower;
    FourWords();
  }

  lemma FourWords()
    ensures ToLower("PRIMARY") == "primary" && ToLower("FOREIGN") == "foreign"
    ensures ToLower("CONSTRAINT") == "constraint" && ToLower("UNIQUE") == "unique"
  {
  }

  /** A piece of text that gives no column: blank, or a constraint word first. */
  predicate Harmless(piece: Text) {
    var words := Fields(TrimSpace(piece));
    words == [] || Reserved(SanitizeName(words[0]))
  }

  /** The server takes a column for a column and a constraint for a constraint,
      and behind the commas inside the definition it finds nothing. */
  predicate Survives(d: Definition) {
    && (d.Constraint? <==> Reserved(d.head.name))
    && forall k :: 1 <= k < |Split(d.rest, ',')| ==> Harmless(Split(d.rest, ',')[k])
  }

  lemma {:induction false} TrimTail(word: Text, tail: Text) returns (t: Text)
    requires OneWord(word)
    ensures |t| <= |tail| && t == tail[..|t|] && TrimRight(word + tail, SPACES) == word + t
    decreases |tail|
  {
    var s := word + tail;
    t := tail;
    if tail == [] {
      assert s == word;
    } else if tail[|tail| - 1] in SPACES {
      assert s[..|s| - 1] == word + tail[..|tail| - 1];
      t := TrimTail(word, tail[..|tail| - 1]);
    } else {
      assert s[|s| - 1] == tail[|tail| - 1];
    }
  }

  lemma {:induction false} WordEnds(word: Text, tail: Text)
    requires forall i :: 0 <= i < |word| ==> word[i] !in SPACES
    requires Tail(tail)
    ensures WordLength(word + tail) == |word|
  {
    if word == [] {
      assert word + tail == tail;
    } else {
      assert (word + tail)[1..] == word[1..] + tail;
      WordEnds(word[1..], tail);
    }
  }

  lemma FirstWord(left: Text, word: Text, tail: Text)
    requires AllBlank(left, SPACES) && OneWord(word) && Tail(tail)
    ensures var fs := Fields(TrimSpace(left + word + tail)); fs != [] && fs[0] == word
  {
    hide Fields, TrimRight;
    var s := word + tail;
    assert left + word + tail == left + s;
    TrimLeftCut(left, s, SPACES);
    assert s[0] == word[0];
    assert TrimLeft(s, SPACES) == s;
    var t := TrimTail(word, tail);
    assert TrimSpace(left + word + tail) == word + t;
    assert t != [] ==> t[0] == tail[0];
    WordEnds(word, t);
    FieldsBegin(word, t);
  }

  lemma FieldsBegin(word: Text, t: Text)
    requires OneWord(word) && WordLength(word + t) == |word|
    ensures Fields(word + t) != [] && Fields(word + t)[0] == word
  {
    var s := word + t;
    assert s[0] == word[0];
    assert TrimLeft(s, SPACES) == s;
    assert s[..|word|] == word;
  }

  /** Only the first piece of a text grows by what is put before it. */
  lemma SplitBehind(h: Text, rest: Text, c: byte)
    requires c !in h
    ensures Split(h + rest, c) == [h + Split(rest, c)[0]] + Split(rest, c)[1..]
  {
    hide Find;
    var i := Find(rest, c);
    FindPast(h, c, rest);
    if i < |rest| {
      assert (h + rest)[..|h| + i] == h + rest[..i];
      assert (h + rest)[|h| + i + 1..] == rest[i + 1..];
    }
  }

  lemma {:induction false} SplitConcat(a: Text, c: byte, b: Text)
    ensures Split(a + [c] + b, c) == Split(a, c) + Split(b, c)
    decreases |a|
  {
    hide Split;
    var i := Find(a, c);
    FindFirst(a, c);
    if i == |a| {
      assert a[..i] == a;
      SplitWhole(a, c);
      SplitOnce(a, c, b);
    } else {
      var rest := a[i + 1..];
      assert a == a[..i] + [c] + rest;
      assert a + [c] + b == a[..i] + [c] + (rest + [c] + b);
      SplitOnce(a[..i], c, rest);
      SplitOnce(a[..i], c, rest + [c] + b);
      SplitConcat(rest, c, b);
    }
  }

  lemma {:induction false} ColumnsAppend(xs: seq<Text>, ys: seq<Text>)
    ensures DefinedColumns(xs + ys) == DefinedColumns(xs) + DefinedColumns(ys)
  {
    hide Fields, TrimSpace, SanitizeName, IsConstraintWord, Reserved;
    ReservedWords();
    if xs == [] {
      assert xs + ys == ys;
    } else {
      assert (xs + ys)[1..] == xs[1..] + ys;
      ColumnsAppend(xs[1..], ys);
    }
  }

  lemma {:induction false} HarmlessGivesNothing(pieces: seq<Text>)
    ensures DefinedColumns(pieces) == [] <==> forall k :: 0 <= k < |pieces| ==> Harmless(pieces[k])
  {
    hide Fields, TrimSpace, SanitizeName, IsConstraintWord, Reserved;
    ReservedWords();
    if pieces != [] {
      HarmlessGivesNothing(pieces[1..]);
      assert forall k :: 1 <= k < |pieces| ==> pieces[k] == pieces[1..][k - 1];
    }
  }

  /** What one definition gives: its own column, unless a constraint word stands
      there, and a column for every piece behind a comma that is not harmless. */
  function Own(d: Definition): seq<Text> {
    if Reserved(d.head.name) then [] else [ToLower(d.head.name)]
  }

  function Behind(d: Definition): seq<Text> {
    DefinedColumns(Split(d.rest, ',')[1..])
  }

  lemma DefinitionRead(d: Definition)
    requires Definable(d)
    ensures DefinedColumns(Split(PrintDefinition(d), ',')) == Own(d) + Behind(d)
  {
    hide Split, Fields, TrimSpace, SanitizeName, IsConstraintWord, Reserved, ToLower;
    ReservedWords();
    NameHasNoComma(d.head);
    SplitBehind(PrintName(d.head), d.rest, ',');
    var pieces := Split(d.rest, ',');
    FirstPiece(d.rest, ',');
    assert PrintName(d.head) == d.head.left + d.head.Word();
    FirstWord(d.head.left, d.head.Word(), pieces[0]);
    var bare := d.head.(left := []);
    assert PrintName(bare) == d.head.Word();
    NameSpellings(bare);
    ConstraintWordLower(d.head.name);
    var ps := [PrintName(d.head) + pieces[0]] + pieces[1..];
    assert ps[1..] == pieces[1..];
  }

  lemma NameHasNoComma(n: Name)
    requires n.Valid() && ',' !in n.Word()
    ensures ',' !in PrintName(n)
  {
    BlanksAvoid(n.left, SPACES, ',');
    BlanksAvoid(n.right, SPACES, ',');
  }

  lemma FirstPiece(rest: Text, c: byte)
    requires Tail(rest)
    ensures Tail(Split(rest, c)[0])
  {
  }

  lemma ConstraintWordLower(name: Text)
    ensures Reserved(ToLower(name)) <==> Reserved(name)
  {
    LowerIdempotent(name);
  }

  /** The columns of all definitions, piece by piece. */
  function Read(ds: seq<Definition>): seq<Text> {
    if ds == [] then [] else Own(ds[0]) + Behind(ds[0]) + Read(ds[1..])
  }

  lemma {:induction false} DefinitionsRead(ds: seq<Definition>)
    requires ds != [] && forall i :: 0 <= i < |ds| ==> Definable(ds[i])
    ensures DefinedColumns(Split(Join(PrintDefinitions(ds), ','), ',')) == Read(ds)
  {
    hide Split, DefinedColumns, Definable, PrintDefinition, Own, Behind;
    DefinitionRead(ds[0]);
    if |ds| > 1 {
      assert PrintDefinitions(ds)[1..] == PrintDefinitions(ds[1..]);
      DefinitionsRead(ds[1..]);
      SplitConcat(PrintDefinition(ds[0]), ',', Join(PrintDefinitions(ds[1..]), ','));
      ColumnsAppend(Split(PrintDefinition(ds[0]), ','), Split(Join(PrintDefinitions(ds[1..]), ','), ','));
    }
  }

  /** No column read has the name of a constraint word. */
  lemma {:induction false} NoConstraintRead(pieces: seq<Text>)
    ensures forall k :: 0 <= k < |DefinedColumns(pieces)| ==> !Reserved(DefinedColumns(pieces)[k])
  {
    hide Fields, TrimSpace, SanitizeName, IsConstraintWord, Reserved;
    ReservedWords();
    if pieces != [] {
      NoConstraintRead(pieces[1..]);
    }
  }

  lemma {:induction false} NoConstraintInRead(ds: seq<Definition>)
    ensures forall k :: 0 <= k < |Read(ds)| ==> !Reserved(Read(ds)[k])
  {
    hide Reserved, DefinedColumns, Split, ToLower;
    if ds != [] {
      NoConstraintInRead(ds[1..]);
      NoConstraintRead(Split(ds[0].rest, ',')[1..]);
      ConstraintWordLower(ds[0].head.name);
    }
  }

  lemma {:induction false} MeantHasColumn(ds: seq<Definition>, i: nat)
    requires i < |ds| && ds[i].Column?
    ensures ToLower(ds[i].head.name) in ColumnNames(ds)
  {
    if i > 0 {
      MeantHasColumn(ds[1..], i - 1);
    }
  }

  /** With no column lost, as many columns are read as meant or more, and the same
      number only if they are the same. */
  lemma {:induction false} ReadIsMeant(ds: seq<Definition>)
    requires forall i :: 0 <= i < |ds| ==> ds[i].Column? ==> !Reserved(ds[i].head.name)
    ensures |Read(ds)| >= |ColumnNames(ds)|
    ensures |Read(ds)| == |ColumnNames(ds)| <==> forall i :: 0 <= i < |ds| ==> Survives(ds[i])
    ensures |Read(ds)| == |ColumnNames(ds)| ==> Read(ds) == ColumnNames(ds)
  {
    hide Reserved, DefinedColumns, Split, ToLower, Harmless;
    if ds != [] {
      ReadIsMeant(ds[1..]);
      SurvivesIff(ds[0]);
      assert forall i :: 1 <= i < |ds| ==> ds[i] == ds[1..][i - 1];
    }
  }

  lemma SurvivesIff(d: Definition)
    ensures Survives(d) <==> (d.Constraint? <==> Reserved(d.head.name)) && Behind(d) == []
  {
    hide Reserved, DefinedColumns, Split, Harmless;
    var pieces := Split(d.rest, ',');
    HarmlessGivesNothing(pieces[1..]);
    assert forall k :: 1 <= k < |pieces| ==> pieces[k] == pieces[1..][k - 1];
    assert forall k :: 0 <= k < |pieces| - 1 ==> pieces[1..][k] == pieces[k + 1];
  }

  /** CREATE TABLE from its text makes an empty table with the columns meant, in
      order, in the place of whatever had the name, exactly when no column has the
      name of a constraint word, every constraint starts with one, and every piece
      behind a comma inside a definition is blank or starts with one. */
  lemma CreateByTextIff(db: Database, table: Text, ds: seq<Definition>, params: Params)
    requires ds != [] && forall i :: 0 <= i < |ds| ==> Definable(ds[i])
    ensures Exec(db, CreateTable(table, Join(PrintDefinitions(ds), ',')), params) ==
            db[SanitizeName(table) := EmptyTable(ColumnNames(ds))]
            <==> forall i :: 0 <= i < |ds| ==> Survives(ds[i])
  {
    hide SanitizeName, DefinedColumns, ColumnNames, Join, Split, Survives, Read, Definable, Reserved;
    DefinitionsRead(ds);
    ColumnsMeantIff(ds);
    var after := Exec(db, CreateTable(table, Join(PrintDefinitions(ds), ',')), params);
    assert after[SanitizeName(table)] == EmptyTable(Read(ds));
  }

  lemma ColumnsMeantIff(ds: seq<Definition>)
    ensures Read(ds) == ColumnNames(ds) <==> forall i :: 0 <= i < |ds| ==> Survives(ds[i])
  {
    hide DefinedColumns, ColumnNames, Split, Read, Reserved, Harmless;
    if i :| 0 <= i < |ds| && ds[i].Column? && Reserved(ds[i].head.name) {
      MeantHasColumn(ds, i);
      ConstraintWordLower(ds[i].head.name);
      NoConstraintInRead(ds);
    } else {
      ReadIsMeant(ds);
    }
  }

  /** A comma inside a definition leaves a column named by the word behind it:
      `b)` for a key of a and b, `2)` for a numeric of width 10 and scale 2. */
  lemma CommaLeavesColumn(d: Definition, a: Text, gap: Text, w: Name, tail: Text)
    requires Definable(d) && d.rest == a + [','] + (PrintName(w) + tail) && ',' !in a
    requires Definable(Column(w, tail)) && ',' !in tail && !Reserved(w.name)
    ensures DefinedColumns(Split(PrintDefinition(d), ',')) == Own(d) + [ToLower(w.name)]
    ensures !Survives(d)
  {
    hide DefinedColumns, Split, Reserved, Harmless, PrintName, Survives;
    DefinitionRead(d);
    var e := Column(w, tail);
    DefinitionRead(e);
    SplitOnce(a, ',', PrintDefinition(e));
    SplitWhole(tail, ',');
    assert Split(d.rest, ',')[1..] == Split(PrintDefinition(e), ',');
    assert [tail][1..] == [];
    NoPieces();
    SurvivesIff(d);
  }

  lemma NoPieces()
    ensures DefinedColumns([]) == []
  {
  }
}
