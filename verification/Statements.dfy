/** What each statement for the store answers and leaves behind, told from its
    text alone: columns, types, rows, tag and error. */
module StatementTexts {
  import opened Text
  import opened Rules
  import opened Values
  import opened Relational
  import opened Clauses

  // ---------- Conditions ----------

  /** No WHERE, or an equality. */
  type Where = Option<(Name, Cell)>

  function WhereText(o: Where): Text {
    match o
    case None => []
    case Some((n, c)) => Equation(n, c)
  }

  predicate Writable(o: Where, params: Params) {
    o.Some? ==> Comparable(o.value.0, o.value.1, params)
  }

  /** The rows a condition chooses: all of them without one, or when no column has
      the name; otherwise those with the value in the first column of the name. */
  function Chosen(t: Table, o: Where, params: Params): seq<Row>
    requires Writable(o, params)
  {
    match o
    case None => t.rows
    case Some((n, c)) =>
      var i := FindColIndex(t.columns, ToLower(n.name));
      assert Comparable(n, c, params);
      if i < 0 then t.rows else WithValue(t.rows, i, Meant(c, params))
  }

  function Spared(t: Table, o: Where, params: Params): seq<Row>
    requires Writable(o, params)
  {
    match o
    case None => []
    case Some((n, c)) =>
      var i := FindColIndex(t.columns, ToLower(n.name));
      assert Comparable(n, c, params);
      if i < 0 then [] else WithoutValue(t.rows, i, Meant(c, params))
  }

  lemma {:induction false} UnknownColumnChoosesAll(cols: seq<Text>, rows: seq<Row>, n: Name, c: Cell, params: Params)
    requires Comparable(n, c, params) && FindColIndex(cols, ToLower(n.name)) < 0
    ensures Selected(Equation(n, c), cols, rows, params) == rows && Rejected(Equation(n, c), cols, rows, params) == []
  {
    hide EvaluateWhere, Equation, Meant, Comparable, EqualFold;
    if rows != [] {
      UnknownColumnChoosesAll(cols, rows[1..], n, c, params);
      WhereFilters(cols, rows[0], n, c, params);
      assert [rows[0]] + rows[1..] == rows;
    }
  }

  lemma ChosenRows(t: Table, o: Where, params: Params)
    requires Rectangular(t) && Writable(o, params)
    ensures Selected(WhereText(o), t.columns, t.rows, params) == Chosen(t, o, params)
    ensures Rejected(WhereText(o), t.columns, t.rows, params) == Spared(t, o, params)
  {
    hide Selected, Rejected, Equation, Comparable, Meant;
    match o
    case None => EveryRowWithoutEquality([], t.columns, t.rows, params);
    case Some((n, c)) =>
      if FindColIndex(t.columns, ToLower(n.name)) < 0 {
        UnknownColumnChoosesAll(t.columns, t.rows, n, c, params);
      } else {
        RowsByText(t.columns, t.rows, n, c, params);
      }
  }

  // ---------- Lists of names ----------

  function PrintNames(names: seq<Name>): (r: seq<Text>)
    ensures |r| == |names|
  {
    seq(|names|, i requires 0 <= i < |names| => PrintName(names[i]))
  }

  function ListText(names: seq<Name>): Text
    requires names != []
  {
    Join(PrintNames(names), ',')
  }

  predicate Listable(names: seq<Name>) {
    names != [] && forall i :: 0 <= i < |names| ==> names[i].Valid() && names[i].Avoids(',')
  }

  lemma NamesRead(names: seq<Name>)
    requires Listable(names)
    ensures var read := SanitizedNames(Split(ListText(names), ','));
            |read| == |names| && forall j :: 0 <= j < |names| ==> read[j] == ToLower(names[j].name)
  {
    hide PrintName, SanitizeName, Split, Join;
    forall i | 0 <= i < |names|
      ensures ',' !in PrintNames(names)[i] && SanitizeName(PrintNames(names)[i]) == ToLower(names[i].name)
    {
      NameAvoids(names[i], ',');
      NameSpellings(names[i]);
    }
    SplitJoin(PrintNames(names), ',');
  }

  // ---------- SELECT ----------

  /** An answer with rows of text under these columns, and nothing else. */
  ghost predicate TextRows(a: Rule, columns: seq<Text>, rows: seq<Row>) {
    && a.columns == columns && a.rows == rows
    && |a.types| == |columns| && (forall j :: 0 <= j < |columns| ==> a.types[j] == 25)
    && a.tag == "SELECT " + Itoa(|rows|)
    && !a.dropConnection && a.error.None? && a.id == "stateful-select"
  }

  lemma SelectAllByText(db: Database, table: Text, o: Where, params: Params)
    requires SanitizeName(table) in db && Rectangular(db[SanitizeName(table)]) && Writable(o, params)
    ensures var t := db[SanitizeName(table)];
            TextRows(Answer(db, Select("*", table, WhereText(o)), params), t.columns, Chosen(t, o, params))
  {
    hide SanitizeName, Selected, Chosen, WhereText, Writable, Itoa;
    ChosenRows(db[SanitizeName(table)], o, params);
  }

  /** A column list: exactly the chosen rows, in table order, each with the cell of
      the first column of every name, or NULL where no column has it. */
  lemma SelectColumnsByText(db: Database, table: Text, names: seq<Name>, o: Where, params: Params)
    requires SanitizeName(table) in db && Rectangular(db[SanitizeName(table)]) && Writable(o, params)
    requires Listable(names) && ListText(names) != "*"
    requires !Contains(ListText(names), "count(") && !Contains(ListText(names), "COUNT(")
    ensures var t, a := db[SanitizeName(table)], Answer(db, Select(ListText(names), table, WhereText(o)), params);
            var kept := Chosen(t, o, params);
            && TextRows(a, a.columns, a.rows)
            && |a.columns| == |names| && (forall j :: 0 <= j < |names| ==> a.columns[j] == ToLower(names[j].name))
            && |a.rows| == |kept| && (forall r :: 0 <= r < |kept| ==> |a.rows[r]| == |names| && |kept[r]| == |t.columns|)
            && forall r, j :: 0 <= r < |kept| && 0 <= j < |names| ==>
                 var k := FindColIndex(t.columns, ToLower(names[j].name));
                 a.rows[r][j] == if k < 0 then NULL else kept[r][k]
  {
    hide SanitizeName, Selected, Chosen, WhereText, Writable, Itoa, Listable, IndexOf, ListText, FindColIndex;
    var t := db[SanitizeName(table)];
    ChosenRows(t, o, params);
    NamesRead(names);
    SelectedLengths(WhereText(o), t.columns, t.rows, params);
  }

  lemma {:induction false} SelectedLengths(where: Text, cols: seq<Text>, rows: seq<Row>, params: Params)
    requires forall i :: 0 <= i < |rows| ==> |rows[i]| == |cols|
    ensures forall i :: 0 <= i < |Selected(where, cols, rows, params)| ==> |Selected(where, cols, rows, params)[i]| == |cols|
  {
    hide EvaluateWhere;
    if rows != [] {
      SelectedLengths(where, cols, rows[1..], params);
    }
  }

  /** The four spellings of a count answer with one number. */
  lemma CountByText(db: Database, table: Text, cols: Text, o: Where, params: Params)
    requires SanitizeName(table) in db && Rectangular(db[SanitizeName(table)]) && Writable(o, params)
    requires cols in {"count(*)", "COUNT(*)", "count(1)", "COUNT(1)"}
    ensures var a := Answer(db, Select(cols, table, WhereText(o)), params);
            && a.columns == ["count"] && a.types == [20] && a.tag == "SELECT 1"
            && a.rows == [[Itoa(|Chosen(db[SanitizeName(table)], o, params)|)]]
            && !a.dropConnection && a.error.None? && a.id == "stateful-select-count"
  {
    hide SanitizeName, Selected, Chosen, WhereText, Writable, Itoa, IsCount, IsProjection;
    ChosenRows(db[SanitizeName(table)], o, params);
    CountSpelled(cols);
    IsCountIsNoProjection(cols);
  }

  lemma CountSpelled(cols: Text)
    requires cols in {"count(*)", "COUNT(*)", "count(1)", "COUNT(1)"}
    ensures IsCount(cols)
  {
    hide ToLower;
    if cols in {"count(*)", "count(1)"} {
      assert HasPrefix(cols, "count(");
    } else {
      assert HasPrefix(cols, "COUNT(");
    }
    CountFolds();
  }

  lemma CountFolds()
    ensures EqualFold("count(*)", "COUNT(*)") && EqualFold("count(1)", "COUNT(1)")
  {
    assert ToLower("COUNT(*)") == "count(*)" == ToLower("count(*)");
    assert ToLower("COUNT(1)") == "count(1)" == ToLower("count(1)");
  }

  /** Any other text with `count(` or `COUNT(` in it is taken for the star:
      `SELECT count(id)` returns the rows themselves. */
  lemma OtherCountsSelectAll(db: Database, table: Text, cols: Text, where: Text, params: Params)
    requires Contains(cols, "count(") || Contains(cols, "COUNT(")
    requires !EqualFold(cols, "COUNT(*)") && !EqualFold(cols, "COUNT(1)")
    ensures Answer(db, Select(cols, table, where), params) == Answer(db, Select("*", table, where), params)
  {
    hide SanitizeName, Selected, ToLower, IndexOf;
    StarIsNoCount();
  }

  const MIXED_COUNT: Text := "Count(*)"
  const LOWER_COUNT: Text := "count(*)"

  /** And a count in mixed case is taken for a column of that name. */
  lemma MixedCaseCountIsColumn(db: Database, table: Text, o: Where, params: Params)
    requires SanitizeName(table) in db && Rectangular(db[SanitizeName(table)]) && Writable(o, params)
    requires FindColIndex(db[SanitizeName(table)].columns, LOWER_COUNT) < 0
    ensures var a := Answer(db, Select(MIXED_COUNT, table, WhereText(o)), params);
            && a.columns == [LOWER_COUNT] && |a.rows| == |Chosen(db[SanitizeName(table)], o, params)|
            && forall r :: 0 <= r < |a.rows| ==> a.rows[r] == [NULL]
  {
    hide SanitizeName, Chosen, WhereText, Writable, Answer, FindColIndex, IndexOf, PlainName, MIXED_COUNT, LOWER_COUNT;
    hide ToLower;
    PlainListed(MIXED_COUNT);
    MixedCaseText();
    NotInside(MIXED_COUNT, "count(", 'c');
    NotInside(MIXED_COUNT, "COUNT(", 'U');
    SelectColumnsByText(db, table, [Name([], [], None, MIXED_COUNT, [], [])], o, params);
  }

  lemma PlainListed(w: Text)
    ensures ListText([Name([], [], None, w, [], [])]) == w
  {
    var name := Name([], [], None, w, [], []);
    assert PrintName(name) == w;
    assert PrintNames([name]) == [w];
  }

  lemma MixedCaseText()
    ensures PlainName(MIXED_COUNT) && ',' !in MIXED_COUNT && 'c' !in MIXED_COUNT && 'U' !in MIXED_COUNT
    ensures ToLower(MIXED_COUNT) == LOWER_COUNT && MIXED_COUNT != "*"
  {
  }

  lemma {:induction false} NotInside(s: Text, p: Text, d: byte)
    requires d in p && d !in s
    ensures !Contains(s, p)
  {
    assert |p| <= |s| ==> forall i :: 0 <= i < |p| ==> s[..|p|][i] in s;
    if s != [] {
      NotInside(s[1..], p, d);
    }
  }

  lemma StarIsNoCount()
    ensures !EqualFold("*", "COUNT(*)") && !EqualFold("*", "COUNT(1)")
  {
    assert |ToLower("*")| == 1 && |ToLower("COUNT(*)")| == 8 && |ToLower("COUNT(1)")| == 8;
  }

  // ---------- A table that is not there ----------

  /** SELECT, UPDATE and DELETE of a missing table answer with its error. */
  lemma MissingByText(db: Database, s: Statement, params: Params)
    requires (s.Select? || s.Update? || s.Delete?) && SanitizeName(s.table) !in db
    ensures var a := Answer(db, s, params);
            && a.error == Some(MockError("42P01", "relation \"" + SanitizeName(s.table) + "\" does not exist", "ERROR", [], []))
            && a.columns == [] && a.rows == [] && a.failAfterN == 0 && !a.dropConnection
            && a.id == "stateful-table-missing"
    ensures Exec(db, s, params) == db
  {
    hide SanitizeName;
  }

  // ---------- DELETE and UPDATE ----------

  /** An answer that is a tag and nothing else. */
  ghost predicate TagOnly(a: Rule, id: Text, tag: Text) {
    && a.tag == tag && a.id == id && a.columns == [] && a.rows == []
    && !a.dropConnection && a.error.None?
  }

  ghost predicate SaysDeleted(n: nat, a: Rule) {
    TagOnly(a, "stateful-delete", "DELETE " + Itoa(n))
  }

  ghost predicate SaysUpdated(n: nat, a: Rule) {
    TagOnly(a, "stateful-update", "UPDATE " + Itoa(n))
  }

  ghost predicate SaysInserted(n: nat, a: Rule) {
    TagOnly(a, "stateful-insert", "INSERT 0 " + Itoa(n))
  }

  lemma DeleteByText(db: Database, table: Text, o: Where, params: Params)
    requires SanitizeName(table) in db && Rectangular(db[SanitizeName(table)]) && Writable(o, params)
    ensures var t := db[SanitizeName(table)];
            var gone, left := |Chosen(t, o, params)|, t.(rows := Spared(t, o, params));
            var s := Relational.Delete(table, WhereText(o));
            && SaysDeleted(gone, Answer(db, s, params))
            && Exec(db, s, params) == db[SanitizeName(table) := left]
  {
    hide SanitizeName, Selected, Rejected, Chosen, Spared, WhereText, Writable, Itoa;
    ChosenRows(db[SanitizeName(table)], o, params);
  }

  /** UPDATE says how many rows it chose, whatever its SET list. */
  lemma UpdateTagByText(db: Database, table: Text, setExpr: Text, o: Where, params: Params)
    requires SanitizeName(table) in db && Rectangular(db[SanitizeName(table)]) && Writable(o, params)
    ensures var changed := |Chosen(db[SanitizeName(table)], o, params)|;
            var s := Relational.Update(table, setExpr, WhereText(o));
            SaysUpdated(changed, Answer(db, s, params))
  {
    hide SanitizeName, Selected, Chosen, WhereText, Writable, Itoa;
    ChosenRows(db[SanitizeName(table)], o, params);
  }

  // ---------- TRUNCATE, DROP TABLE, CREATE TABLE ----------

  /** TRUNCATE leaves the table without rows, and nothing else changes; a missing
      table stays missing. */
  lemma TruncateByText(db: Database, table: Text, o: Where, params: Params)
    requires Writable(o, params)
    ensures var s := Truncate(table);
            var after := Exec(db, s, params);
            && TagOnly(Answer(db, s, params), "stateful-truncate-table", "TRUNCATE TABLE")
            && after.Keys == db.Keys
            && (forall k :: k in db && k != SanitizeName(table) ==> after[k] == db[k])
            && (SanitizeName(table) in db ==>
                 && after[SanitizeName(table)].rows == []
                 && after[SanitizeName(table)].columns == db[SanitizeName(table)].columns
                 && after[SanitizeName(table)].types == db[SanitizeName(table)].types)
  {
    hide SanitizeName;
  }

  /** After DROP TABLE the name has no table, every other name has the one it had,
      and a SELECT of it is an error. */
  lemma DropByText(db: Database, table: Text, again: Text, cols: Text, where: Text, params: Params)
    requires SanitizeName(again) == SanitizeName(table)
    ensures var s := DropTable(table);
            var after := Exec(db, s, params);
            && TagOnly(Answer(db, s, params), "stateful-drop-table", "DROP TABLE")
            && SanitizeName(table) !in after
            && (forall k :: k in after <==> k in db && k != SanitizeName(table))
            && (forall k :: k in after ==> after[k] == db[k])
            && Answer(after, Select(cols, again, where), params).error.Some?
  {
    hide SanitizeName;
  }

  lemma CreateTagByText(db: Database, table: Text, defs: Text, params: Params)
    ensures TagOnly(Answer(db, CreateTable(table, defs), params), "stateful-create-table", "CREATE TABLE")
  {
  }

  // ---------- INSERT ----------

  /** The value a client means in place j of a row, NULL where the row is short. */
  function MeantAt(row: seq<Cell>, j: nat, params: Params): Text
    requires forall i :: 0 <= i < |row| ==> row[i].Placeholder? ==> 1 <= row[i].k <= |params|
  {
    if j < |row| then Meant(row[j], params) else NULL
  }

  ghost predicate Holds(t: Table, rows: seq<seq<Cell>>, params: Params) {
    && |t.rows| == |rows|
    && (forall r :: 0 <= r < |rows| ==> |t.rows[r]| == |t.columns| && ReadableRow(rows[r], params))
    && (forall r, j :: 0 <= r < |rows| && 0 <= j < |t.columns| ==> t.rows[r][j] == MeantAt(rows[r], j, params))
  }

  /** Rows a client can put in an INSERT. */
  ghost predicate Insertable(rows: seq<seq<Cell>>, gap: Text, params: Params) {
    ReadableRows(rows, params) && IsGap(gap) && FitsSigned(|params|, 64) && !Returns(PrintRows(rows, gap))
  }

  lemma FittedHolds(columns: seq<Text>, types: seq<int>, rows: seq<seq<Cell>>, params: Params)
    requires ReadableRows(rows, params)
    ensures Holds(Table(columns, types, FitRows(CellValues(rows, params), |columns|)), rows, params)
  {
    hide Meant;
    forall r | 0 <= r < |rows|
      ensures ReadableRow(rows[r], params)
    {
    }
  }

  lemma InsertedText(rows: seq<seq<Cell>>, gap: Text, params: Params)
    requires Insertable(rows, gap, params)
    ensures ReadableRows(rows, params) && !Returns(PrintRows(rows, gap))
    ensures InsertRows(PrintRows(rows, gap), params) == CellValues(rows, params)
    ensures SplitReturning(PrintRows(rows, gap)) == (PrintRows(rows, gap), [])
  {
    hide PrintRows, ValuesOf, SplitReturning, ReadableRows;
    NothingCut(PrintRows(rows, gap));
    PrintedRowsReadBack(rows, gap, params);
  }

  /** The columns are these names in lower case, in order, and hold text. */
  ghost predicate Named(t: Table, names: seq<Name>) {
    && |t.columns| == |names| && (forall j :: 0 <= j < |names| ==> t.columns[j] == ToLower(names[j].name))
    && |t.types| == |names| && (forall j :: 0 <= j < |names| ==> t.types[j] == 25)
  }

  /** INSERT into a table that is not there makes it: with a column list the table
      has exactly those names in lower case, in order; its rows are the values
      meant, padded with NULL or cut to that width. */
  lemma InsertCreatesByText(db: Database, table: Text, names: seq<Name>, rows: seq<seq<Cell>>, gap: Text, params: Params)
    requires SanitizeName(table) !in db && Listable(names) && ListText(names) != []
    requires Insertable(rows, gap, params)
    ensures var s := Insert(table, ListText(names), PrintRows(rows, gap));
            && SaysInserted(|rows|, Answer(db, s, params))
            && var after := Exec(db, s, params);
               && SanitizeName(table) in after && after == db[SanitizeName(table) := after[SanitizeName(table)]]
               && Named(after[SanitizeName(table)], names)
               && Holds(after[SanitizeName(table)], rows, params)
  {
    hide SanitizeName, InsertRows, PrintRows, ListText, Listable, ReadableRows, Returns, SplitReturning, Itoa, Holds, FitRows;
    hide Exec, Answer, Insertable, CellValues, Split, SanitizedNames, SaysInserted;
    NamesRead(names);
    InsertedText(rows, gap, params);
    var columns := SanitizedNames(Split(ListText(names), ','));
    FittedHolds(columns, TextTypes(|columns|), rows, params);
    Creates(db, table, ListText(names), PrintRows(rows, gap), params);
  }

  lemma Creates(db: Database, table: Text, colList: Text, values: Text, params: Params)
    requires SanitizeName(table) !in db && SplitReturning(values).1 == []
    ensures var parsed := InsertRows(values, params);
            var columns := ImpliedColumns(colList, parsed);
            var s := Insert(table, colList, values);
            && SaysInserted(|parsed|, Answer(db, s, params))
            && Exec(db, s, params) ==
                 db[SanitizeName(table) := Table(columns, TextTypes(|columns|), FitRows(parsed, |columns|))]
  {
    hide SanitizeName, InsertRows, ImpliedColumns, SplitReturning, Itoa, FitRows;
    var parsed := InsertRows(values, params);
    var columns := ImpliedColumns(colList, parsed);
    assert [] + FitRows(parsed, |columns|) == FitRows(parsed, |columns|);
  }

  /** Without a column list the columns are numbered as far as the first row goes. */
  lemma InsertNumbersColumns(db: Database, table: Text, rows: seq<seq<Cell>>, gap: Text, params: Params)
    requires SanitizeName(table) !in db
    requires Insertable(rows, gap, params)
    ensures var after := Exec(db, Insert(table, [], PrintRows(rows, gap)), params);
            && SanitizeName(table) in after && after == db[SanitizeName(table) := after[SanitizeName(table)]]
            && var t := after[SanitizeName(table)];
               && |t.types| == |t.columns| && (forall j :: 0 <= j < |t.types| ==> t.types[j] == 25)
               && |t.columns| == (if rows == [] then 0 else |rows[0]|)
               && (forall j :: 0 <= j < |t.columns| ==> t.columns[j] == "col_" + Itoa(j + 1))
               && Holds(t, rows, params)
  {
    hide SanitizeName, InsertRows, PrintRows, Returns, SplitReturning, Itoa, Holds, FitRows;
    hide Exec, Answer, Insertable, CellValues, TagOnly, ImpliedColumns, ReadableRows;
    InsertedText(rows, gap, params);
    var columns := ImpliedColumns([], CellValues(rows, params));
    FirstRowWidth(rows, params);
    FittedHolds(columns, TextTypes(|columns|), rows, params);
    Creates(db, table, [], PrintRows(rows, gap), params);
  }

  lemma FirstRowWidth(rows: seq<seq<Cell>>, params: Params)
    requires ReadableRows(rows, params)
    ensures var columns := ImpliedColumns([], CellValues(rows, params));
            && |columns| == (if rows == [] then 0 else |rows[0]|)
            && forall j :: 0 <= j < |columns| ==> columns[j] == "col_" + Itoa(j + 1)
  {
    hide Itoa;
  }

  // ---------- RETURNING ----------

  /** Behind printed rows the first place for the word is where the clause is. */
  lemma {:induction false} FoundBehind(p: Text, word: Text, rest: Text)
    requires word != [] && !Contains(p, word)
    requires p != [] ==> p[|p| - 1] !in word
    ensures IndexOf(p + word + rest, word) == |p|
  {
    var s := p + word + rest;
    if p == [] {
      assert s[..|word|] == word;
    } else {
      assert s[1..] == p[1..] + word + rest;
      assert |word| <= |p| ==> s[..|word|] == p[..|word|];
      assert |p| <= |word| ==> s[..|word|][|p| - 1] == p[|p| - 1];
      FoundBehind(p[1..], word, rest);
    }
  }

  /** The word, in any letter case, and something behind it. */
  predicate IsClause(word: Text, clause: Text) {
    ToUpper(word) == " RETURNING " && TrimSpace(clause) != []
  }

  lemma ClauseFound(values: Text, word: Text, clause: Text)
    requires values != [] && values[|values| - 1] == ')' && !Returns(values)
    requires IsClause(word, clause)
    ensures SplitReturning(values + word + clause) == (TrimSpace(values), TrimSpace(clause))
    ensures TrimSpace(clause) != []
  {
    hide IndexOf, Trim, TrimSpace;
    var s := values + word + clause;
    assert ToUpper(s) == ToUpper(values) + RETURNING + ToUpper(clause);
    assert ToUpper(values)[|values| - 1] == ')' && ')' !in RETURNING;
    FoundBehind(ToUpper(values), RETURNING, ToUpper(clause));
    assert |word| == |RETURNING| == 11;
    assert s[..|values|] == values && s[|values| + 11..] == clause;
  }

  /** INSERT ... RETURNING, in any letter case: the rows are stored as without it,
      and the answer has the table's columns and the rows as they were written. */
  lemma ReturningByText(db: Database, table: Text, colList: Text, rows: seq<seq<Cell>>, gap: Text,
                        word: Text, clause: Text, params: Params)
    requires SanitizeName(table) in db && rows != []
    requires Insertable(rows, gap, params)
    requires IsClause(word, clause)
    ensures var plain := Insert(table, colList, PrintRows(rows, gap));
            var s := Insert(table, colList, PrintRows(rows, gap) + word + clause);
            var t, a := db[SanitizeName(table)], Answer(db, s, params);
            && Exec(db, s, params) == Exec(db, plain, params)
            && a.columns == t.columns && a.types == t.types && a.rows == CellValues(rows, params)
            && SaysInserted(|rows|, Answer(db, plain, params))
            && a.tag == Answer(db, plain, params).tag && !a.dropConnection && a.error.None?
  {
    hide SanitizeName, InsertRows, PrintRows, ReadableRows, Returns, SplitReturning, Itoa, CellValues, Exec, Answer;
    hide TrimSpace, SaysInserted, Insertable, IsClause;
    PrintedShape(rows, gap, params);
    InsertedText(rows, gap, params);
    ClauseFound(PrintRows(rows, gap), word, clause);
    ReturningAnswers(db, table, colList, PrintRows(rows, gap), PrintRows(rows, gap) + word + clause, params);
  }

  /** With a clause the table is left as without it, and its rows are the answer. */
  lemma ReturningAnswers(db: Database, table: Text, colList: Text, plain: Text, whole: Text, params: Params)
    requires SanitizeName(table) in db
    requires SplitReturning(plain).1 == [] && SplitReturning(whole).1 != []
    requires SplitReturning(plain).0 == SplitReturning(whole).0
    ensures var p, s := Insert(table, colList, plain), Insert(table, colList, whole);
            var t, rows, a := db[SanitizeName(table)], InsertRows(plain, params), Answer(db, s, params);
            && Exec(db, s, params) == Exec(db, p, params)
            && a.columns == t.columns && a.types == t.types && a.rows == rows
            && SaysInserted(|rows|, Answer(db, p, params))
            && a.tag == Answer(db, p, params).tag && !a.dropConnection && a.error.None?
  {
    hide SanitizeName, InsertRows, SplitReturning, Itoa, Exec, Answer, TagOnly;
    SameTuples(plain, whole, params);
    SameTuplesSameEffect(db, table, colList, plain, whole, params);
    InsertAnswers(db, table, colList, plain, params);
    InsertAnswers(db, table, colList, whole, params);
  }

  lemma InsertAnswers(db: Database, table: Text, colList: Text, values: Text, params: Params)
    requires SanitizeName(table) in db
    ensures var t, parsed, a := db[SanitizeName(table)], InsertRows(values, params),
                                Answer(db, Insert(table, colList, values), params);
            && a.tag == "INSERT 0 " + Itoa(|parsed|) && !a.dropConnection && a.error.None?
            && (SplitReturning(values).1 == [] ==> TagOnly(a, "stateful-insert", a.tag))
            && (SplitReturning(values).1 != [] ==> a.columns == t.columns && a.types == t.types && a.rows == parsed)
  {
    hide SanitizeName, InsertRows, SplitReturning, Itoa;
  }

  lemma SameTuples(a: Text, b: Text, params: Params)
    requires SplitReturning(a).0 == SplitReturning(b).0
    ensures InsertRows(a, params) == InsertRows(b, params)
  {
  }

  lemma SameTuplesSameEffect(db: Database, table: Text, colList: Text, a: Text, b: Text, params: Params)
    requires InsertRows(a, params) == InsertRows(b, params)
    ensures Exec(db, Insert(table, colList, a), params) == Exec(db, Insert(table, colList, b), params)
  {
    hide InsertRows, SanitizeName, ImpliedColumns;
  }

  lemma PrintedShape(rows: seq<seq<Cell>>, gap: Text, params: Params)
    requires rows != []
    ensures var s := PrintRows(rows, gap);
            s != [] && s[|s| - 1] == ')' && s[0] == '(' && TrimSpace(s) == s
  {
    hide PrintTuples, PrintTuple;
    var contents := seq(|rows|, i requires 0 <= i < |rows| => PrintTuple(rows[i]));
    PrintedEnd(contents, gap);
    PrintedStart(contents, gap);
    TrimKeepsTrimmed(PrintTuples(contents, gap), SPACES);
  }

  lemma PrintedStart(contents: seq<Text>, gap: Text)
    requires contents != []
    ensures PrintTuples(contents, gap) != [] && PrintTuples(contents, gap)[0] == '('
  {
  }
}
