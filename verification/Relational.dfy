/** The pure relational store the heap store refines: a map from table name to
    columns, types and rows, and what each statement does to it and answers. */
module Relational {
  import opened Text
  import opened Rules
  import opened Values

  datatype Table = Table(columns: seq<Text>, types: seq<int>, rows: seq<Row>)

  type Database = map<Text, Table>

  /** A statement as the recognising patterns cut it up; the texts inside the
      fields are still to be scanned. `Reset` is the administrative wipe. */
  datatype Statement =
    | CreateTable(table: Text, defs: Text)
    | DropTable(table: Text)
    | Truncate(table: Text)
    | Insert(table: Text, colList: Text, values: Text)
    | Select(cols: Text, table: Text, where: Text)
    | Update(table: Text, setExpr: Text, where: Text)
    | Delete(table: Text, where: Text)
    | Reset
  {
    /** The key of the table map the statement addresses. */
    function Target(): Text
      requires !Reset?
    {
      SanitizeName(table)
    }
  }

  // ---------- Columns ----------

  predicate IsConstraintWord(name: Text) {
    EqualFold(name, "PRIMARY") || EqualFold(name, "FOREIGN") || EqualFold(name, "CONSTRAINT") || EqualFold(name, "UNIQUE")
  }

  /** The column names of a CREATE TABLE body; table constraints are skipped. */
  function DefinedColumns(defs: seq<Text>): seq<Text> {
    if defs == [] then []
    else
      var words := Fields(TrimSpace(defs[0]));
      var rest := DefinedColumns(defs[1..]);
      if words == [] || IsConstraintWord(SanitizeName(words[0])) then rest
      else [SanitizeName(words[0])] + rest
  }

  function SanitizedNames(names: seq<Text>): (r: seq<Text>)
    ensures |r| == |names|
  {
    seq(|names|, i requires 0 <= i < |names| => SanitizeName(names[i]))
  }

  /** The columns of a table that an INSERT creates on the fly. */
  function ImpliedColumns(colList: Text, parsed: seq<Row>): seq<Text> {
    if colList != [] then SanitizedNames(Split(colList, ','))
    else if parsed == [] then []
    else seq(|parsed[0]|, i requires 0 <= i < |parsed[0]| => NumberedColumn(i + 1))
  }

  function NumberedColumn(n: nat): Text {
    "col_" + Itoa(n)
  }

  function EmptyTable(columns: seq<Text>): Table {
    Table(columns, TextTypes(|columns|), [])
  }

  // ---------- Rows ----------

  /** A row padded with NULL or cut to the table's width. */
  function FitRow(r: Row, width: nat): (row: Row)
    ensures |row| == width
    ensures forall i :: 0 <= i < width ==> row[i] == if i < |r| then r[i] else NULL
  {
    seq(width, i requires 0 <= i < width => if i < |r| then r[i] else NULL)
  }

  function FitRows(rows: seq<Row>, width: nat): (r: seq<Row>)
    ensures |r| == |rows| && forall i :: 0 <= i < |rows| ==> r[i] == FitRow(rows[i], width)
  {
    seq(|rows|, i requires 0 <= i < |rows| => FitRow(rows[i], width))
  }

  function Selected(where: Text, cols: seq<Text>, rows: seq<Row>, params: Params): seq<Row> {
    if rows == [] then []
    else
      var rest := Selected(where, cols, rows[1..], params);
      if EvaluateWhere(where, cols, rows[0], params) then [rows[0]] + rest else rest
  }

  function Rejected(where: Text, cols: seq<Text>, rows: seq<Row>, params: Params): seq<Row> {
    if rows == [] then []
    else
      var rest := Rejected(where, cols, rows[1..], params);
      if EvaluateWhere(where, cols, rows[0], params) then rest else [rows[0]] + rest
  }

  /** Whether a SET list assigns column i: it is the first column of its name. */
  predicate Assigns(cols: seq<Text>, m: map<Text, Text>, i: nat)
    requires i < |cols|
  {
    ToLower(cols[i]) in m && FindColIndex(cols, ToLower(cols[i])) == i
  }

  function AssignRow(cols: seq<Text>, row: Row, m: map<Text, Text>): (r: Row)
    ensures |r| == |row|
  {
    seq(|row|, i requires 0 <= i < |row| =>
      if i < |cols| && Assigns(cols, m, i) then m[ToLower(cols[i])] else row[i])
  }

  function UpdateRow(where: Text, cols: seq<Text>, row: Row, m: map<Text, Text>, params: Params): (r: Row)
    ensures |r| == |row|
  {
    if EvaluateWhere(where, cols, row, params) then AssignRow(cols, row, m) else row
  }

  function UpdateRows(where: Text, cols: seq<Text>, rows: seq<Row>, m: map<Text, Text>, params: Params): (r: seq<Row>)
    ensures |r| == |rows| && forall i :: 0 <= i < |rows| ==> r[i] == UpdateRow(where, cols, rows[i], m, params)
  {
    seq(|rows|, i requires 0 <= i < |rows| => UpdateRow(where, cols, rows[i], m, params))
  }

  // ---------- SELECT lists ----------

  predicate IsProjection(cols: Text) {
    cols != "*" && !Contains(cols, "count(") && !Contains(cols, "COUNT(")
  }

  predicate IsCount(cols: Text) {
    !IsProjection(cols) && (EqualFold(cols, "COUNT(*)") || EqualFold(cols, "COUNT(1)"))
  }

  function ColIndices(cols: seq<Text>, names: seq<Text>): (r: seq<int>)
    ensures |r| == |names|
  {
    seq(|names|, i requires 0 <= i < |names| => FindColIndex(cols, names[i]))
  }

  function ProjectRow(indices: seq<int>, row: Row): (r: Row)
    ensures |r| == |indices|
    ensures forall i :: 0 <= i < |indices| ==> r[i] == if 0 <= indices[i] < |row| then row[indices[i]] else NULL
  {
    seq(|indices|, i requires 0 <= i < |indices| => if 0 <= indices[i] < |row| then row[indices[i]] else NULL)
  }

  function ProjectRows(indices: seq<int>, rows: seq<Row>): (r: seq<Row>)
    ensures |r| == |rows| && forall i :: 0 <= i < |rows| ==> r[i] == ProjectRow(indices, rows[i])
  {
    seq(|rows|, i requires 0 <= i < |rows| => ProjectRow(indices, rows[i]))
  }

  // ---------- Answers ----------

  function Missing(name: Text): Rule {
    var message: Text := "relation \"" + name + "\" does not exist";
    Rule("stateful-table-missing", [], [], [], [], Some(MockError("42P01", message, "ERROR", [], [])), false, 0)
  }

  function CountTag(verb: Text, n: nat): Text {
    verb + Itoa(n)
  }

  function InsertTag(n: nat): Text {
    CountTag("INSERT 0 ", n)
  }

  function UpdateTag(n: nat): Text {
    CountTag("UPDATE ", n)
  }

  function DeleteTag(n: nat): Text {
    CountTag("DELETE ", n)
  }

  /** How many rows of the table a WHERE accepts. */
  function Matching(t: Table, where: Text, params: Params): nat {
    |Selected(where, t.columns, t.rows, params)|
  }

  function CountAnswer(matched: nat): Rule {
    Plain("stateful-select-count", ["count"], [INT8_OID], [[Itoa(matched)]], "SELECT 1")
  }

  function RowsAnswer(cols: seq<Text>, types: seq<int>, rows: seq<Row>): Rule {
    Plain("stateful-select", cols, types, rows, CountTag("SELECT ", |rows|))
  }

  function SelectFrom(cols: Text, where: Text, t: Table, params: Params): Rule {
    var matched := Selected(where, t.columns, t.rows, params);
    if IsProjection(cols) then
      var names := SanitizedNames(Split(cols, ','));
      RowsAnswer(names, TextTypes(|names|), ProjectRows(ColIndices(t.columns, names), matched))
    else if IsCount(cols) then CountAnswer(|matched|)
    else RowsAnswer(t.columns, t.types, matched)
  }

  const RETURNING: Text := " RETURNING "

  /** The VALUES part of an INSERT, and its RETURNING clause (empty when absent). */
  function SplitReturning(values: Text): (r: (Text, Text)) {
    var idx := IndexOf(ToUpper(values), RETURNING);
    if 0 <= idx <= |values| - 11 then (TrimSpace(values[..idx]), TrimSpace(values[idx + 11..]))
    else (values, [])
  }

  function InsertRows(values: Text, params: Params): seq<Row> {
    ValuesOf(SplitReturning(values).0, params)
  }

  function Inserted(n: nat): Rule {
    Plain("stateful-insert", [], [], [], InsertTag(n))
  }

  /** RETURNING hands back the rows as parsed, not as stored. */
  function InsertAnswer(values: Text, columns: seq<Text>, types: seq<int>, params: Params): Rule {
    var parsed := InsertRows(values, params);
    if SplitReturning(values).1 != [] then Inserted(|parsed|).(columns := columns, types := types, rows := parsed)
    else Inserted(|parsed|)
  }

  // ---------- Statements ----------

  /** What a statement does to the table map: `Attach` installs a new table
      object under a name, `Overwrite` writes the object already there. */
  datatype Effect =
    | Keep
    | Attach(table: Table)
    | Overwrite(table: Table)
    | Detach
    | DetachAll

  function InsertInto(t: Table, parsed: seq<Row>): Table {
    t.(rows := t.rows + FitRows(parsed, |t.columns|))
  }

  function UpdateTable(t: Table, setExpr: Text, where: Text, params: Params): Table {
    t.(rows := UpdateRows(where, t.columns, t.rows, AssignmentsOf(Split(setExpr, ','), params), params))
  }

  function DeleteFrom(t: Table, where: Text, params: Params): Table {
    t.(rows := Rejected(where, t.columns, t.rows, params))
  }

  function EffectOf(db: Database, s: Statement, params: Params): Effect {
    match s
    case CreateTable(_, defs) => Attach(EmptyTable(DefinedColumns(Split(defs, ','))))
    case DropTable(_) => Detach
    case Truncate(_) => if s.Target() in db then Overwrite(db[s.Target()].(rows := [])) else Keep
    case Insert(_, colList, values) =>
      var parsed := InsertRows(values, params);
      if s.Target() in db then Overwrite(InsertInto(db[s.Target()], parsed))
      else Attach(InsertInto(EmptyTable(ImpliedColumns(colList, parsed)), parsed))
    case Select(_, _, _) => Keep
    case Update(_, setExpr, where) =>
      if s.Target() in db then Overwrite(UpdateTable(db[s.Target()], setExpr, where, params)) else Keep
    case Delete(_, where) =>
      if s.Target() in db then Overwrite(DeleteFrom(db[s.Target()], where, params)) else Keep
    case Reset => DetachAll
  }

  function Exec(db: Database, s: Statement, params: Params): Database {
    match EffectOf(db, s, params)
    case Keep => db
    case Attach(t) => if s.Reset? then db else db[s.Target() := t]
    case Overwrite(t) => if s.Reset? then db else db[s.Target() := t]
    case Detach => if s.Reset? then db else db - {s.Target()}
    case DetachAll => map[]
  }

  function Done(id: Text, tag: Text): Rule {
    Plain(id, [], [], [], tag)
  }

  function Answer(db: Database, s: Statement, params: Params): Rule {
    match s
    case CreateTable(_, _) => Created()
    case DropTable(_) => Dropped()
    case Truncate(_) => Truncated()
    case Insert(_, colList, values) =>
      var parsed := InsertRows(values, params);
      var t := if s.Target() in db then db[s.Target()] else EmptyTable(ImpliedColumns(colList, parsed));
      InsertAnswer(values, t.columns, t.types, params)
    case Select(cols, _, where) =>
      if s.Target() in db then SelectFrom(cols, where, db[s.Target()], params) else Missing(s.Target())
    case Update(_, _, where) =>
      if s.Target() in db then Updated(Matching(db[s.Target()], where, params)) else Missing(s.Target())
    case Delete(_, where) =>
      if s.Target() in db then Deleted(Matching(db[s.Target()], where, params)) else Missing(s.Target())
    case Reset => Done([], [])
  }

  function Created(): Rule {
    Done("stateful-create-table", "CREATE TABLE")
  }

  function Dropped(): Rule {
    Done("stateful-drop-table", "DROP TABLE")
  }

  function Truncated(): Rule {
    Done("stateful-truncate-table", "TRUNCATE TABLE")
  }

  function Updated(count: nat): Rule {
    Done("stateful-update", UpdateTag(count))
  }

  function Deleted(count: nat): Rule {
    Done("stateful-delete", DeleteTag(count))
  }

  /** The store with a table of that name, made empty when there was none. */
  function Found(db: Database, name: Text, columns: seq<Text>): (r: Database)
    ensures name in r
  {
    if name in db then db else db[name := EmptyTable(columns)]
  }

  function Filled(db: Database, name: Text, columns: seq<Text>, parsed: seq<Row>): Database {
    var found := Found(db, name, columns);
    found[name := InsertInto(found[name], parsed)]
  }

  /** An INSERT fills the table it finds, or an empty one made for it. */
  lemma InsertFills(db: Database, s: Statement, params: Params)
    requires s.Insert?
    ensures var parsed := InsertRows(s.values, params);
            var columns := ImpliedColumns(s.colList, parsed);
            var t := Found(db, s.Target(), columns)[s.Target()];
            && Exec(db, s, params) == Filled(db, s.Target(), columns, parsed)
            && Answer(db, s, params) == InsertAnswer(s.values, t.columns, t.types, params)
  {
    hide InsertInto, InsertRows, ImpliedColumns, EmptyTable, InsertAnswer, SanitizeName;
  }

  lemma SelectChangesNothing(db: Database, s: Statement, params: Params)
    ensures s.Select? ==> Exec(db, s, params) == db
  {
  }

  lemma SelectAnswers(db: Database, s: Statement, params: Params)
    requires s.Select?
    ensures Answer(db, s, params) ==
            if s.Target() in db then SelectFrom(s.cols, s.where, db[s.Target()], params) else Missing(s.Target())
  {
  }

  datatype Call = Call(statement: Statement, params: Params)

  /** The store after a run of statements. */
  function Run(db: Database, calls: seq<Call>): Database {
    if calls == [] then db
    else Exec(Run(db, calls[..|calls| - 1]), calls[|calls| - 1].statement, calls[|calls| - 1].params)
  }

  lemma RunNothing(db: Database)
    ensures Run(db, []) == db
  {
  }

  lemma RunStep(db: Database, calls: seq<Call>, i: nat)
    requires i < |calls|
    ensures Run(db, calls[..i + 1]) == Exec(Run(db, calls[..i]), calls[i].statement, calls[i].params)
  {
    assert calls[..i + 1][..i] == calls[..i];
  }

  // ---------- SELECT only looks ----------

  /** The statements of a run that are not SELECTs. */
  function Writers(calls: seq<Call>): seq<Call> {
    if calls == [] then []
    else Writers(calls[..|calls| - 1]) + if calls[|calls| - 1].statement.Select? then [] else [calls[|calls| - 1]]
  }

  lemma RunSnoc(db: Database, calls: seq<Call>, c: Call)
    ensures Run(db, calls + [c]) == Exec(Run(db, calls), c.statement, c.params)
  {
    assert (calls + [c])[..|calls|] == calls;
  }

  /** Leaving every SELECT out of a run changes neither the store at its end
      nor what any statement after it answers. */
  lemma {:induction false} SelectsOnlyLook(db: Database, calls: seq<Call>)
    ensures Run(db, calls) == Run(db, Writers(calls))
    ensures forall s, params :: Answer(Run(db, calls), s, params) == Answer(Run(db, Writers(calls)), s, params)
  {
    hide Exec, Answer;
    if calls != [] {
      var n := |calls| - 1;
      SelectsOnlyLook(db, calls[..n]);
      if calls[n].statement.Select? {
        SelectChangesNothing(Run(db, calls[..n]), calls[n].statement, calls[n].params);
        assert Writers(calls[..n]) + [] == Writers(calls[..n]);
      } else {
        RunSnoc(db, Writers(calls[..n]), calls[n]);
      }
    }
  }

  // ---------- Every run keeps tables rectangular ----------

  ghost predicate Rectangular(t: Table) {
    && |t.types| == |t.columns|
    && (forall i :: 0 <= i < |t.types| ==> t.types[i] == TEXT_OID)
    && (forall i :: 0 <= i < |t.rows| ==> |t.rows[i]| == |t.columns|)
  }

  ghost predicate WellFormed(db: Database) {
    forall k :: k in db ==> Rectangular(db[k])
  }

  lemma {:induction false} RejectedLengths(where: Text, cols: seq<Text>, rows: seq<Row>, params: Params, n: nat)
    requires forall i :: 0 <= i < |rows| ==> |rows[i]| == n
    ensures forall i :: 0 <= i < |Rejected(where, cols, rows, params)| ==> |Rejected(where, cols, rows, params)[i]| == n
  {
    if rows != [] {
      RejectedLengths(where, cols, rows[1..], params, n);
    }
  }

  lemma ExecKeepsWellFormed(db: Database, s: Statement, params: Params)
    requires WellFormed(db)
    ensures WellFormed(Exec(db, s, params))
  {
    hide EvaluateWhere, InsertRows, AssignmentsOf, ImpliedColumns, DefinedColumns, SanitizeName;
    if s.Delete? && s.Target() in db {
      var t := db[s.Target()];
      RejectedLengths(s.where, t.columns, t.rows, params, |t.columns|);
    }
  }

  /** After any run every table has one text type per column and every row has
      one value per column. */
  lemma {:induction false} RunsStayWellFormed(db: Database, calls: seq<Call>)
    requires WellFormed(db)
    ensures WellFormed(Run(db, calls))
  {
    if calls != [] {
      var n := |calls| - 1;
      RunsStayWellFormed(db, calls[..n]);
      ExecKeepsWellFormed(Run(db, calls[..n]), calls[n].statement, calls[n].params);
    }
  }

  // ---------- One WHERE, three statements ----------

  /** The rows a DELETE removes and keeps are the table's rows, split without
      reordering. */
  lemma {:induction false} FilterSplits(where: Text, cols: seq<Text>, rows: seq<Row>, params: Params)
    ensures multiset(Selected(where, cols, rows, params)) + multiset(Rejected(where, cols, rows, params)) == multiset(rows)
    ensures |Selected(where, cols, rows, params)| + |Rejected(where, cols, rows, params)| == |rows|
  {
    if rows != [] {
      FilterSplits(where, cols, rows[1..], params);
      assert rows == [rows[0]] + rows[1..];
    }
  }

  /** Filtering two parts of a row list apart and together gives the same rows
      in the same order. */
  lemma {:induction false} FilterAppend(where: Text, cols: seq<Text>, a: seq<Row>, b: seq<Row>, params: Params)
    ensures Selected(where, cols, a + b, params) == Selected(where, cols, a, params) + Selected(where, cols, b, params)
    ensures Rejected(where, cols, a + b, params) == Rejected(where, cols, a, params) + Rejected(where, cols, b, params)
  {
    hide EvaluateWhere;
    if a == [] {
      assert a + b == b;
    } else {
      assert (a + b)[1..] == a[1..] + b;
      FilterAppend(where, cols, a[1..], b, params);
    }
  }

  lemma {:induction false} NothingSelectedTwice(where: Text, cols: seq<Text>, rows: seq<Row>, params: Params)
    ensures Selected(where, cols, Rejected(where, cols, rows, params), params) == []
    ensures Rejected(where, cols, Rejected(where, cols, rows, params), params) == Rejected(where, cols, rows, params)
  {
    hide EvaluateWhere;
    if rows != [] {
      NothingSelectedTwice(where, cols, rows[1..], params);
      var rest := Rejected(where, cols, rows[1..], params);
      assert ([rows[0]] + rest)[1..] == rest;
    }
  }

  const COUNT_ALL: Text := "COUNT(*)"

  lemma CountsRows()
    ensures IsCount(COUNT_ALL)
  {
    assert HasPrefix(COUNT_ALL, "COUNT(");
  }

  /** For one WHERE, COUNT(*), the UPDATE tag and the DELETE tag report the same
      number, which is how many rows the DELETE removes. */
  lemma OneWhereOneCount(db: Database, table: Text, where: Text, setExpr: Text, params: Params)
    returns (n: nat)
    requires SanitizeName(table) in db
    ensures Answer(db, Select(COUNT_ALL, table, where), params) == CountAnswer(n)
    ensures Answer(db, Update(table, setExpr, where), params).tag == UpdateTag(n)
    ensures Answer(db, Delete(table, where), params).tag == DeleteTag(n)
    ensures |Exec(db, Delete(table, where), params)[SanitizeName(table)].rows| + n == |db[SanitizeName(table)].rows|
  {
    hide EvaluateWhere, SanitizeName, Selected, Rejected, IsCount, UpdateTag, DeleteTag, CountAnswer, COUNT_ALL;
    var t := db[SanitizeName(table)];
    n := Matching(t, where, params);
    FilterSplits(where, t.columns, t.rows, params);
    CountsRows();
    IsCountIsNoProjection(COUNT_ALL);
  }

  lemma IsCountIsNoProjection(cols: Text)
    requires IsCount(cols)
    ensures !IsProjection(cols)
  {
  }

  /** After a DELETE the same WHERE selects nothing, and a second DELETE
      changes nothing. */
  lemma DeletedRowsAreGone(db: Database, table: Text, where: Text, params: Params)
    requires SanitizeName(table) in db
    ensures var after := Exec(db, Delete(table, where), params);
            && Answer(after, Select("*", table, where), params).rows == []
            && Answer(after, Delete(table, where), params).tag == DeleteTag(0)
            && Exec(after, Delete(table, where), params) == after
  {
    hide EvaluateWhere, SanitizeName, Selected, Rejected, UpdateTag, DeleteTag;
    var t := db[SanitizeName(table)];
    NothingSelectedTwice(where, t.columns, t.rows, params);
  }

  // ---------- Order of assignments ----------

  /** One in-place write per column name, in the order the names are listed. */
  function WriteInOrder(cols: seq<Text>, row: Row, names: seq<Text>, m: map<Text, Text>): (r: Row)
    requires forall i :: 0 <= i < |names| ==> names[i] in m
    ensures |r| == |row|
  {
    if names == [] then row
    else
      var last := names[|names| - 1];
      var before := WriteInOrder(cols, row, names[..|names| - 1], m);
      var idx := FindColIndex(cols, last);
      if 0 <= idx < |row| then before[idx := m[last]] else before
  }

  /** The cells already written after some of the names have been visited. */
  lemma {:induction false} WrittenSoFar(cols: seq<Text>, row: Row, names: seq<Text>, m: map<Text, Text>, i: nat)
    requires forall k :: k in m ==> ToLower(k) == k
    requires forall j :: 0 <= j < |names| ==> names[j] in m
    requires i < |row|
    ensures WriteInOrder(cols, row, names, m)[i] ==
            if i < |cols| && ToLower(cols[i]) in names && FindColIndex(cols, ToLower(cols[i])) == i
            then m[ToLower(cols[i])] else row[i]
  {
    if names != [] {
      var n := |names| - 1;
      var last := names[n];
      WrittenSoFar(cols, row, names[..n], m, i);
      assert names == names[..n] + [last];
      assert ToLower(last) == last;
    }
  }

  /** Every order of visiting the assignment map gives the same row. */
  lemma UpdateOrderIrrelevant(cols: seq<Text>, row: Row, names: seq<Text>, m: map<Text, Text>)
    requires forall k :: k in m ==> ToLower(k) == k
    requires forall k :: k in m <==> k in names
    ensures WriteInOrder(cols, row, names, m) == AssignRow(cols, row, m)
  {
    forall i | 0 <= i < |row|
      ensures WriteInOrder(cols, row, names, m)[i] == AssignRow(cols, row, m)[i]
    {
      WrittenSoFar(cols, row, names, m, i);
    }
  }
}
