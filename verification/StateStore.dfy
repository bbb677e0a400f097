/** The store as the server keeps it: a map of table objects whose row slices
    are written in place. Every operation is one critical section, except
    SELECT, which takes the lock once to look the table up and once to read it. */
module StateStores {
  import opened Text
  import opened Rules
  import opened Values
  import opened Relational

  /** The texts a list of row slices holds now. */
  ghost function Contents(rows: seq<array<Text>>): (r: seq<Row>)
    reads rows
    ensures |r| == |rows| && forall i :: 0 <= i < |rows| ==> r[i] == rows[i][..]
  {
    if rows == [] then [] else [rows[0][..]] + Contents(rows[1..])
  }

  twostate lemma SameContents(rows: seq<array<Text>>)
    requires forall x :: x in rows ==> x[..] == old(x[..])
    ensures Contents(rows) == old(Contents(rows))
  {
    hide Contents;
    var now, before := Contents(rows), old(Contents(rows));
    assert forall i :: 0 <= i < |rows| ==> now[i] == rows[i][..] && before[i] == old(rows[i][..]);
  }

  lemma ContentsAppend(a: seq<array<Text>>, b: seq<array<Text>>)
    ensures Contents(a + b) == Contents(a) + Contents(b)
  {
  }

  /** What looking at one more row adds to either side of a filter. */
  lemma FilterOne(where: Text, cols: seq<Text>, rows: seq<Row>, i: nat, params: Params)
    requires i < |rows|
    ensures Selected(where, cols, rows[..i + 1], params) ==
            Selected(where, cols, rows[..i], params) + if EvaluateWhere(where, cols, rows[i], params) then [rows[i]] else []
    ensures Rejected(where, cols, rows[..i + 1], params) ==
            Rejected(where, cols, rows[..i], params) + if EvaluateWhere(where, cols, rows[i], params) then [] else [rows[i]]
  {
    hide EvaluateWhere;
    FilterAppend(where, cols, rows[..i], [rows[i]], params);
    assert rows[..i + 1] == rows[..i] + [rows[i]];
  }

  lemma FilterNone(where: Text, cols: seq<Text>, params: Params)
    ensures Selected(where, cols, [], params) == [] && Rejected(where, cols, [], params) == []
  {
  }

  /** An answer without rows, or one whose rows are slices, possibly those the
      store itself holds. */
  datatype LiveRule =
    | Fixed(head: Rule)
    | Live(head: Rule, rows: seq<array<Text>>)
  {
    ghost function Slices(): seq<array<Text>> {
      if Fixed? then [] else rows
    }

    ghost function Reading(): Rule
      reads Slices()
    {
      if Fixed? then head else head.(rows := Contents(rows))
    }
  }

  method NewRow(values: Row) returns (row: array<Text>)
    ensures fresh(row) && row[..] == values
  {
    row := new Text[|values|](i requires 0 <= i < |values| => values[i]);
  }

  method NewRows(values: seq<Row>) returns (rows: seq<array<Text>>)
    ensures Contents(rows) == values
    ensures forall i :: 0 <= i < |rows| ==> fresh(rows[i])
    ensures forall i, j :: 0 <= i < j < |rows| ==> rows[i] != rows[j]
  {
    rows := [];
    for n := 0 to |values|
      invariant |rows| == n && forall i :: 0 <= i < n ==> rows[i][..] == values[i]
      invariant forall i :: 0 <= i < n ==> fresh(rows[i])
      invariant forall i, j :: 0 <= i < j < n ==> rows[i] != rows[j]
    {
      var row := NewRow(values[n]);
      rows := rows + [row];
    }
  }

  method ReadRows(rows: seq<array<Text>>) returns (texts: seq<Row>)
    ensures texts == Contents(rows)
  {
    texts := [];
    for i := 0 to |rows|
      invariant |texts| == i && forall j :: 0 <= j < i ==> texts[j] == rows[j][..]
    {
      texts := texts + [rows[i][..]];
    }
  }

  lemma UpdateRewrites(db: Database, s: Statement, params: Params)
    requires s.Update? && s.Target() in db
    ensures var t, after := db[s.Target()], Exec(db, s, params);
            && s.Target() in after
            && after[s.Target()].rows == UpdateRows(s.where, t.columns, t.rows, AssignmentsOf(Split(s.setExpr, ','), params), params)
  {
    hide SanitizeName, AssignmentsOf, UpdateRow;
  }

  lemma SentIff(rows: seq<Row>, k: nat, where: Text, cols: seq<Text>, m: map<Text, Text>, params: Params)
    requires k <= |rows|
    ensures rows[..k] + UpdateRows(where, cols, rows[k..], m, params) == rows <==>
            forall i :: k <= i < |rows| ==> UpdateRow(where, cols, rows[i], m, params) == rows[i]
  {
    hide UpdateRow;
    var later := UpdateRows(where, cols, rows[k..], m, params);
    var sent := rows[..k] + later;
    assert forall i :: k <= i < |rows| ==> sent[i] == later[i - k] == UpdateRow(where, cols, rows[i], m, params);
  }

  /** Writes the assigned columns of one row. The loop takes the names in an
      arbitrary order, as ranging over a Go map does. */
  method AssignInPlace(row: array<Text>, cols: seq<Text>, m: map<Text, Text>)
    requires forall k :: k in m ==> ToLower(k) == k
    modifies row
    ensures row[..] == AssignRow(cols, old(row[..]), m)
  {
    var left := m.Keys;
    while left != {}
      invariant left <= m.Keys
      invariant forall i :: 0 <= i < row.Length ==>
        row[i] == if i < |cols| && Assigns(cols, m, i) && ToLower(cols[i]) !in left then m[ToLower(cols[i])] else old(row[i])
      decreases left
    {
      var col :| col in left;
      var idx := FindColIndex(cols, col);
      if 0 <= idx < row.Length {
        row[idx] := m[col];
      }
      left := left - {col};
    }
  }

  class InMemTable {
    const name: Text
    const columns: seq<Text>
    const types: seq<int>
    var rows: seq<array<Text>>

    constructor (name: Text, columns: seq<Text>)
      ensures this.name == name && rows == [] && Valid() && Value() == EmptyTable(columns)
    {
      this.name := name;
      this.columns := columns;
      this.types := TextTypes(|columns|);
      this.rows := [];
    }

    /** Rectangular, one text type per column, and no two rows share memory. */
    ghost predicate Valid()
      reads this
    {
      && types == TextTypes(|columns|)
      && (forall i :: 0 <= i < |rows| ==> rows[i].Length == |columns|)
      && (forall i, j :: 0 <= i < j < |rows| ==> rows[i] != rows[j])
    }

    ghost function RowSet(): set<array<Text>>
      reads this
    {
      set r | r in rows
    }

    ghost function Value(): Table
      reads this, rows
    {
      Table(columns, types, Contents(rows))
    }

    method Append(parsed: seq<Row>)
      requires Valid()
      modifies this
      ensures Valid() && Value() == InsertInto(old(Value()), parsed)
      ensures forall r :: r in rows ==> r in old(rows) || fresh(r)
    {
      hide Contents;
      var fitted := FitRows(parsed, |columns|);
      ghost var before := Contents(rows);
      var added := NewRows(fitted);
      forall i | 0 <= i < |added|
        ensures added[i].Length == |columns|
      {
        assert added[i][..] == fitted[i];
      }
      ghost var stored := rows;
      rows := rows + added;
      assert forall i :: 0 <= i < |rows| ==> rows[i] == if i < |stored| then stored[i] else added[i - |stored|];
      assert Contents(rows) == before + fitted;
      assert forall i :: 0 <= i < |rows| ==> rows[i].Length == |columns|;
      assert forall i, j :: 0 <= i < j < |rows| ==> rows[i] != rows[j];
    }

    method UpdateWhere(setExpr: Text, where: Text, params: Params) returns (count: nat)
      requires Valid()
      modifies RowSet()
      ensures Valid() && rows == old(rows) && Value() == UpdateTable(old(Value()), setExpr, where, params)
      ensures count == Matching(old(Value()), where, params)
    {
      hide EvaluateWhere, AssignRow, Selected, AssignmentsOf;
      var m := ParseSetAssignments(setExpr, params);
      ghost var before := Contents(rows);
      FilterNone(where, columns, params);
      count := 0;
      for i := 0 to |rows|
        invariant Valid() && rows == old(rows)
        invariant forall j :: 0 <= j < i ==> rows[j][..] == UpdateRow(where, columns, before[j], m, params)
        invariant forall j :: i <= j < |rows| ==> rows[j][..] == before[j]
        invariant count == |Selected(where, columns, before[..i], params)|
      {
        FilterOne(where, columns, before, i, params);
        if EvaluateWhere(where, columns, rows[i][..], params) {
          AssignInPlace(rows[i], columns, m);
          count := count + 1;
        }
      }
      assert before[..|rows|] == before;
    }

    method DeleteWhere(where: Text, params: Params) returns (count: nat)
      requires Valid()
      modifies this
      ensures Valid() && Value() == DeleteFrom(old(Value()), where, params)
      ensures count == Matching(old(Value()), where, params)
      ensures forall r :: r in rows ==> r in old(rows)
    {
      hide EvaluateWhere, Selected, Rejected, Contents;
      var stored, kept: seq<array<Text>> := rows, [];
      ghost var before := Contents(stored);
      FilterNone(where, columns, params);
      count := 0;
      for i := 0 to |stored|
        invariant rows == stored && Contents(stored) == before
        invariant Contents(kept) == Rejected(where, columns, before[..i], params)
        invariant count == |Selected(where, columns, before[..i], params)|
        invariant forall j :: 0 <= j < |kept| ==> kept[j] in stored[..i] && kept[j].Length == |columns|
        invariant forall j, k :: 0 <= j < k < |kept| ==> kept[j] != kept[k]
      {
        FilterOne(where, columns, before, i, params);
        ContentsAppend(kept, [stored[i]]);
        if EvaluateWhere(where, columns, stored[i][..], params) {
          count := count + 1;
        } else {
          kept := kept + [stored[i]];
        }
      }
      assert before[..|stored|] == before;
      rows := kept;
    }

    /** The second critical section of SELECT. `SELECT *` hands back the stored
        slices themselves; a projection or a count hands back new ones. */
    method Scan(cols: Text, where: Text, params: Params) returns (r: LiveRule)
      requires Valid()
      ensures r.Reading() == SelectFrom(cols, where, Value(), params)
      ensures !IsProjection(cols) && !IsCount(cols) ==> r.Live? && forall x :: x in r.rows ==> x in rows
      ensures IsProjection(cols) || IsCount(cols) ==> r.Live? && forall x :: x in r.rows ==> fresh(x)
    {
      hide EvaluateWhere, IsProjection, IsCount, Selected, Contents, Itoa, CountTag, ColIndices, SanitizedNames;
      var matched: seq<array<Text>> := [];
      ghost var all := Contents(rows);
      FilterNone(where, columns, params);
      for i := 0 to |rows|
        invariant Contents(matched) == Selected(where, columns, all[..i], params)
        invariant forall x :: x in matched ==> x in rows
      {
        FilterOne(where, columns, all, i, params);
        ContentsAppend(matched, [rows[i]]);
        if EvaluateWhere(where, columns, rows[i][..], params) {
          matched := matched + [rows[i]];
        }
      }
      assert all[..|rows|] == all;
      if IsProjection(cols) {
        var names := SanitizedNames(Split(cols, ','));
        var projected := Project(ColIndices(columns, names), matched);
        r := Live(RowsAnswer(names, TextTypes(|names|), []).(tag := CountTag("SELECT ", |projected|)), projected);
      } else if IsCount(cols) {
        var one := NewRow([Itoa(|matched|)]);
        r := Live(CountAnswer(|matched|).(rows := []), [one]);
      } else {
        r := Live(RowsAnswer(columns, types, []).(tag := CountTag("SELECT ", |matched|)), matched);
      }
    }

    method Project(indices: seq<int>, matched: seq<array<Text>>) returns (projected: seq<array<Text>>)
      ensures Contents(projected) == ProjectRows(indices, Contents(matched))
      ensures forall x :: x in projected ==> fresh(x)
    {
      hide Contents, ProjectRow;
      projected := [];
      ghost var all := Contents(matched);
      for i := 0 to |matched|
        invariant |projected| == i && Contents(matched) == all
        invariant forall j :: 0 <= j < i ==> fresh(projected[j])
        invariant forall j :: 0 <= j < i ==> projected[j][..] == ProjectRow(indices, all[j])
      {
        var row := NewRow(ProjectRow(indices, matched[i][..]));
        projected := projected + [row];
      }
    }
  }

  class StateStore {
    var tables: map<Text, InMemTable>
    /** The one table each row slice was made for, kept after the table is gone. */
    ghost var owner: map<array<Text>, InMemTable>

    /** A table sits under its own name and its rows are its own. */
    ghost predicate Home(name: Text, t: InMemTable)
      reads this, t
    {
      && t.name == name && t.Valid()
      && (forall r :: r in t.rows ==> r in owner && owner[r] == t)
    }

    ghost predicate Valid()
      reads this, tables.Values
    {
      forall k :: k in tables ==> Home(k, tables[k])
    }

    /** The relational store this heap stands for. */
    ghost function Db(): Database
      requires Valid()
      reads this, tables.Values, owner.Keys
    {
      map k | k in tables :: tables[k].Value()
    }

    /** A table nobody wrote, with rows nobody wrote, still means the same,
        whether or not it is still in the store. */
    twostate lemma SameTable(name: Text)
      requires old(Valid()) && name in old(tables) && old(tables)[name].rows == old(tables[name].rows)
      requires forall r :: r in old(owner) ==> r in owner && owner[r] == old(owner)[r]
      requires forall r :: r in old(owner) && owner[r] == old(tables[name]) ==> r[..] == old(r[..])
      ensures Home(name, old(tables)[name]) && old(tables)[name].Value() == old(Db())[name]
    {
      hide Contents;
      var t := old(tables)[name];
      assert old(Home(name, t));
      var before := old(Contents(t.rows));
      forall i | 0 <= i < |t.rows|
        ensures t.rows[i][..] == before[i]
      {
        assert t.rows[i] in old(t.rows);
      }
      assert Contents(t.rows) == before;
    }

    lemma DbIs(db: Database)
      requires Valid() && db.Keys == tables.Keys
      requires forall k :: k in tables ==> tables[k].Value() == db[k]
      ensures Db() == db
    {
    }

    /** Writing one table object or rows it owns, or putting a new object under
        a name, changes the relational store at that name only. */
    twostate lemma OneNameChanged(name: Text)
      requires old(Valid()) && name in tables && tables == old(tables)[name := tables[name]]
      requires forall r :: r in old(owner) ==> r in owner && owner[r] == old(owner)[r]
      requires forall k :: k in old(tables) && k != name ==> old(tables)[k].rows == old(tables[k].rows)
      requires forall r :: r in old(owner) && owner[r] != tables[name] ==> r[..] == old(r[..])
      requires Home(name, tables[name])
      ensures Valid() && Db() == old(Db())[name := tables[name].Value()]
    {
      hide Contents;
      var db := old(Db())[name := tables[name].Value()];
      forall k | k in tables
        ensures Home(k, tables[k]) && tables[k].Value() == db[k]
      {
        if k != name {
          SameTable(k);
        }
      }
      DbIs(db);
    }

    constructor ()
      ensures Valid() && Db() == map[]
    {
      tables := map[];
      owner := map[];
    }

    method Create(name: Text, columns: seq<Text>)
      requires Valid()
      modifies this
      ensures Valid() && Db() == old(Db())[name := EmptyTable(columns)]
      ensures name in tables && fresh(tables[name]) && tables == old(tables)[name := tables[name]]
      ensures owner == old(owner)
    {
      hide Contents, InsertInto, UpdateTable, DeleteFrom, EmptyTable, Selected;
      var tbl := new InMemTable(name, columns);
      tables := tables[name := tbl];
      OneNameChanged(name);
    }

    method Drop(name: Text)
      requires Valid()
      modifies this
      ensures Valid() && Db() == old(Db()) - {name}
      ensures tables == old(tables) - {name} && owner == old(owner)
    {
      tables := tables - {name};
    }

    method Reset()
      requires Valid()
      modifies this
      ensures Valid() && Db() == map[]
      ensures tables == map[] && owner == old(owner)
    {
      tables := map[];
    }

    method InsertRows(name: Text, parsed: seq<Row>)
      requires Valid() && name in tables
      modifies this`owner, tables[name]
      ensures Valid() && tables == old(tables)
      ensures Db() == old(Db())[name := InsertInto(old(Db())[name], parsed)]
      ensures forall r :: r in old(owner) ==> r in owner && owner[r] == old(owner)[r]
      ensures forall r :: r in owner ==> r in old(owner) || fresh(r)
    {
      hide Contents, InsertInto, UpdateTable, DeleteFrom, EmptyTable, Selected;
      var tbl := tables[name];
      tbl.Append(parsed);
      owner := owner + map r | r in tbl.rows && r !in owner :: tbl;
      OneNameChanged(name);
    }

    method Update(name: Text, setExpr: Text, where: Text, params: Params) returns (count: nat)
      requires Valid() && name in tables
      modifies tables[name].RowSet()
      ensures Valid() && tables == old(tables) && owner == old(owner)
      ensures Db() == old(Db())[name := UpdateTable(old(Db())[name], setExpr, where, params)]
      ensures count == Matching(old(Db())[name], where, params)
    {
      hide Contents, InsertInto, UpdateTable, DeleteFrom, EmptyTable, Selected;
      assert Home(name, tables[name]);
      count := tables[name].UpdateWhere(setExpr, where, params);
      OneNameChanged(name);
    }

    method Delete(name: Text, where: Text, params: Params) returns (count: nat)
      requires Valid() && name in tables
      modifies tables[name]
      ensures Valid() && tables == old(tables) && owner == old(owner)
      ensures Db() == old(Db())[name := DeleteFrom(old(Db())[name], where, params)]
      ensures count == Matching(old(Db())[name], where, params)
    {
      hide Contents, InsertInto, UpdateTable, DeleteFrom, EmptyTable, Selected;
      assert Home(name, tables[name]);
      count := tables[name].DeleteWhere(where, params);
      OneNameChanged(name);
    }

    method Clear(name: Text)
      requires Valid() && name in tables
      modifies tables[name]
      ensures Valid() && tables == old(tables) && owner == old(owner)
      ensures Db() == old(Db())[name := old(Db())[name].(rows := [])]
    {
      hide Contents, InsertInto, UpdateTable, DeleteFrom, EmptyTable, Selected;
      tables[name].rows := [];
      OneNameChanged(name);
    }

    /** A statement may write the table it names, and an UPDATE that table's rows. */
    ghost function TouchedTable(s: Statement): set<InMemTable>
      reads this
    {
      if !s.Reset? && s.Target() in tables then {tables[s.Target()]} else {}
    }

    ghost function TouchedRows(s: Statement): set<array<Text>>
      reads this, tables.Values
    {
      if s.Update? && s.Target() in tables then tables[s.Target()].RowSet() else {}
    }

    /** Whether a table object is the one the store has under that name now. */
    ghost predicate Attached(name: Text, tbl: InMemTable)
      reads this
    {
      name in tables && tables[name] == tbl
    }

    /** A row slice keeps its owner; new ones are brand new. */
    twostate predicate OwnersKept()
      reads this
    {
      && (forall r :: r in old(owner) ==> r in owner && owner[r] == old(owner)[r])
      && (forall r :: r in owner ==> r in old(owner) || fresh(r))
    }

    /** No name loses its table object; objects under new names are brand new. */
    twostate predicate TablesKept()
      reads this
    {
      && (forall k :: k in old(tables) ==> Attached(k, old(tables)[k]))
      && (forall k :: k in tables && k !in old(tables) ==> fresh(tables[k]))
    }

    /** A name keeps its table object unless a brand-new object takes its place,
        and a table taken out of the store is not written on the way out. */
    twostate predicate ObjectsKept()
      reads *
    {
      && OwnersKept()
      && (forall k :: k in tables ==> fresh(tables[k]) || (k in old(tables) && tables[k] == old(tables)[k]))
      && (forall k :: k in old(tables) && !Attached(k, old(tables)[k]) ==> LeftAlone(old(tables)[k]))
    }

    twostate predicate LeftAlone(t: InMemTable)
      reads *
    {
      t.rows == old(t.rows) && forall r :: r in old(t.rows) ==> r[..] == old(r[..])
    }

    /** An UPDATE leaves every table the row objects it has. */
    twostate predicate SameSlices(s: Statement)
      reads *
    {
      s.Update? && s.Target() in old(tables) ==>
        tables == old(tables) && tables[s.Target()].rows == old(tables[s.Target()].rows)
    }

    /** The table of that name, made on the spot when there is none. */
    method TableFor(name: Text, columns: seq<Text>) returns (tbl: InMemTable)
      requires Valid()
      modifies this
      ensures Valid() && Attached(name, tbl) && owner == old(owner) && TablesKept()
      ensures Db() == Found(old(Db()), name, columns)
    {
      hide Contents, EmptyTable;
      if name !in tables {
        Create(name, columns);
      }
      tbl := tables[name];
    }

    /** The critical section of INSERT. */
    method Store(name: Text, columns: seq<Text>, parsed: seq<Row>) returns (tbl: InMemTable)
      requires Valid()
      modifies this, if name in tables then {tables[name]} else {}
      ensures Valid() && OwnersKept() && TablesKept()
      ensures Db() == Filled(old(Db()), name, columns, parsed)
      ensures var t := Found(old(Db()), name, columns)[name]; tbl.columns == t.columns && tbl.types == t.types
    {
      hide Contents, InsertInto, Found;
      tbl := TableFor(name, columns);
      assert Db()[name].columns == tbl.columns && Db()[name].types == tbl.types;
      InsertRows(name, parsed);
    }

    method InsertReply(values: Text, parsed: seq<Row>, tbl: InMemTable, params: Params) returns (r: LiveRule)
      requires parsed == Relational.InsertRows(values, params)
      ensures r.Reading() == InsertAnswer(values, tbl.columns, tbl.types, params)
    {
      hide SplitReturning, ValuesOf, Inserted, Contents;
      if SplitReturning(values).1 == [] {
        r := Fixed(Inserted(|parsed|));
      } else {
        var rows := NewRows(parsed);
        r := Live(Inserted(|parsed|).(columns := tbl.columns, types := tbl.types), rows);
      }
    }

    method Insert(s: Statement, params: Params) returns (r: LiveRule)
      requires Valid() && s.Insert?
      modifies this, TouchedTable(s), TouchedRows(s)
      ensures Valid() && Db() == Exec(old(Db()), s, params) && OwnersKept() && TablesKept()
      ensures r.Reading() == Answer(old(Db()), s, params)
    {
      hide Contents, Exec, Answer, Found, Filled, SplitReturning, ValuesOf, ImpliedColumns, SanitizeName, InsertAnswer;
      hide StateStore.Valid, StateStore.Db;
      var parsed := ParseValuesTuples(SplitReturning(s.values).0, params);
      InsertFills(Db(), s, params);
      var tbl := Store(s.Target(), ImpliedColumns(s.colList, parsed), parsed);
      r := InsertReply(s.values, parsed, tbl, params);
    }

    method Modify(s: Statement, params: Params) returns (r: LiveRule)
      requires Valid() && (s.Truncate? || s.Update? || s.Delete?)
      modifies this, TouchedTable(s), TouchedRows(s)
      ensures Valid() && Db() == Exec(old(Db()), s, params) && OwnersKept() && TablesKept() && SameSlices(s)
      ensures r.Reading() == Answer(old(Db()), s, params)
    {
      hide Contents, UpdateTable, DeleteFrom, Matching, Updated, Deleted, Truncated, Missing, SanitizeName;
      hide StateStore.Valid, StateStore.Home, InsertInto, EmptyTable, ImpliedColumns, InsertAnswer, SelectFrom;
      hide DefinedColumns;
      var name := s.Target();
      if s.Truncate? {
        if name in tables {
          Clear(name);
        }
        r := Fixed(Truncated());
      } else if name !in tables {
        r := Fixed(Missing(name));
      } else if s.Update? {
        var count := Update(name, s.setExpr, s.where, params);
        r := Fixed(Updated(count));
      } else {
        var count := Delete(name, s.where, params);
        r := Fixed(Deleted(count));
      }
    }

    method Define(s: Statement, params: Params) returns (r: LiveRule)
      requires Valid() && s.CreateTable?
      modifies this
      ensures Valid() && Db() == Exec(old(Db()), s, params) && ObjectsKept()
      ensures r.Reading() == Answer(old(Db()), s, params)
    {
      hide Contents, DefinedColumns, EmptyTable, Created, SanitizeName;
      Create(s.Target(), DefinedColumns(Split(s.defs, ',')));
      r := Fixed(Created());
    }

    method Remove(s: Statement, params: Params) returns (r: LiveRule)
      requires Valid() && (s.DropTable? || s.Reset?)
      modifies this
      ensures Valid() && Db() == Exec(old(Db()), s, params) && ObjectsKept()
      ensures r.Reading() == Answer(old(Db()), s, params)
    {
      hide Contents, Dropped, SanitizeName;
      if s.Reset? {
        Reset();
        r := Fixed(Done([], []));
      } else {
        Drop(s.Target());
        r := Fixed(Dropped());
      }
    }

    /** The first critical section of SELECT. */
    method Lookup(name: Text) returns (tbl: InMemTable?)
      requires Valid()
      ensures tbl == if name in tables then tables[name] else null
    {
      tbl := if name in tables then tables[name] else null;
    }

    method SelectNow(s: Statement, params: Params) returns (r: LiveRule)
      requires Valid() && s.Select?
      ensures r.Reading() == Answer(Db(), s, params)
    {
      hide Contents, SelectFrom, Missing, SanitizeName, IsProjection, IsCount;
      var tbl := Lookup(s.Target());
      if tbl == null {
        r := Fixed(Missing(s.Target()));
      } else {
        assert Home(s.Target(), tbl);
        r := tbl.Scan(s.cols, s.where, params);
      }
    }

    /** The store reaches nothing it did not reach before, except new objects. */
    twostate predicate OnlyGrows()
      reads this
    {
      && (forall t :: t in tables.Values ==> t in old(tables.Values) || fresh(t))
      && (forall x :: x in owner.Keys ==> x in old(owner.Keys) || fresh(x))
    }

    method MatchAndExecute(s: Statement, params: Params) returns (r: LiveRule)
      requires Valid()
      modifies this, TouchedTable(s), TouchedRows(s)
      ensures Valid() && Db() == Exec(old(Db()), s, params) && ObjectsKept() && OnlyGrows() && SameSlices(s)
      ensures r.Reading() == Answer(old(Db()), s, params)
    {
      hide Contents, Exec, Answer, SanitizeName;
      SelectChangesNothing(Db(), s, params);
      match s
      case Insert(_, _, _) =>
        r := Insert(s, params);
      case Truncate(_) =>
        r := Modify(s, params);
      case Update(_, _, _) =>
        r := Modify(s, params);
      case Delete(_, _) =>
        r := Modify(s, params);
      case Select(_, _, _) =>
        r := SelectNow(s, params);
      case CreateTable(_, _) =>
        r := Define(s, params);
      case _ =>
        r := Remove(s, params);
    }

    /** The same, for a caller that knows nothing of which table is touched. */
    method Answered(s: Statement, params: Params) returns (r: LiveRule)
      requires Valid()
      modifies this, tables.Values, owner.Keys
      ensures Valid() && Db() == Exec(old(Db()), s, params) && OnlyGrows()
      ensures r.Reading() == Answer(old(Db()), s, params)
    {
      hide Contents, Exec, Answer, SanitizeName, StateStore.ObjectsKept;
      assert forall x :: x in TouchedRows(s) ==> x in owner.Keys;
      r := MatchAndExecute(s, params);
    }

    lemma AttachedValue(name: Text, tbl: InMemTable)
      requires Valid() && Attached(name, tbl)
      ensures Home(name, tbl) && name in Db() && tbl.Value() == Db()[name]
    {
    }

    lemma TouchedAreOwned(s: Statement)
      requires Valid()
      ensures forall x :: x in TouchedRows(s) ==> x in owner
    {
    }

    /** One statement run after an answer was given and before its rows are sent:
        of the slices the answer holds only those change that an UPDATE finds in
        its table, and each as the UPDATE changes that row. */
    method RunBeforeSending(answer: LiveRule, call: Call)
      requires Valid()
      modifies this, TouchedTable(call.statement), TouchedRows(call.statement)
      ensures Valid() && Db() == Exec(old(Db()), call.statement, call.params)
      ensures forall x :: x in answer.Slices() && x !in old(TouchedRows(call.statement)) ==> x[..] == old(x[..])
      ensures forall x :: x in answer.Slices() && x in old(TouchedRows(call.statement)) ==>
                var t := old(Db())[call.statement.Target()];
                var m := AssignmentsOf(Split(call.statement.setExpr, ','), call.params);
                x[..] == UpdateRow(call.statement.where, t.columns, old(x[..]), m, call.params)
      ensures forall k :: k in tables ==> tables[k] in old(tables.Values) || fresh(tables[k])
      ensures forall x :: x in owner ==> x in old(owner) || fresh(x)
    {
      hide Answer, SanitizeName, AssignmentsOf, Contents, EvaluateWhere, Exec, UpdateRow;
      var s := call.statement;
      var r := MatchAndExecute(s, call.params);
      if s.Update? && s.Target() in old(tables) {
        var tbl := tables[s.Target()];
        UpdateRewrites(old(Db()), s, call.params);
        forall i | 0 <= i < |tbl.rows|
          ensures tbl.rows[i][..] == Db()[s.Target()].rows[i]
          ensures old(tbl.rows[i][..]) == old(Db())[s.Target()].rows[i]
        {
        }
      }
    }

    /** An UPDATE of the table rewrites every slice of it that somebody holds. */
    method UpdateHeld(name: Text, rows: seq<array<Text>>, update: Call)
      requires Valid() && name in tables && forall x :: x in rows ==> x in tables[name].rows
      requires update.statement.Update? && update.statement.Target() == name
      modifies this, TouchedTable(update.statement), TouchedRows(update.statement)
      ensures Valid() && Db() == Exec(old(Db()), update.statement, update.params)
      ensures var m := AssignmentsOf(Split(update.statement.setExpr, ','), update.params);
              forall i :: 0 <= i < |rows| ==>
                rows[i][..] == UpdateRow(update.statement.where, old(tables[name].columns), old(rows[i][..]), m, update.params)
    {
      hide SanitizeName, AssignmentsOf, Exec, Contents, UpdateRow, Split;
      assert Db()[name].columns == tables[name].columns;
      hide StateStore.Valid, StateStore.Db;
      RunBeforeSending(Live(Done([], []), rows), update);
    }

    /** The slices of a table sent one by one, with an UPDATE of the table before
        slice k. */
    method SendAround(name: Text, rows: seq<array<Text>>, k: nat, update: Call) returns (sent: seq<Row>)
      requires Valid() && name in tables && k <= |rows| && forall x :: x in rows ==> x in tables[name].rows
      requires update.statement.Update? && update.statement.Target() == name
      modifies this, TouchedTable(update.statement), TouchedRows(update.statement)
      ensures Valid() && Db() == Exec(old(Db()), update.statement, update.params)
      ensures var m := AssignmentsOf(Split(update.statement.setExpr, ','), update.params);
              sent == old(Contents(rows))[..k] +
                      UpdateRows(update.statement.where, old(tables[name].columns), old(Contents(rows))[k..], m, update.params)
    {
      hide SanitizeName, AssignmentsOf, Exec, Contents, UpdateRow, Split, StateStore.Valid, StateStore.Db;
      ghost var before := Contents(rows);
      ghost var m := AssignmentsOf(Split(update.statement.setExpr, ','), update.params);
      ghost var cols := tables[name].columns;
      var first := ReadRows(rows[..k]);
      assert first == before[..k];
      UpdateHeld(name, rows, update);
      var second := ReadRows(rows[k..]);
      assert second == UpdateRows(update.statement.where, cols, before[k..], m, update.params);
      sent := first + second;
    }

    /** SELECT * sent row by row, with an UPDATE of the table before row k: what
        is sent begins as the answer was and goes on as the UPDATE made it. It is
        the answer exactly when the UPDATE leaves every row still to be sent. */
    method SelectAndSend(s: Statement, params: Params, k: nat, update: Call) returns (sent: seq<Row>)
      requires Valid() && s.Select? && !IsProjection(s.cols) && !IsCount(s.cols) && s.Target() in Db()
      requires update.statement.Update? && update.statement.Target() == s.Target()
      requires k <= Matching(Db()[s.Target()], s.where, params)
      modifies this, TouchedTable(update.statement), TouchedRows(update.statement)
      ensures Valid() && Db() == Exec(old(Db()), update.statement, update.params)
      ensures var t := old(Db())[s.Target()];
              var m := AssignmentsOf(Split(update.statement.setExpr, ','), update.params);
              var rows := Selected(s.where, t.columns, t.rows, params);
              && old(Answer(Db(), s, params)).rows == rows
              && sent == rows[..k] + UpdateRows(update.statement.where, t.columns, rows[k..], m, update.params)
              && (sent == rows <==>
                  forall i :: k <= i < |rows| ==> UpdateRow(update.statement.where, t.columns, rows[i], m, update.params) == rows[i])
    {
      hide SanitizeName, AssignmentsOf, EvaluateWhere, Selected, Exec, Contents, AssignRow, CountTag, IsProjection;
      hide IsCount, UpdateRow, EffectOf;
      var u := update.statement;
      var tbl := tables[s.Target()];
      assert Home(s.Target(), tbl);
      ghost var t := Db()[s.Target()];
      ghost var rows := Selected(s.where, t.columns, t.rows, params);
      var r := tbl.Scan(s.cols, s.where, params);
      sent := SendAround(s.Target(), r.rows, k, update);
      SentIff(rows, k, u.where, t.columns, AssignmentsOf(Split(u.setExpr, ','), update.params), update.params);
    }

    /** An answer with slices of its own, and any answer if nobody updates, is
        sent as it was given, whatever statements run in between. */
    method RunAllBeforeSending(answer: LiveRule, others: seq<Call>)
      requires Valid()
      modifies this, tables.Values, owner.Keys
      ensures Valid() && Db() == Run(old(Db()), others)
      ensures (forall x :: x in answer.Slices() ==> x !in old(owner)) || (forall i :: 0 <= i < |others| ==> !others[i].statement.Update?)
              ==> answer.Reading() == old(answer.Reading())
    {
      hide Contents, Answer, Exec, Run, SanitizeName, AssignmentsOf, UpdateRow, Split, StateStore.Db;
      hide StateStore.Valid, StateStore.Home;
      ghost var db := Db();
      ghost var before := answer.Reading();
      ghost var safe := (forall x :: x in answer.Slices() ==> x !in owner) ||
                        (forall i :: 0 <= i < |others| ==> !others[i].statement.Update?);
      RunNothing(db);
      assert others[..0] == [];
      for i := 0 to |others|
        invariant Valid() && Db() == Run(db, others[..i])
        invariant forall k :: k in tables ==> tables[k] in old(tables.Values) || fresh(tables[k])
        invariant forall x :: x in owner ==> x in old(owner) || fresh(x)
        invariant safe ==> answer.Reading() == before
      {
        RunStep(db, others, i);
        label Before:
        TouchedAreOwned(others[i].statement);
        RunBeforeSending(answer, others[i]);
        if safe {
          forall x | x in answer.Slices()
            ensures x[..] == old@Before(x[..])
          {
          }
          SameContents@Before(answer.Slices());
        }
      }
      assert others[..|others|] == others;
    }

    /** One statement run while somebody holds on to a table object. An object
        that is out of the store stays out and is never written again. */
    method Interrupt(name: Text, tbl: InMemTable, call: Call)
      requires Valid() && Home(name, tbl)
      modifies this, TouchedTable(call.statement), TouchedRows(call.statement)
      ensures Valid() && Db() == Exec(old(Db()), call.statement, call.params)
      ensures forall k :: k in tables ==> tables[k] in old(tables.Values) || fresh(tables[k])
      ensures forall x :: x in owner ==> x in old(owner) || fresh(x)
      ensures Home(name, tbl)
      ensures Attached(name, tbl) ==> old(Attached(name, tbl))
      ensures !Attached(name, tbl) ==> tbl.Value() == old(tbl.Value())
    {
      hide Contents, Exec, Answer, SanitizeName;
      var r := MatchAndExecute(call.statement, call.params);
      if !Attached(name, tbl) && old(Attached(name, tbl)) {
        SameTable(name);
      }
    }

    /** Other statements running to completion while somebody holds on to the
        table object found under a name: what the object holds at the end is what
        the store held under that name after the first `at` of them. */
    method Hold(name: Text, tbl: InMemTable, others: seq<Call>) returns (ghost at: nat)
      requires Valid() && Attached(name, tbl)
      modifies this, tables.Values, owner.Keys
      ensures Valid() && Home(name, tbl)
      ensures at <= |others| && name in Run(old(Db()), others[..at])
      ensures tbl.Value() == Run(old(Db()), others[..at])[name]
    {
      hide Contents, Answer, Exec, Run, SanitizeName, StateStore.Db, StateStore.Valid;
      ghost var db := Db();
      AttachedValue(name, tbl);
      RunNothing(db);
      assert others[..0] == [];
      at := 0;
      for i := 0 to |others|
        invariant Valid() && Db() == Run(db, others[..i]) && at <= i
        invariant forall k :: k in tables ==> tables[k] in old(tables.Values) || fresh(tables[k])
        invariant forall x :: x in owner ==> x in old(owner) || fresh(x)
        invariant Home(name, tbl)
        invariant name in Run(db, others[..at]) && tbl.Value() == Run(db, others[..at])[name]
        invariant Attached(name, tbl) ==> at == i
      {
        RunStep(db, others, i);
        TouchedAreOwned(others[i].statement);
        Interrupt(name, tbl, others[i]);
        if Attached(name, tbl) {
          AttachedValue(name, tbl);
          at := i + 1;
        }
      }
    }

    /** SELECT as it runs: look the table up, let any other statements run to
        completion, then read. The answer is what an atomic SELECT gives at one
        of the instants in between, counted in statements finished. */
    method SelectAmong(s: Statement, params: Params, others: seq<Call>) returns (r: LiveRule, ghost at: nat)
      requires Valid() && s.Select?
      modifies this, tables.Values, owner.Keys
      ensures at <= |others|
      ensures r.Reading() == Answer(Run(old(Db()), others[..at]), s, params)
    {
      hide Contents, Answer, Run, Missing, SanitizeName, SelectFrom, IsProjection, IsCount;
      ghost var db := Db();
      var tbl := Lookup(s.Target());
      if tbl == null {
        at := 0;
        assert others[..0] == [];
        RunNothing(db);
        r := Fixed(Missing(s.Target()));
      } else {
        at := Hold(s.Target(), tbl, others);
        r := tbl.Scan(s.cols, s.where, params);
      }
      SelectAnswers(Run(db, others[..at]), s, params);
    }
  }
}
