/** Bringing an existing database up to date (backend/app/database.py, _migrate_schema). A table is a set of
    columns and a list of rows; a row gives every column a value. */
module Schema {
  datatype Value = Null | Str(text: string) | Num(n: int)

  type Row = map<string, Value>

  datatype Table = Table(columns: set<string>, rows: seq<Row>)

  type Db = map<string, Table>

  datatype Rename = Rename(table: string, from: string, to: string)

  /** Added columns with their defaults per table, renamed columns, and dropped tables. */
  datatype Config = Config(added: map<string, map<string, Value>>, renamed: seq<Rename>, dropped: seq<string>)

  const APP_CONFIG := Config(
    map[
      "group" := map["role" := Str("guest")],
      "oidcsettings" := map["manager_group_claim" := Str(""), "manager_group" := Str("")],
      "user" := map["is_active" := Num(1)]],
    [Rename("oidcsettings", "user_group_claim", "manager_group_claim"), Rename("oidcsettings", "user_group", "manager_group")],
    ["api_key"])

  predicate RowsFit(t: Table) { forall r | r in t.rows :: r.Keys == t.columns }

  predicate FitDb(db: Db) { forall t | t in db :: RowsFit(db[t]) }

  function Defaults(c: Config, table: string): map<string, Value> { if table in c.added then c.added[table] else map[] }

  /** Every renamed column goes to an added one, is not itself added, and shares no end with another rename;
      no table is dropped twice. */
  predicate Coherent(c: Config) {
    (forall i, j | 0 <= i < j < |c.dropped| :: c.dropped[i] != c.dropped[j]) &&
    (forall r | r in c.renamed :: r.to in Defaults(c, r.table) && r.from !in Defaults(c, r.table) && Defaults(c, r.table)[r.to] != Null) &&
    (forall i, j | 0 <= i < j < |c.renamed| && c.renamed[i].table == c.renamed[j].table ::
      c.renamed[i].from != c.renamed[j].from && c.renamed[i].to != c.renamed[j].to)
  }

  predicate NoNull(t: Table, column: string) { forall row | row in t.rows && column in row :: row[column] != Null }

  /** The added columns are NOT NULL, so a value carried over to one must not be null. */
  predicate NothingNullMoves(c: Config, db: Db) { forall r | r in c.renamed && r.table in db :: NoNull(db[r.table], r.from) }

  lemma AppConfigIsCoherent()
    ensures Coherent(APP_CONFIG)
  {
    assert "manager_group" != "manager_group_claim" by { assert |"manager_group"| != |"manager_group_claim"|; }
    assert "user_group" != "user_group_claim" by { assert |"user_group"| != |"user_group_claim"|; }
    assert "user_group"[0] != "manager_group"[0] && "user_group_claim"[0] != "manager_group"[0];
  }

  // ---- What the migration means ------------------------------------------------------------------------

  /** Missing columns are appended with their default; existing values stay. */
  function Extended(t: Table, defaults: map<string, Value>): Table {
    Table(t.columns + defaults.Keys, seq(|t.rows|, k requires 0 <= k < |t.rows| => defaults + t.rows[k]))
  }

  predicate Applies(r: Rename, table: string, columns: set<string>) { r.table == table && r.from in columns }

  function MoveRow(row: Row, renamed: seq<Rename>, table: string): Row {
    if renamed == [] then row
    else
      var before, r := MoveRow(row, renamed[..|renamed| - 1], table), renamed[|renamed| - 1];
      if Applies(r, table, before.Keys) then before[r.to := before[r.from]] - {r.from} else before
  }

  function MoveColumns(columns: set<string>, renamed: seq<Rename>, table: string): set<string> {
    if renamed == [] then columns
    else
      var before, r := MoveColumns(columns, renamed[..|renamed| - 1], table), renamed[|renamed| - 1];
      if Applies(r, table, before) then before + {r.to} - {r.from} else before
  }

  function Moved(t: Table, renamed: seq<Rename>, table: string): Table {
    Table(MoveColumns(t.columns, renamed, table), seq(|t.rows|, k requires 0 <= k < |t.rows| => MoveRow(t.rows[k], renamed, table)))
  }

  function MigratedTable(c: Config, t: Table, name: string): Table { Moved(Extended(t, Defaults(c, name)), c.renamed, name) }

  function Migrated(c: Config, db: Db): Db { map t | t in db && t !in c.dropped :: MigratedTable(c, db[t], t) }

  // ---- The statements ------------------------------------------------------------------------------------

  class Connection {
    var tables: Db

    constructor (tables: Db)
      ensures this.tables == tables
    {
      this.tables := tables;
    }

    method AddColumn(table: string, name: string, default_: Value)
      requires table in tables && name !in tables[table].columns
      modifies this
      ensures tables == old(tables)[table := Extended(old(tables)[table], map[name := default_])]
    {
      tables := tables[table := Extended(tables[table], map[name := default_])];
    }

    /** UPDATE table SET to = from; the statement fails, and changes nothing, on a null for the NOT NULL column. */
    method CopyColumn(table: string, from: string, to: string) returns (ok: bool)
      requires table in tables && RowsFit(tables[table]) && from in tables[table].columns && to in tables[table].columns
      modifies this
      ensures ok <==> NoNull(old(tables)[table], from)
      ensures !ok ==> tables == old(tables)
      ensures var t := old(tables)[table];
        ok ==> tables == old(tables)[table := t.(rows := seq(|t.rows|, k requires 0 <= k < |t.rows| => t.rows[k][to := t.rows[k][from]]))]
    {
      var t := tables[table];
      ok := forall row | row in t.rows :: row[from] != Null;
      if !ok { return; }
      tables := tables[table := t.(rows := seq(|t.rows|, k requires 0 <= k < |t.rows| => t.rows[k][to := t.rows[k][from]]))];
    }

    /** A table cannot lose its only column. */
    method DropColumn(table: string, name: string)
      requires table in tables && name in tables[table].columns && tables[table].columns != {name}
      modifies this
      ensures var t := old(tables)[table];
        tables == old(tables)[table := Table(t.columns - {name}, seq(|t.rows|, k requires 0 <= k < |t.rows| => t.rows[k] - {name}))]
    {
      var t := tables[table];
      tables := tables[table := Table(t.columns - {name}, seq(|t.rows|, k requires 0 <= k < |t.rows| => t.rows[k] - {name}))];
    }

    method DropTable(table: string)
      requires table in tables
      modifies this
      ensures tables == old(tables) - {table}
    {
      tables := tables - {table};
    }
  }

  // ---- The three loops -----------------------------------------------------------------------------------

  function AllExtended(c: Config, db: Db): Db { map t | t in db :: Extended(db[t], Defaults(c, t)) }

  function AllMoved(renamed: seq<Rename>, db: Db): Db { map t | t in db :: Moved(db[t], renamed, t) }

  function ColumnsOf(db: Db): map<string, set<string>> { map t | t in db :: db[t].columns }

  lemma ColumnsAfter(db: Db, table: string, t: Table)
    requires table in db
    ensures ColumnsOf(db)[table] == db[table].columns
    ensures ColumnsOf(db[table := t]) == ColumnsOf(db)[table := t.columns]
  {}

  lemma ExtendNothing(t: Table)
    ensures Extended(t, map[]) == t
  {
    forall k | 0 <= k < |t.rows| ensures Extended(t, map[]).rows[k] == t.rows[k] {}
  }

  lemma FillOneMore(row: Row, done: map<string, Value>, name: string, value: Value)
    requires name !in done
    ensures done[name := value] + row == if name in row then done + row else map[name := value] + (done + row)
  {
    var one := map[name := value];
    var l, r := done[name := value] + row, if name in row then done + row else one + (done + row);
    assert l.Keys == r.Keys;
    forall k | k in l ensures l[k] == r[k] {}
  }

  /** Appending one more missing column; a column that is there already changes nothing. */
  lemma ExtendOneMore(t: Table, done: map<string, Value>, name: string, value: Value)
    requires RowsFit(t) && name !in done
    ensures var e, all := Extended(t, done), Extended(t, done[name := value]);
      all.columns == e.columns + {name} && all == if name in e.columns then e else Extended(e, map[name := value])
  {
    forall k | 0 <= k < |t.rows|
      ensures done[name := value] + t.rows[k] == if name in t.columns then done + t.rows[k] else map[name := value] + (done + t.rows[k]) {
      assert t.rows[k] in t.rows;
      FillOneMore(t.rows[k], done, name, value);
    }
    assert done[name := value].Keys == done.Keys + {name};
  }

  lemma ExtendedFits(t: Table, defaults: map<string, Value>)
    requires RowsFit(t)
    ensures RowsFit(Extended(t, defaults))
  {
    var e := Extended(t, defaults);
    forall r | r in e.rows ensures r.Keys == e.columns {
      var k :| 0 <= k < |e.rows| && e.rows[k] == r;
      assert t.rows[k] in t.rows;
    }
  }

  method AddMissingColumns(c: Config, connection: Connection, known: map<string, set<string>>) returns (columns: map<string, set<string>>)
    requires FitDb(connection.tables) && known == ColumnsOf(connection.tables)
    modifies connection
    ensures connection.tables == AllExtended(c, old(connection.tables)) && columns == ColumnsOf(connection.tables)
  {
    hide Extended, RowsFit, ColumnsOf, AllExtended;
    columns := known;
    ghost var db := connection.tables;
    var todo := c.added.Keys;
    forall t | t in db && t !in todo ensures Extended(db[t], Defaults(c, t)) == db[t] { ExtendNothing(db[t]); }
    while todo != {}
      invariant todo <= c.added.Keys && connection.tables.Keys == db.Keys && columns == ColumnsOf(connection.tables)
      invariant forall t | t in db :: connection.tables[t] == if t in todo then db[t] else Extended(db[t], Defaults(c, t))
      decreases |todo|
    {
      var table :| table in todo;
      ColumnsKnown(connection.tables);
      if table in columns {
        columns := AddColumnsOf(connection, table, c.added[table], columns);
      }
      todo := todo - {table};
    }
    AllExtendedIs(c, db, connection.tables);
  }

  lemma ColumnsKnown(db: Db)
    ensures ColumnsOf(db).Keys == db.Keys
  {}

  lemma AllExtendedIs(c: Config, db: Db, result: Db)
    requires result.Keys == db.Keys && forall t | t in db :: result[t] == Extended(db[t], Defaults(c, t))
    ensures result == AllExtended(c, db)
  {}

  /** The inner loop: one table. */
  method AddColumnsOf(connection: Connection, table: string, additions: map<string, Value>, known: map<string, set<string>>)
    returns (columns: map<string, set<string>>)
    requires table in connection.tables && RowsFit(connection.tables[table]) && known == ColumnsOf(connection.tables)
    modifies connection
    ensures connection.tables == old(connection.tables)[table := Extended(old(connection.tables)[table], additions)]
    ensures columns == ColumnsOf(connection.tables)
  {
    hide Extended, RowsFit, ColumnsOf;
    columns := known;
    var names := additions.Keys;
    ghost var db := connection.tables;
    ghost var done: map<string, Value> := map[];
    ExtendNothing(db[table]);
    assert db == db[table := db[table]];
    ColumnsAfter(db, table, db[table]);
    while names != {}
      invariant names <= additions.Keys && done.Keys == additions.Keys - names && forall n | n in done :: done[n] == additions[n]
      invariant connection.tables == db[table := Extended(db[table], done)]
      invariant columns == ColumnsOf(db)[table := Extended(db[table], done).columns]
      decreases |names|
    {
      var name :| name in names;
      names := names - {name};
      ExtendOneMore(db[table], done, name, additions[name]);
      if name !in columns[table] {
        connection.AddColumn(table, name, additions[name]);
        columns := columns[table := columns[table] + {name}];
      }
      done := done[name := additions[name]];
    }
    assert done == additions;
    ColumnsAfter(db, table, Extended(db[table], done));
  }

  /** The renames of one table share no end with each other. */
  predicate Apart(renamed: seq<Rename>, table: string) {
    forall i, j | 0 <= i < j < |renamed| && renamed[i].table == table && renamed[j].table == table ::
      renamed[i].from != renamed[j].from && renamed[i].to != renamed[j].to &&
      renamed[i].to != renamed[j].from && renamed[j].to != renamed[i].from
  }

  /** Column x is neither end of a rename that has something to carry over in the row. */
  predicate Untouched(row: Row, renamed: seq<Rename>, table: string, x: string) {
    forall i | 0 <= i < |renamed| && Applies(renamed[i], table, row.Keys) :: x != renamed[i].from && x != renamed[i].to
  }

  lemma LastIsApart(row: Row, renamed: seq<Rename>, table: string)
    requires renamed != [] && Apart(renamed, table)
    ensures var n := |renamed| - 1;
      Apart(renamed[..n], table) && (renamed[n].table == table ==> Untouched(row, renamed[..n], table, renamed[n].from))
  {}

  /** Every other column keeps its value. */
  lemma {:induction false} UntouchedKeeps(row: Row, renamed: seq<Rename>, table: string, x: string)
    requires Apart(renamed, table) && Untouched(row, renamed, table, x)
    ensures var m := MoveRow(row, renamed, table);
      (x in m <==> x in row) && (x in row ==> m[x] == row[x])
  {
    if renamed != [] {
      hide Apart;
      var n := |renamed| - 1;
      LastIsApart(row, renamed, table);
      UntouchedKeeps(row, renamed[..n], table, x);
      if renamed[n].table == table { UntouchedKeeps(row, renamed[..n], table, renamed[n].from); }
    }
  }

  /** A value moves from the old column to the new one. */
  lemma {:induction false} MoveCarries(row: Row, renamed: seq<Rename>, table: string, i: nat)
    requires Apart(renamed, table) && i < |renamed| && Applies(renamed[i], table, row.Keys) && renamed[i].from != renamed[i].to
    ensures var m := MoveRow(row, renamed, table);
      renamed[i].from !in m && renamed[i].to in m && m[renamed[i].to] == row[renamed[i].from]
  {
    var n := |renamed| - 1;
    LastIsApart(row, renamed, table);
    if i < n {
      MoveCarries(row, renamed[..n], table, i);
    } else {
      UntouchedKeeps(row, renamed[..n], table, renamed[n].from);
    }
  }

  lemma {:induction false} MoveFits(row: Row, renamed: seq<Rename>, table: string)
    ensures MoveRow(row, renamed, table).Keys == MoveColumns(row.Keys, renamed, table)
  {
    if renamed != [] { MoveFits(row, renamed[..|renamed| - 1], table); }
  }

  lemma MovedFits(t: Table, renamed: seq<Rename>, table: string)
    requires RowsFit(t)
    ensures RowsFit(Moved(t, renamed, table))
  {
    hide MoveRow, MoveColumns;
    var m := Moved(t, renamed, table);
    forall r | r in m.rows ensures r.Keys == m.columns {
      var k :| 0 <= k < |m.rows| && m.rows[k] == r;
      assert t.rows[k] in t.rows;
      MoveFits(t.rows[k], renamed, table);
    }
  }

  /** UPDATE and DROP COLUMN for one rename. */
  function CarriedOver(t: Table, r: Rename): Table
    requires RowsFit(t) && r.from in t.columns
  {
    Table(t.columns + {r.to} - {r.from},
      seq(|t.rows|, k requires 0 <= k < |t.rows| => assert t.rows[k] in t.rows; t.rows[k][r.to := t.rows[k][r.from]] - {r.from}))
  }

  lemma MovedStep(t: Table, renamed: seq<Rename>, i: nat, table: string)
    requires i < |renamed| && RowsFit(t)
    ensures RowsFit(Moved(t, renamed[..i], table))
    ensures var b, r := Moved(t, renamed[..i], table), renamed[i];
      Moved(t, renamed[..i + 1], table) == if r.table == table && r.from in b.columns then CarriedOver(b, r) else b
  {
    MovedFits(t, renamed[..i], table);
    assert renamed[..i + 1][..i] == renamed[..i];
    var b := Moved(t, renamed[..i], table);
    forall k | 0 <= k < |t.rows| ensures b.rows[k].Keys == b.columns { assert b.rows[k] in b.rows; }
  }

  lemma CoherentIsApart(c: Config, table: string, n: nat)
    requires Coherent(c) && n <= |c.renamed|
    ensures Apart(c.renamed[..n], table) && forall r | r in c.renamed :: r.from != r.to
  {
    var renamed := c.renamed;
    forall i, j | 0 <= i < n && 0 <= j < n && renamed[i].table == table && renamed[j].table == table
      ensures renamed[i].to != renamed[j].from {
      assert renamed[i] in renamed && renamed[j] in renamed;
    }
  }

  /** Earlier renames touch neither end of rename i. */
  lemma EndsUntouched(c: Config, i: nat, row: Row)
    requires Coherent(c) && i < |c.renamed|
    ensures var r := c.renamed[i];
      Untouched(row, c.renamed[..i], r.table, r.from) && Untouched(row, c.renamed[..i], r.table, r.to)
  {
    var r := c.renamed[i];
    CoherentIsApart(c, r.table, i + 1);
    var upTo := c.renamed[..i + 1];
    assert upTo[i] == r;
    forall j | 0 <= j < i && c.renamed[..i][j].table == r.table
      ensures c.renamed[..i][j].from != r.from && c.renamed[..i][j].from != r.to && c.renamed[..i][j].to != r.from && c.renamed[..i][j].to != r.to {
      assert upTo[j] == c.renamed[..i][j];
    }
  }

  /** When rename i comes up, its target is there and the values to carry are the original ones. */
  lemma CanCarry(c: Config, t: Table, i: nat)
    requires Coherent(c) && i < |c.renamed| && RowsFit(t) && c.renamed[i].to in t.columns
    ensures var r := c.renamed[i];
      var b := Moved(t, c.renamed[..i], r.table);
      r.to in b.columns && (NoNull(b, r.from) <==> NoNull(t, r.from))
  {
    hide Coherent, Untouched, MoveRow, MoveColumns, Apart, RowsFit;
    var r, renamed := c.renamed[i], c.renamed[..i];
    CoherentIsApart(c, r.table, i);
    var b := Moved(t, renamed, r.table);
    var sample: Row := map x | x in t.columns :: Null;
    assert sample.Keys == t.columns;
    EndsUntouched(c, i, sample);
    UntouchedKeeps(sample, renamed, r.table, r.to);
    MoveFits(sample, renamed, r.table);
    forall k | 0 <= k < |t.rows|
      ensures r.from in b.rows[k] <==> r.from in t.rows[k]
      ensures r.from in t.rows[k] ==> b.rows[k][r.from] == t.rows[k][r.from] {
      EndsUntouched(c, i, t.rows[k]);
      UntouchedKeeps(t.rows[k], renamed, r.table, r.from);
    }
    SameNulls(b, t, r.from);
  }

  lemma SameNulls(a: Table, b: Table, column: string)
    requires |a.rows| == |b.rows|
    requires forall k | 0 <= k < |a.rows| :: column in a.rows[k] <==> column in b.rows[k]
    requires forall k | 0 <= k < |a.rows| && column in a.rows[k] :: a.rows[k][column] == b.rows[k][column]
    ensures NoNull(a, column) <==> NoNull(b, column)
  {
    assert forall k | 0 <= k < |a.rows| :: a.rows[k] in a.rows && b.rows[k] in b.rows;
  }

  lemma AllMovedStep(db: Db, renamed: seq<Rename>, i: nat)
    requires i < |renamed| && FitDb(db)
    ensures var b, r := AllMoved(renamed[..i], db), renamed[i];
      FitDb(b) && b.Keys == db.Keys && (r.table in db ==> b[r.table] == Moved(db[r.table], renamed[..i], r.table)) &&
      AllMoved(renamed[..i + 1], db) == if r.table in b && r.from in b[r.table].columns then b[r.table := CarriedOver(b[r.table], r)] else b
  {
    hide Moved, RowsFit, CarriedOver;
    forall t | t in db
      ensures RowsFit(Moved(db[t], renamed[..i], t)) {
      MovedStep(db[t], renamed, i, t);
    }
    forall t | t in db
      ensures var m, r := Moved(db[t], renamed[..i], t), renamed[i];
        Moved(db[t], renamed[..i + 1], t) == if r.table == t && r.from in m.columns then CarriedOver(m, r) else m {
      MovedStep(db[t], renamed, i, t);
    }
  }

  /** Copying and then dropping the old column. */
  method Carry(connection: Connection, r: Rename) returns (ok: bool)
    requires r.table in connection.tables && RowsFit(connection.tables[r.table]) && r.from != r.to
    requires r.from in connection.tables[r.table].columns && r.to in connection.tables[r.table].columns
    modifies connection
    ensures ok <==> NoNull(old(connection.tables)[r.table], r.from)
    ensures !ok ==> connection.tables == old(connection.tables)
    ensures ok ==> connection.tables == old(connection.tables)[r.table := CarriedOver(old(connection.tables)[r.table], r)]
  {
    ghost var db := connection.tables;
    assert r.to in db[r.table].columns - {r.from};
    ok := connection.CopyColumn(r.table, r.from, r.to);
    if !ok { return; }
    connection.DropColumn(r.table, r.from);
    ghost var t, result := db[r.table], connection.tables[r.table];
    assert result.columns == CarriedOver(t, r).columns;
    assert result.rows == CarriedOver(t, r).rows;
  }

  /** The rename loop; a null for a NOT NULL column ends it with an error. */
  method CarryRenamed(c: Config, connection: Connection, known: map<string, set<string>>) returns (ok: bool)
    requires Coherent(c) && FitDb(connection.tables) && known == ColumnsOf(connection.tables)
    requires forall r | r in c.renamed && r.table in connection.tables :: r.to in connection.tables[r.table].columns
    modifies connection
    ensures ok <==> NothingNullMoves(c, old(connection.tables))
    ensures ok ==> connection.tables == AllMoved(c.renamed, old(connection.tables))
  {
    hide Coherent, Moved, CarriedOver, AllMoved, ColumnsOf, RowsFit, NoNull;
    var columns := known;
    ghost var db := connection.tables;
    MovedNothing(db);
    for i := 0 to |c.renamed|
      invariant connection.tables == AllMoved(c.renamed[..i], db) && columns == ColumnsOf(connection.tables)
      invariant forall j | 0 <= j < i && c.renamed[j].table in db :: NoNull(db[c.renamed[j].table], c.renamed[j].from)
    {
      var r := c.renamed[i];
      assert r in c.renamed;
      AllMovedStep(db, c.renamed, i);
      ColumnsKnown(connection.tables);
      if r.table in columns {
        ColumnsAfter(connection.tables, r.table, connection.tables[r.table]);
        CanCarry(c, db[r.table], i);
        if r.from in columns[r.table] {
          CoherentIsApart(c, r.table, i);
          ColumnsAfter(connection.tables, r.table, CarriedOver(connection.tables[r.table], r));
          CarriedColumns(connection.tables[r.table], r);
          var carried := Carry(connection, r);
          if !carried { return false; }
          columns := columns[r.table := columns[r.table] - {r.from}];
        } else {
          AbsentIsNoNull(connection.tables[r.table], r.from);
        }
      }
    }
    assert c.renamed[..|c.renamed|] == c.renamed;
    ok := true;
  }

  lemma AbsentIsNoNull(t: Table, column: string)
    requires RowsFit(t) && column !in t.columns
    ensures NoNull(t, column)
  {}

  lemma CarriedColumns(t: Table, r: Rename)
    requires RowsFit(t) && r.from in t.columns && r.to in t.columns
    ensures CarriedOver(t, r).columns == t.columns - {r.from}
  {}

  lemma MovedNothing(db: Db)
    ensures AllMoved([], db) == db
  {
    forall t | t in db ensures Moved(db[t], [], t) == db[t] {}
  }

  /** MAIN (method): the startup migration goes through exactly when no null is to be carried over, and then
      leaves exactly the database that Migrated describes. */
  method MigrateSchema(c: Config, connection: Connection) returns (ok: bool)
    requires Coherent(c) && FitDb(connection.tables)
    modifies connection
    ensures ok <==> NothingNullMoves(c, old(connection.tables))
    ensures ok ==> connection.tables == Migrated(c, old(connection.tables))
  {
    hide Coherent, Moved, Extended, RowsFit, NothingNullMoves;
    ghost var db := connection.tables;
    var tables := connection.tables.Keys;
    var columns := map t | t in connection.tables :: connection.tables[t].columns;
    columns := AddMissingColumns(c, connection, columns);
    ReadyToCarry(c, db);
    ok := CarryRenamed(c, connection, columns);
    if !ok { return; }
    DropObsolete(c, connection, tables);
  }

  method DropObsolete(c: Config, connection: Connection, tables: set<string>)
    requires Coherent(c) && tables == connection.tables.Keys
    modifies connection
    ensures connection.tables == map t | t in old(connection.tables) && t !in c.dropped :: old(connection.tables)[t]
  {
    hide Coherent;
    ghost var moved := connection.tables;
    assert c.dropped[..0] == [];
    for i := 0 to |c.dropped|
      invariant connection.tables.Keys == set t | t in moved && t !in c.dropped[..i]
      invariant forall t | t in connection.tables :: connection.tables[t] == moved[t]
    {
      assert c.dropped[..i + 1] == c.dropped[..i] + [c.dropped[i]];
      if c.dropped[i] in tables {
        DroppedOnce(c, i);
        connection.DropTable(c.dropped[i]);
      }
    }
    assert c.dropped[..|c.dropped|] == c.dropped;
  }

  lemma DroppedOnce(c: Config, i: nat)
    requires Coherent(c) && i < |c.dropped|
    ensures c.dropped[i] !in c.dropped[..i]
  {}

  lemma ReadyToCarry(c: Config, db: Db)
    requires Coherent(c) && FitDb(db)
    ensures var e := AllExtended(c, db);
      FitDb(e) && (NothingNullMoves(c, e) <==> NothingNullMoves(c, db)) && forall r | r in c.renamed && r.table in e :: r.to in e[r.table].columns
  {
    hide NoNull;
    var e := AllExtended(c, db);
    forall t | t in e ensures RowsFit(e[t]) { ExtendedFits(db[t], Defaults(c, t)); }
    forall r | r in c.renamed && r.table in db ensures NoNull(e[r.table], r.from) <==> NoNull(db[r.table], r.from) {
      SameNulls(e[r.table], db[r.table], r.from);
    }
  }

  // ---- What it keeps -------------------------------------------------------------------------------------

  lemma MigratedFits(c: Config, db: Db)
    requires FitDb(db)
    ensures FitDb(Migrated(c, db))
  {
    forall t | t in Migrated(c, db) ensures RowsFit(Migrated(c, db)[t]) {
      ExtendedFits(db[t], Defaults(c, t));
      MovedFits(Extended(db[t], Defaults(c, t)), c.renamed, t);
    }
  }

  /** MAIN: exactly the obsolete tables go, and no row is added or lost. */
  lemma TablesAndRowsKept(c: Config, db: Db)
    ensures Migrated(c, db).Keys == set t | t in db && t !in c.dropped
    ensures forall t | t in Migrated(c, db) :: |Migrated(c, db)[t].rows| == |db[t].rows|
    ensures forall t | t in Migrated(c, db) && t !in c.added && (forall r | r in c.renamed :: r.table != t) ::
      Migrated(c, db)[t] == db[t]
  {
    forall t | t in Migrated(c, db) && t !in c.added && forall r | r in c.renamed :: r.table != t
      ensures Migrated(c, db)[t] == db[t] {
      ExtendNothing(db[t]);
      MovedElsewhere(db[t], c.renamed, t);
    }
  }

  lemma {:induction false} MovedElsewhere(t: Table, renamed: seq<Rename>, table: string)
    requires forall r | r in renamed :: r.table != table || r.from !in t.columns
    requires RowsFit(t) || forall r | r in renamed :: r.table != table
    ensures Moved(t, renamed, table) == t
  {
    ColumnsElsewhere(t.columns, renamed, table);
    forall k | 0 <= k < |t.rows| ensures MoveRow(t.rows[k], renamed, table) == t.rows[k] {
      assert t.rows[k] in t.rows;
      RowElsewhere(t.rows[k], renamed, table);
    }
  }

  lemma {:induction false} RowElsewhere(row: Row, renamed: seq<Rename>, table: string)
    requires forall r | r in renamed :: r.table != table || r.from !in row
    ensures MoveRow(row, renamed, table) == row
  {
    if renamed != [] { RowElsewhere(row, renamed[..|renamed| - 1], table); }
  }

  lemma {:induction false} ColumnsElsewhere(columns: set<string>, renamed: seq<Rename>, table: string)
    requires forall r | r in renamed :: r.table != table || r.from !in columns
    ensures MoveColumns(columns, renamed, table) == columns
  {
    if renamed != [] { ColumnsElsewhere(columns, renamed[..|renamed| - 1], table); }
  }

  /** MAIN: a renamed column's values are under the new name in every row, and the old name is gone. */
  lemma ValuesMove(c: Config, db: Db, i: nat, k: nat)
    requires Coherent(c) && FitDb(db) && i < |c.renamed|
    requires var r := c.renamed[i]; r.table in Migrated(c, db) && r.from in db[r.table].columns && k < |db[r.table].rows|
    ensures var r := c.renamed[i];
      var before, after := db[r.table].rows[k], Migrated(c, db)[r.table].rows[k];
      r.from !in after && r.to in after && after[r.to] == before[r.from]
  {
    hide Coherent, MoveRow, MoveColumns, Apart;
    var r := c.renamed[i];
    CoherentIsApart(c, r.table, |c.renamed|);
    assert c.renamed[..|c.renamed|] == c.renamed;
    var before := db[r.table].rows[k];
    assert before in db[r.table].rows;
    NotAdded(c, i);
    MoveCarries(Defaults(c, r.table) + before, c.renamed, r.table, i);
  }

  lemma NotAdded(c: Config, i: nat)
    requires Coherent(c) && i < |c.renamed|
    ensures var r := c.renamed[i]; r.to in Defaults(c, r.table) && r.from !in Defaults(c, r.table)
  {
    assert c.renamed[i] in c.renamed;
  }

  /** MAIN: any other column keeps its values; a missing one appears with its default. */
  lemma OthersKept(c: Config, db: Db, table: string, k: nat, x: string)
    requires Coherent(c) && FitDb(db) && table in Migrated(c, db) && k < |db[table].rows|
    requires forall r | r in c.renamed && r.table == table && r.from in db[table].columns :: x != r.from && x != r.to
    ensures var before, after := db[table].rows[k], Migrated(c, db)[table].rows[k];
      (x in after <==> x in before || x in Defaults(c, table)) &&
      (x in before ==> after[x] == before[x]) && (x in after && x !in before ==> after[x] == Defaults(c, table)[x])
  {
    hide MoveRow, MoveColumns, Apart, Coherent;
    CoherentIsApart(c, table, |c.renamed|);
    assert c.renamed[..|c.renamed|] == c.renamed;
    var before := db[table].rows[k];
    assert before in db[table].rows;
    var row := Defaults(c, table) + before;
    forall i | 0 <= i < |c.renamed| && Applies(c.renamed[i], table, row.Keys) ensures x != c.renamed[i].from && x != c.renamed[i].to {
      NotAdded(c, i);
      assert c.renamed[i] in c.renamed;
    }
    UntouchedKeeps(row, c.renamed, table, x);
  }

  /** A database that needs nothing: every added column is there, no old one, no obsolete table. */
  predicate Current(c: Config, db: Db) {
    (forall t | t in db :: t !in c.dropped && Defaults(c, t).Keys <= db[t].columns) &&
    (forall r | r in c.renamed && r.table in db :: r.from !in db[r.table].columns)
  }

  lemma ExtendedAlready(t: Table, defaults: map<string, Value>)
    requires RowsFit(t) && defaults.Keys <= t.columns
    ensures Extended(t, defaults) == t
  {
    forall k | 0 <= k < |t.rows| ensures defaults + t.rows[k] == t.rows[k] {
      assert t.rows[k] in t.rows;
    }
  }

  lemma CurrentIsUnchanged(c: Config, db: Db)
    requires FitDb(db) && Current(c, db)
    ensures Migrated(c, db) == db
  {
    hide Extended, Moved, RowsFit;
    forall t | t in db ensures MigratedTable(c, db[t], t) == db[t] {
      ExtendedAlready(db[t], Defaults(c, t));
      MovedElsewhere(db[t], c.renamed, t);
    }
  }

  lemma MigratedColumns(c: Config, db: Db, t: string, x: string)
    requires Coherent(c) && t in Migrated(c, db)
    ensures x in Defaults(c, t) ==> x in Migrated(c, db)[t].columns
    ensures (exists r :: r in c.renamed && r.table == t && r.from == x) ==> x !in Migrated(c, db)[t].columns
  {
    hide MoveRow, MoveColumns, Apart;
    var columns := db[t].columns + Defaults(c, t).Keys;
    var row: Row := map x | x in columns :: Null;
    assert row.Keys == columns;
    CoherentIsApart(c, t, |c.renamed|);
    assert c.renamed[..|c.renamed|] == c.renamed;
    MoveFits(row, c.renamed, t);
    if i :| 0 <= i < |c.renamed| && Applies(c.renamed[i], t, row.Keys) && (x == c.renamed[i].to || x == c.renamed[i].from) {
      assert c.renamed[i] in c.renamed;
      MoveCarries(row, c.renamed, t, i);
    } else {
      UntouchedKeeps(row, c.renamed, t, x);
    }
  }

  /** MAIN: after a migration the database is current, and migrating again changes nothing. */
  lemma MigrationIsIdempotent(c: Config, db: Db)
    requires Coherent(c) && FitDb(db)
    ensures Current(c, Migrated(c, db)) && Migrated(c, Migrated(c, db)) == Migrated(c, db)
  {
    var m := Migrated(c, db);
    forall t, x | t in m && x in Defaults(c, t) ensures x in m[t].columns { MigratedColumns(c, db, t, x); }
    forall r | r in c.renamed && r.table in m ensures r.from !in m[r.table].columns { MigratedColumns(c, db, r.table, r.from); }
    MigratedFits(c, db);
    CurrentIsUnchanged(c, m);
  }

  /** MAIN: the migration leaves a database alone exactly when it is current. */
  lemma UnchangedIffCurrent(c: Config, db: Db)
    requires Coherent(c) && FitDb(db)
    ensures Migrated(c, db) == db <==> Current(c, db)
  {
    hide Coherent, Migrated, Current, FitDb;
    if Current(c, db) {
      CurrentIsUnchanged(c, db);
    } else {
      MigrationIsIdempotent(c, db);
    }
  }
}
