/**
 * `MigrationManager`: reads the live schema of a table from the catalog,
 * then either creates the table or issues the ALTER TABLE statements that
 * bring it in line with its definition. The database is a collaborator
 * that records every statement it is sent and answers every query with the
 * same catalog rows.
 */
module Migrations {
  import opened Wrappers
  import opened Text
  import opened OrderedDicts
  import opened Schema
  import opened Reconcile

  /** The text of the catalog query up to the quoted table name. */
  const QueryHead: string :=
    "\n            SELECT COLUMN_NAME, DATA_TYPE, COLUMN_DEFAULT\n            FROM INFORMATION_SCHEMA.COLUMNS\n            WHERE TABLE_NAME = '"

  /** The text of the catalog query after the quoted table name. */
  const QueryTail: string := "'\n        "

  /** The catalog query for a table; the name is upper-cased, as the catalog stores it. */
  function MetadataQuery(tableName: string): (r: string)
  {
    QueryHead + Upper(tableName) + QueryTail
  }

  /** How an f-string renders `spec.get('type')`: a missing or `None` type prints as "None". */
  function TypeEntryText(t: TypeEntry): (r: string)
  {
    if t.Named? then t.name else "None"
  }

  /** One column of CREATE TABLE, from the declaration as written (not normalised). */
  function ColumnDef(col: string, decl: ColumnDecl): (r: string)
  {
    match decl
    case SpecDict(typeEntry, default) =>
      var base := col + " " + TypeEntryText(typeEntry);
      if default.Some? then base + " DEFAULT " + default.value else base
    case SpecText(text) => col + " " + text
  }

  function ColumnDefs(columns: Dict<ColumnDecl>): (r: seq<string>)
  {
    seq(|columns|, i requires 0 <= i < |columns| => ColumnDef(columns[i].0, columns[i].1))
  }

  /**
   * One column definition per declared column, in declaration order, each
   * starting with the column's name as declared (not lower-cased).
   */
  lemma ColumnDefsInOrder(columns: Dict<ColumnDecl>)
    ensures |ColumnDefs(columns)| == |columns|
    ensures forall i :: 0 <= i < |columns| ==> StartsWith(ColumnDefs(columns)[i], columns[i].0 + " ")
  {
    forall i | 0 <= i < |columns| ensures StartsWith(ColumnDefs(columns)[i], columns[i].0 + " ") {
      var p := columns[i].0 + " ";
      assert p[..|p|] == p;
      match columns[i].1
      case SpecDict(typeEntry, default) =>
        StartsWithAppend(p, p, TypeEntryText(typeEntry));
        if default.Some? {
          StartsWithAppend(p + TypeEntryText(typeEntry), p, " DEFAULT " + default.value);
          assert p + TypeEntryText(typeEntry) + " DEFAULT " + default.value
              == p + TypeEntryText(typeEntry) + (" DEFAULT " + default.value);
        }
      case SpecText(text) => StartsWithAppend(p, p, text);
    }
  }

  function CreateTableSql(tableDef: TableDef): (r: string)
  {
    "CREATE TABLE " + tableDef.name + " (" + Join(ColumnDefs(tableDef.columns), ", ") + ")"
  }

  /**
   * The schema changes `migrate_table` sends after its catalog query, in
   * order, or the column whose `None` type made the normalisation raise
   * before anything was sent.
   */
  function MigrationDdl(tableDef: TableDef, catalog: seq<CatalogRow>): (r: Result<seq<string>, string>)
  {
    match DesiredOf(tableDef.columns)
    case Failure(col) => Failure(col)
    case Success(desired) =>
      var current := CurrentSchemaOf(catalog);
      if current == [] then Success([CreateTableSql(tableDef)])
      else Success(Statements(tableDef.name, Diff(desired, current)))
  }

  /** How a call of `migrate_table` ended. */
  datatype Outcome = Migrated | TypeIsNone(column: string)

  /** The database connection, as far as the migration sees it. */
  class Database {
    /** Every statement sent so far, oldest first. */
    var log: seq<string>
    /** The rows the catalog query answers with. */
    const catalog: seq<CatalogRow>

    constructor (catalog: seq<CatalogRow>)
      ensures log == [] && this.catalog == catalog
    {
      log := [];
      this.catalog := catalog;
    }

    /** Sends a statement; the answer is the catalog rows (callers of DDL ignore it). */
    method ExecuteQuery(sql: string) returns (rows: seq<CatalogRow>)
      modifies this
      ensures log == old(log) + [sql]
      ensures rows == catalog
    {
      log := log + [sql];
      rows := catalog;
    }
  }

  class MigrationManager {
    const db: Database

    constructor (db: Database)
      ensures this.db == db
    {
      this.db := db;
    }

    /** Queries the catalog once and builds the current schema from its rows. */
    method GetCurrentSchema(tableName: string) returns (schema: Dict<ColumnSpec>)
      modifies db
      ensures db.log == old(db.log) + [MetadataQuery(tableName)]
      ensures schema == CurrentSchemaOf(db.catalog)
    {
      var rows := db.ExecuteQuery(MetadataQuery(tableName));
      schema := [];
      var i := 0;
      while i < |rows|
        invariant 0 <= i <= |rows|
        invariant db.log == old(db.log) + [MetadataQuery(tableName)]
        invariant schema == CurrentSchemaOf(rows[..i])
      {
        var row := rows[i];
        var sqlType := if row.dataType.Some? && row.dataType.value != "" then Some(Upper(row.dataType.value)) else None;
        var default := if row.columnDefault.Some? then Some(Upper(row.columnDefault.value)) else None;
        CurrentSchemaStep(rows, i);
        schema := Put(schema, Lower(row.columnName), ColumnSpec(sqlType, default));
        i := i + 1;
      }
      assert rows[..i] == rows;
    }

    /** Sends one CREATE TABLE built from the definition as written. */
    method CreateTable(tableDef: TableDef)
      modifies db
      ensures db.log == old(db.log) + [CreateTableSql(tableDef)]
    {
      var columns := tableDef.columns;
      var columnsDefs: seq<string> := [];
      var i := 0;
      while i < |columns|
        invariant 0 <= i <= |columns|
        invariant columnsDefs == ColumnDefs(columns[..i])
      {
        var col, decl := columns[i].0, columns[i].1;
        var colDef: string;
        match decl {
          case SpecDict(typeEntry, default) =>
            colDef := col + " " + TypeEntryText(typeEntry);
            if default.Some? {
              colDef := colDef + " DEFAULT " + default.value;
            }
          case SpecText(text) =>
            colDef := col + " " + text;
        }
        assert colDef == ColumnDef(col, decl);
        columnsDefs := columnsDefs + [colDef];
        assert ColumnDefs(columns[..i + 1]) == ColumnDefs(columns[..i]) + [ColumnDef(col, decl)];
        i := i + 1;
      }
      assert columns[..i] == columns;
      var colsSql := Join(columnsDefs, ", ");
      var rows := db.ExecuteQuery("CREATE TABLE " + tableDef.name + " (" + colsSql + ")");
    }

    /**
     * Normalises the definition, reads the current schema, and creates the
     * table or runs the three phases: it sends the catalog query and then
     * MigrationDdl.
     */
    method MigrateTable(tableDef: TableDef) returns (outcome: Outcome)
      modifies db
      ensures match MigrationDdl(tableDef, db.catalog)
        case Failure(col) => outcome == TypeIsNone(col) && db.log == old(db.log)
        case Success(ddl) => outcome == Migrated && db.log == old(db.log) + [MetadataQuery(tableDef.name)] + ddl
    {
      var tableName := tableDef.name;
      var normalized := NormalizeDesired(tableDef.columns);
      if normalized.Failure? {
        assert MigrationDdl(tableDef, db.catalog) == Failure(normalized.error);
        return TypeIsNone(normalized.error);
      }
      var desired := normalized.value;
      var current := GetCurrentSchema(tableName);
      if current == [] {
        assert MigrationDdl(tableDef, db.catalog) == Success([CreateTableSql(tableDef)]);
        CreateTable(tableDef);
        return Migrated;
      }
      assert MigrationDdl(tableDef, db.catalog) == Success(Statements(tableName, Diff(desired, current)));
      ghost var start := db.log;
      ghost var added := Statements(tableName, Additions(desired, current));
      ghost var dropped := Statements(tableName, Drops(current, desired));
      ghost var modified := Statements(tableName, Modifications(desired, current));
      AddMissingColumns(tableName, desired, current);
      DropExtraColumns(tableName, desired, current);
      ModifyChangedColumns(tableName, desired, current);
      StatementsAppend(tableName, Additions(desired, current), Drops(current, desired));
      StatementsAppend(tableName, Additions(desired, current) + Drops(current, desired), Modifications(desired, current));
      ConcatAssociates(start, added, dropped, modified);
      outcome := Migrated;
    }

    /** Phase 1 of `migrate_table`: add the desired columns the table lacks. */
    method AddMissingColumns(tableName: string, desired: Dict<ColumnSpec>, current: Dict<ColumnSpec>)
      modifies db
      ensures db.log == old(db.log) + Statements(tableName, Additions(desired, current))
    {
      var i := 0;
      while i < |desired|
        invariant 0 <= i <= |desired|
        invariant db.log == old(db.log) + AdditionStatements(tableName, desired, current, i)
      {
        var col, spec := desired[i].0, desired[i].1;
        if !HasKey(current, col) {
          AddColumn(tableName, col, spec);
          Associates(old(db.log), AdditionStatements(tableName, desired, current, i), [AddColumnSql(tableName, col, spec)]);
        }
        i := i + 1;
      }
      AdditionStatementsRendered(tableName, desired, current, i);
      assert desired[..i] == desired;
    }

    /** Phase 2 of `migrate_table`: drop the columns the definition lacks. */
    method DropExtraColumns(tableName: string, desired: Dict<ColumnSpec>, current: Dict<ColumnSpec>)
      modifies db
      ensures db.log == old(db.log) + Statements(tableName, Drops(current, desired))
    {
      var j := 0;
      while j < |current|
        invariant 0 <= j <= |current|
        invariant db.log == old(db.log) + DropStatements(tableName, current, desired, j)
      {
        var col := current[j].0;
        if !HasKey(desired, col) {
          DropColumn(tableName, col);
          Associates(old(db.log), DropStatements(tableName, current, desired, j), [DropColumnSql(tableName, col)]);
        }
        j := j + 1;
      }
      DropStatementsRendered(tableName, current, desired, j);
      assert current[..j] == current;
    }

    /** Phase 3 of `migrate_table`: modify the shared columns whose specs differ. */
    method ModifyChangedColumns(tableName: string, desired: Dict<ColumnSpec>, current: Dict<ColumnSpec>)
      modifies db
      ensures db.log == old(db.log) + Statements(tableName, Modifications(desired, current))
    {
      var m := 0;
      while m < |desired|
        invariant 0 <= m <= |desired|
        invariant db.log == old(db.log) + ModificationStatements(tableName, desired, current, m)
      {
        var col, spec := desired[m].0, desired[m].1;
        if HasKey(current, col) {
          var currentSpec := Get(current, col);
          if !CompareColumnSpecs(spec, currentSpec) {
            ModifyColumn(tableName, col, spec);
            Associates(old(db.log), ModificationStatements(tableName, desired, current, m),
                       [AlterTypeSql(tableName, col, spec), AlterDefaultSql(tableName, col, spec)]);
          }
        }
        m := m + 1;
      }
      ModificationStatementsRendered(tableName, desired, current, m);
      assert desired[..m] == desired;
    }

    method AddColumn(tableName: string, col: string, spec: ColumnSpec)
      modifies db
      ensures db.log == old(db.log) + [AddColumnSql(tableName, col, spec)]
    {
      var sql := "ALTER TABLE " + tableName + " ADD COLUMN " + col + " " + TypeText(spec.sqlType);
      if Truthy(spec.default) {
        sql := sql + " DEFAULT " + spec.default.value;
      }
      var rows := db.ExecuteQuery(sql);
    }

    method DropColumn(tableName: string, col: string)
      modifies db
      ensures db.log == old(db.log) + [DropColumnSql(tableName, col)]
    {
      var rows := db.ExecuteQuery("ALTER TABLE " + tableName + " DROP COLUMN " + col);
    }

    /** Always two statements: the type change first, then the default set or dropped. */
    method ModifyColumn(tableName: string, col: string, spec: ColumnSpec)
      modifies db
      ensures db.log == old(db.log) + [AlterTypeSql(tableName, col, spec), AlterDefaultSql(tableName, col, spec)]
    {
      var sqlType := "ALTER TABLE " + tableName + " ALTER COLUMN " + col + " TYPE " + TypeText(spec.sqlType);
      var rows := db.ExecuteQuery(sqlType);
      var sqlDefault: string;
      if Truthy(spec.default) {
        sqlDefault := "ALTER TABLE " + tableName + " ALTER COLUMN " + col + " SET DEFAULT " + spec.default.value;
      } else {
        sqlDefault := "ALTER TABLE " + tableName + " ALTER COLUMN " + col + " DROP DEFAULT";
      }
      rows := db.ExecuteQuery(sqlDefault);
    }
  }

  /** The statements the first `i` rounds of phase 1 send. */
  function AdditionStatements(table: string, desired: Dict<ColumnSpec>, current: Dict<ColumnSpec>, i: nat): (r: seq<string>)
    requires i <= |desired|
  {
    if i == 0 then []
    else
      AdditionStatements(table, desired, current, i - 1) +
      (if HasKey(current, desired[i - 1].0) then [] else [AddColumnSql(table, desired[i - 1].0, desired[i - 1].1)])
  }

  /** Those statements render the additions for the first `i` desired columns. */
  lemma {:induction false} AdditionStatementsRendered(table: string, desired: Dict<ColumnSpec>, current: Dict<ColumnSpec>, i: nat)
    requires i <= |desired|
    ensures AdditionStatements(table, desired, current, i) == Statements(table, Additions(desired[..i], current))
  {
    if i > 0 {
      var n, col, spec := i - 1, desired[i - 1].0, desired[i - 1].1;
      AdditionStatementsRendered(table, desired, current, n);
      var prev := Additions(desired[..n], current);
      AdditionsStep(desired, current, n);
      if HasKey(current, col) {
        assert Additions(desired[..i], current) == prev;
      } else {
        assert Additions(desired[..i], current) == prev + [Op.AddColumn(col, spec)];
        StatementsSnoc(table, prev, Op.AddColumn(col, spec));
      }
    }
  }

  /** The statements the first `j` rounds of phase 2 send. */
  function DropStatements(table: string, current: Dict<ColumnSpec>, desired: Dict<ColumnSpec>, j: nat): (r: seq<string>)
    requires j <= |current|
  {
    if j == 0 then []
    else
      DropStatements(table, current, desired, j - 1) +
      (if HasKey(desired, current[j - 1].0) then [] else [DropColumnSql(table, current[j - 1].0)])
  }

  /** Those statements render the drops for the first `j` current columns. */
  lemma {:induction false} DropStatementsRendered(table: string, current: Dict<ColumnSpec>, desired: Dict<ColumnSpec>, j: nat)
    requires j <= |current|
    ensures DropStatements(table, current, desired, j) == Statements(table, Drops(current[..j], desired))
  {
    if j > 0 {
      var n, col := j - 1, current[j - 1].0;
      DropStatementsRendered(table, current, desired, n);
      var prev := Drops(current[..n], desired);
      DropsStep(current, desired, n);
      if HasKey(desired, col) {
        assert Drops(current[..j], desired) == prev;
      } else {
        assert Drops(current[..j], desired) == prev + [Op.DropColumn(col)];
        StatementsSnoc(table, prev, Op.DropColumn(col));
      }
    }
  }

  /** The statements the first `m` rounds of phase 3 send: an ALTER pair per changed column. */
  function ModificationStatements(table: string, desired: Dict<ColumnSpec>, current: Dict<ColumnSpec>, m: nat): (r: seq<string>)
    requires m <= |desired|
  {
    if m == 0 then []
    else
      ModificationStatements(table, desired, current, m - 1) +
      (if HasKey(current, desired[m - 1].0) && !CompareColumnSpecs(desired[m - 1].1, Get(current, desired[m - 1].0))
       then [AlterTypeSql(table, desired[m - 1].0, desired[m - 1].1), AlterDefaultSql(table, desired[m - 1].0, desired[m - 1].1)]
       else [])
  }

  /** Those statements render the modifications for the first `m` desired columns. */
  lemma {:induction false} ModificationStatementsRendered(table: string, desired: Dict<ColumnSpec>, current: Dict<ColumnSpec>, m: nat)
    requires m <= |desired|
    ensures ModificationStatements(table, desired, current, m) == Statements(table, Modifications(desired[..m], current))
  {
    if m > 0 {
      var n, col, spec := m - 1, desired[m - 1].0, desired[m - 1].1;
      ModificationStatementsRendered(table, desired, current, n);
      var prev := Modifications(desired[..n], current);
      ModificationsStep(desired, current, n);
      if HasKey(current, col) && !CompareColumnSpecs(spec, Get(current, col)) {
        assert Modifications(desired[..m], current) == prev + [Op.ModifyColumn(col, spec)];
        StatementsSnoc(table, prev, Op.ModifyColumn(col, spec));
      } else {
        assert Modifications(desired[..m], current) == prev;
      }
    }
  }

  /** Logs joined left to right equal the first followed by the rest. */
  lemma Associates(a: seq<string>, b: seq<string>, c: seq<string>)
    ensures a + b + c == a + (b + c)
  {
  }

  lemma ConcatAssociates(a: seq<string>, b: seq<string>, c: seq<string>, d: seq<string>)
    ensures a + b + c + d == a + (b + c + d)
  {
  }

  /** The statements of two operation sequences run one after the other. */
  lemma {:induction false} StatementsAppend(table: string, a: seq<Op>, b: seq<Op>)
    ensures Statements(table, a + b) == Statements(table, a) + Statements(table, b)
  {
    if |b| > 0 {
      var n := |b| - 1;
      assert (a + b)[..|a + b| - 1] == a + b[..n];
      StatementsAppend(table, a, b[..n]);
    } else {
      assert a + b == a;
    }
  }

  /**
   * A table with no catalog rows gets exactly one CREATE TABLE and nothing
   * after it; an existing table gets only ALTER TABLE statements on that
   * table, one per column change plus one more per modification.
   */
  lemma CreateOnlyWhenAbsent(tableDef: TableDef, catalog: seq<CatalogRow>)
    requires MigrationDdl(tableDef, catalog).Success?
    ensures var ddl := MigrationDdl(tableDef, catalog).value;
      && (catalog == [] ==> ddl == [CreateTableSql(tableDef)])
      && (catalog != [] ==> forall s :: s in ddl ==> StartsWith(s, "ALTER TABLE " + tableDef.name))
  {
    CurrentSchemaKeys(catalog);
    var desired := DesiredOf(tableDef.columns).value;
    StatementsShape(tableDef.name, Diff(desired, CurrentSchemaOf(catalog)));
  }

  /** The normalised desired columns all have a non-empty type and no empty-string default. */
  predicate Settled(desired: Dict<ColumnSpec>)
  {
    forall i :: 0 <= i < |desired| ==> desired[i].1.sqlType != Some("") && SettlesAs(desired[i].1)
  }

  /**
   * Idempotence: once `migrate_table` has altered an existing table, a second
   * call sends the catalog query and nothing else, provided the catalog then
   * reports each column's type and default exactly as the statements wrote
   * them (the rows of the schema `Apply` computes). It needs at least one
   * column, and no column whose type or default is the empty string.
   * `BaseTypeIsModifiedAgain` shows a catalog that reports less.
   */
  lemma SecondRunIssuesOnlyTheQuery(tableDef: TableDef, catalog: seq<CatalogRow>)
    requires DesiredOf(tableDef.columns).Success?
    requires Settled(DesiredOf(tableDef.columns).value)
    requires tableDef.columns != []
    ensures var desired := DesiredOf(tableDef.columns).value;
      var current := CurrentSchemaOf(catalog);
      MigrationDdl(tableDef, RowsOf(Apply(current, Diff(desired, current)))) == Success([])
  {
    var desired := DesiredOf(tableDef.columns).value;
    var current := CurrentSchemaOf(catalog);
    CurrentSchemaKeys(catalog);
    DesiredSchemaKeys(tableDef.columns);
    DesiredIsNormal(tableDef.columns);
    Convergence(desired, current);
    var after := Apply(current, Diff(desired, current));
    forall i | 0 <= i < |after| ensures NormalEntry(after[i]) && after[i].1.sqlType != Some("") {
      IndexOfEntry(after, i);
      var k := after[i].0;
      var p := IndexOf(desired, k);
      IndexOfEntry(desired, p);
      assert desired[p] == (k, Get(desired, k));
    }
    RowsRoundTrip(after);
    assert HasKey(desired, Lower(tableDef.columns[0].0));
    assert after != [];
    NothingLeft(desired, after);
  }

  /**
   * When the catalog lists the desired columns, with their normalised types
   * and defaults as written, a call sends only the catalog query. It needs at
   * least one column, and no column whose type or default is the empty string.
   */
  lemma InSyncIssuesOnlyTheQuery(tableDef: TableDef)
    requires DesiredOf(tableDef.columns).Success?
    requires Settled(DesiredOf(tableDef.columns).value)
    requires tableDef.columns != []
    ensures MigrationDdl(tableDef, RowsOf(DesiredOf(tableDef.columns).value)) == Success([])
  {
    var desired := DesiredOf(tableDef.columns).value;
    DesiredSchemaKeys(tableDef.columns);
    DesiredIsNormal(tableDef.columns);
    RowsRoundTrip(desired);
    assert HasKey(desired, Lower(tableDef.columns[0].0));
    NothingLeft(desired, desired);
  }

  /**
   * A catalog that reports only the base type (`varchar` for a declared
   * `VARCHAR(10)`) never matches the definition: every run modifies the
   * column again.
   */
  lemma BaseTypeIsModifiedAgain()
    ensures var spec := ColumnSpec(Some("VARCHAR(10)"), None);
      MigrationDdl(TableDef("t", [("a", SpecDict(Named("VARCHAR(10)"), None))]), [CatalogRow("A", Some("varchar"), None)])
        == Success([AlterTypeSql("t", "a", spec), AlterDefaultSql("t", "a", spec)])
  {
    var decl := SpecDict(Named("VARCHAR(10)"), None);
    var row := CatalogRow("A", Some("varchar"), None);
    assert Upper("VARCHAR(10)") == "VARCHAR(10)";
    assert Upper("varchar") == "VARCHAR";
    assert Lower("a") == "a" && Lower("A") == "a";
    assert DeclaredSpec(decl) == ColumnSpec(Some("VARCHAR(10)"), None);
    assert CatalogEntry(row) == ("a", ColumnSpec(Some("VARCHAR"), None));
    OneColumnModified("t", "a", decl, row);
  }

  /**
   * A one-column table whose one catalog row names the same column with a
   * different spec: the call modifies that column and does nothing else.
   */
  lemma OneColumnModified(name: string, col: string, decl: ColumnDecl, row: CatalogRow)
    requires !NullTyped(decl)
    requires CatalogEntry(row).0 == Lower(col) && CatalogEntry(row).1 != DeclaredSpec(decl)
    ensures MigrationDdl(TableDef(name, [(col, decl)]), [row])
      == Success([AlterTypeSql(name, Lower(col), DeclaredSpec(decl)), AlterDefaultSql(name, Lower(col), DeclaredSpec(decl))])
  {
    var spec := DeclaredSpec(decl);
    OneDeclaredColumn(col, decl);
    OneCatalogRow(row);
    OneColumnChanged(Lower(col), spec, CatalogEntry(row).1);
    var ops := [ModifyColumn(Lower(col), spec)];
    assert ops[..0] == [];
    assert Statements(name, ops) == Render(name, ops[0]);
  }

  /** A definition with one column normalises to that one entry. */
  lemma OneDeclaredColumn(col: string, decl: ColumnDecl)
    requires !NullTyped(decl)
    ensures DesiredOf([(col, decl)]) == Success([(Lower(col), DeclaredSpec(decl))])
  {
    var columns := [(col, decl)];
    assert columns[..0] == [];
    assert DesiredOf(columns[..0]) == Success([]);
    var none: Dict<ColumnSpec> := [];
    assert !HasKey(none, Lower(col));
    assert Put([], Lower(col), DeclaredSpec(decl)) == [(Lower(col), DeclaredSpec(decl))];
  }

  /** A catalog with one row reads as that one entry. */
  lemma OneCatalogRow(row: CatalogRow)
    ensures CurrentSchemaOf([row]) == [CatalogEntry(row)]
  {
    var ps := CatalogPairs([row]);
    assert ps == [CatalogEntry(row)];
    assert ps[..0] == [] && FromPairs(ps[..0]) == [];
    var none: Dict<ColumnSpec> := [];
    assert !HasKey(none, ps[0].0);
    assert Put([], ps[0].0, ps[0].1) == [(ps[0].0, ps[0].1)];
  }

  /** One shared column whose specs differ: the diff is its modification alone. */
  lemma OneColumnChanged(k: string, d: ColumnSpec, c: ColumnSpec)
    requires d != c
    ensures Diff([(k, d)], [(k, c)]) == [ModifyColumn(k, d)]
  {
    var desired, current := [(k, d)], [(k, c)];
    assert desired[..0] == [] && current[..0] == [];
    IndexOfUnique(current, k, 0);
    IndexOfUnique(desired, k, 0);
    assert Additions(desired, current) == [];
    assert Drops(current, desired) == [];
    assert Modifications(desired, current) == [ModifyColumn(k, d)];
  }

  // ---------------------------------------------------------------------------
  // Concrete runs
  // ---------------------------------------------------------------------------

  /** The table definition of the banknote data set. */
  const BanknoteOriTable := TableDef("original_data", [
    ("variance", SpecDict(Named("FLOAT"), None)),
    ("skewness", SpecDict(Named("FLOAT"), None)),
    ("curtosis", SpecDict(Named("FLOAT"), None)),
    ("entropy", SpecDict(Named("FLOAT"), None)),
    ("class", SpecDict(Named("INT"), None))
  ])

  /** The catalog query for the banknote table names it in upper case. */
  lemma BanknoteQuery()
    ensures MetadataQuery(BanknoteOriTable.name) == QueryHead + "ORIGINAL_DATA" + QueryTail
  {
    assert Upper("original_data") == "ORIGINAL_DATA";
  }

  /**
   * Against an empty catalog the banknote table is created in one statement
   * listing the five columns in declaration order, each as its name and type.
   */
  lemma BanknoteTableIsCreated()
    ensures MigrationDdl(BanknoteOriTable, []) == Success([
      "CREATE TABLE original_data (variance FLOAT, skewness FLOAT, curtosis FLOAT, entropy FLOAT, class INT)"])
  {
    assert DesiredOf(BanknoteOriTable.columns).Success? by { DesiredOfOutcome(BanknoteOriTable.columns); }
    assert CurrentSchemaOf([]) == [] by { CurrentSchemaKeys([]); }
    BanknoteCreateSql();
  }

  lemma BanknoteCreateSql()
    ensures CreateTableSql(BanknoteOriTable) ==
      "CREATE TABLE original_data (variance FLOAT, skewness FLOAT, curtosis FLOAT, entropy FLOAT, class INT)"
  {
    BanknoteColumnDefs();
    JoinFive("variance FLOAT", "skewness FLOAT", "curtosis FLOAT", "entropy FLOAT", "class INT", ", ");
    Regroup("CREATE TABLE " + "original_data" + " (",
      "variance FLOAT", "skewness FLOAT", "curtosis FLOAT", "entropy FLOAT", "class INT", ", ", ")");
    BanknoteCreateHead();
    BanknoteUpToSkewness();
    BanknoteUpToCurtosis();
    BanknoteUpToEntropy();
    BanknoteUpToClass();
  }

  lemma JoinFive(a: string, b: string, c: string, d: string, e: string, sep: string)
    ensures Join([a, b, c, d, e], sep) == a + sep + b + sep + c + sep + d + sep + e
  {
    assert [a] + [b] == [a, b] && [a, b] + [c] == [a, b, c] && [a, b, c] + [d] == [a, b, c, d] && [a, b, c, d] + [e] == [a, b, c, d, e];
    assert Join([a], sep) == a;
    JoinSnoc([a], b, sep);
    JoinSnoc([a, b], c, sep);
    JoinSnoc([a, b, c], d, sep);
    JoinSnoc([a, b, c, d], e, sep);
  }

  /** Concatenation regroups: a joined middle part can be spelled out in line. */
  lemma Regroup(x: string, a: string, b: string, c: string, d: string, e: string, sep: string, y: string)
    ensures x + (a + sep + b + sep + c + sep + d + sep + e) + y == x + a + sep + b + sep + c + sep + d + sep + e + y
  {
    assert x + (a + sep + b + sep + c + sep + d + sep + e) == x + a + sep + b + sep + c + sep + d + sep + e;
  }

  // The CREATE TABLE statement for the banknote table, one column at a time.

  lemma BanknoteCreateHead()
    ensures "CREATE TABLE " + "original_data" + " (" == "CREATE TABLE original_data ("
  {
  }

  lemma BanknoteUpToSkewness()
    ensures "CREATE TABLE original_data (" + "variance FLOAT" + ", " + "skewness FLOAT"
      == "CREATE TABLE original_data (variance FLOAT, skewness FLOAT"
  {
    assert "CREATE TABLE original_data (" + "variance FLOAT" == "CREATE TABLE original_data (variance FLOAT";
    assert "CREATE TABLE original_data (variance FLOAT" + ", " == "CREATE TABLE original_data (variance FLOAT, ";
  }

  lemma BanknoteUpToCurtosis()
    ensures "CREATE TABLE original_data (variance FLOAT, skewness FLOAT" + ", " + "curtosis FLOAT"
      == "CREATE TABLE original_data (variance FLOAT, skewness FLOAT, curtosis FLOAT"
  {
    assert "CREATE TABLE original_data (variance FLOAT, skewness FLOAT" + ", "
      == "CREATE TABLE original_data (variance FLOAT, skewness FLOAT, ";
  }

  lemma BanknoteUpToEntropy()
    ensures "CREATE TABLE original_data (variance FLOAT, skewness FLOAT, curtosis FLOAT" + ", " + "entropy FLOAT"
      == "CREATE TABLE original_data (variance FLOAT, skewness FLOAT, curtosis FLOAT, entropy FLOAT"
  {
    assert "CREATE TABLE original_data (variance FLOAT, skewness FLOAT, curtosis FLOAT" + ", "
      == "CREATE TABLE original_data (variance FLOAT, skewness FLOAT, curtosis FLOAT, ";
  }

  lemma BanknoteUpToClass()
    ensures "CREATE TABLE original_data (variance FLOAT, skewness FLOAT, curtosis FLOAT, entropy FLOAT" + ", " + "class INT" + ")"
      == "CREATE TABLE original_data (variance FLOAT, skewness FLOAT, curtosis FLOAT, entropy FLOAT, class INT)"
  {
    assert "CREATE TABLE original_data (variance FLOAT, skewness FLOAT, curtosis FLOAT, entropy FLOAT" + ", "
      == "CREATE TABLE original_data (variance FLOAT, skewness FLOAT, curtosis FLOAT, entropy FLOAT, ";
    assert "CREATE TABLE original_data (variance FLOAT, skewness FLOAT, curtosis FLOAT, entropy FLOAT, " + "class INT"
      == "CREATE TABLE original_data (variance FLOAT, skewness FLOAT, curtosis FLOAT, entropy FLOAT, class INT";
  }

  lemma BanknoteColumnDefs()
    ensures ColumnDefs(BanknoteOriTable.columns) ==
      ["variance FLOAT", "skewness FLOAT", "curtosis FLOAT", "entropy FLOAT", "class INT"]
  {
    var cols := BanknoteOriTable.columns;
    assert "variance" + " " + "FLOAT" == "variance FLOAT";
    assert "skewness" + " " + "FLOAT" == "skewness FLOAT";
    assert "curtosis" + " " + "FLOAT" == "curtosis FLOAT";
    assert "entropy" + " " + "FLOAT" == "entropy FLOAT";
    assert "class" + " " + "INT" == "class INT";
    assert ColumnDefs(cols) == [ColumnDef(cols[0].0, cols[0].1), ColumnDef(cols[1].0, cols[1].1),
      ColumnDef(cols[2].0, cols[2].1), ColumnDef(cols[3].0, cols[3].1), ColumnDef(cols[4].0, cols[4].1)];
  }

  /** One new column on an existing table: a single ADD COLUMN and nothing else. */
  lemma NewColumnIsAdded()
    ensures var desired := [("a", ColumnSpec(Some("INT"), None)), ("b", ColumnSpec(Some("VARCHAR"), None))];
      var current := [("a", ColumnSpec(Some("INT"), None))];
      && Diff(desired, current) == [Op.AddColumn("b", ColumnSpec(Some("VARCHAR"), None))]
      && Statements("t", Diff(desired, current)) == [AddColumnSql("t", "b", ColumnSpec(Some("VARCHAR"), None))]
  {
    var desired := [("a", ColumnSpec(Some("INT"), None)), ("b", ColumnSpec(Some("VARCHAR"), None))];
    var current := [("a", ColumnSpec(Some("INT"), None))];
    assert desired[..1][..0] == [] && current[..0] == [];
    assert current[0].0 == "a" && desired[0].0 == "a";
    assert HasKey(current, "a") && HasKey(desired, "a");
    assert !HasKey(current, "b");
    assert Get(current, "a") == desired[0].1;
    assert Additions(desired[..1], current) == [];
    assert Additions(desired, current) == [Op.AddColumn("b", ColumnSpec(Some("VARCHAR"), None))];
    assert Modifications(desired[..1], current) == [];
    assert Modifications(desired, current) == [];
    var ops := Diff(desired, current);
    assert ops == [Op.AddColumn("b", ColumnSpec(Some("VARCHAR"), None))];
    assert ops[..0] == [];
  }

  /** A column the definition no longer lists: a single DROP COLUMN. */
  lemma MissingColumnIsDropped()
    ensures var desired := [("a", ColumnSpec(Some("INT"), None))];
      var current := [("a", ColumnSpec(Some("INT"), None)), ("b", ColumnSpec(Some("INT"), None))];
      && Diff(desired, current) == [Op.DropColumn("b")]
      && Statements("t", Diff(desired, current)) == [DropColumnSql("t", "b")]
  {
    var desired := [("a", ColumnSpec(Some("INT"), None))];
    var current := [("a", ColumnSpec(Some("INT"), None)), ("b", ColumnSpec(Some("INT"), None))];
    assert current[..1][..0] == [] && desired[..0] == [];
    assert current[0].0 == "a" && desired[0].0 == "a";
    assert HasKey(current, "a") && HasKey(desired, "a");
    assert !HasKey(desired, "b");
    assert Get(current, "a") == desired[0].1;
    assert Drops(current[..1], desired) == [];
    assert Drops(current, desired) == [Op.DropColumn("b")];
    assert Modifications(desired, current) == [];
    var ops := Diff(desired, current);
    assert ops == [Op.DropColumn("b")];
    assert ops[..0] == [];
  }

  /**
   * A changed type: one modification, sent as the type change followed by
   * DROP DEFAULT, since the desired default is absent.
   */
  lemma ChangedTypeIsModified()
    ensures var desired := [("a", ColumnSpec(Some("FLOAT"), None))];
      var current := [("a", ColumnSpec(Some("INT"), None))];
      && Diff(desired, current) == [Op.ModifyColumn("a", ColumnSpec(Some("FLOAT"), None))]
      && Statements("t", Diff(desired, current)) == [
        "ALTER TABLE " + "t" + " ALTER COLUMN " + "a" + " TYPE " + "FLOAT",
        "ALTER TABLE " + "t" + " ALTER COLUMN " + "a" + " DROP DEFAULT"]
  {
    var spec := ColumnSpec(Some("FLOAT"), None);
    OneColumnChanged("a", spec, ColumnSpec(Some("INT"), None));
    var ops := [Op.ModifyColumn("a", spec)];
    assert ops[..0] == [];
    assert Statements("t", ops) == Render("t", ops[0]);
  }
}
