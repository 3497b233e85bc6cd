/**
 * Column specifications as `MigrationManager` sees them: the declared table
 * definition, the rows of the `INFORMATION_SCHEMA.COLUMNS` query, and the
 * normalised form both are turned into before they are compared.
 */
module Schema {
  import opened Wrappers
  import opened Text
  import opened OrderedDicts

  /** The `"type"` entry of a column declared as a dict: absent, `None`, or a string. */
  datatype TypeEntry = Missing | Null | Named(name: string)

  /**
   * A declared column: a dict with a type entry and a default (absent and
   * `None` alike are `None`; a present default is held as its `str()`
   * text), or a plain string naming the type.
   */
  datatype ColumnDecl = SpecDict(typeEntry: TypeEntry, default: Option<string>) | SpecText(text: string)

  /** A table definition such as `BANKNOTE_ORI_TABLE`: its name and its columns. */
  datatype TableDef = TableDef(name: string, columns: Dict<ColumnDecl>)

  /** A normalised column: `{"type": ..., "default": ...}`. */
  datatype ColumnSpec = ColumnSpec(sqlType: Option<string>, default: Option<string>)

  /** One row of the catalog query: COLUMN_NAME, DATA_TYPE, COLUMN_DEFAULT (its `str()` text). */
  datatype CatalogRow = CatalogRow(columnName: string, dataType: Option<string>, columnDefault: Option<string>)

  /** A default is upper-cased when present and stays `None` when absent. */
  function NormalDefault(d: Option<string>): (r: Option<string>)
  {
    match d
    case None => None
    case Some(s) => Some(Upper(s))
  }

  // ---------------------------------------------------------------------------
  // The current schema (get_current_schema)
  // ---------------------------------------------------------------------------

  /** The dict entry one catalog row contributes. */
  function CatalogEntry(row: CatalogRow): (r: (string, ColumnSpec))
  {
    var sqlType := if row.dataType == None || row.dataType == Some("") then None else Some(Upper(row.dataType.value));
    (Lower(row.columnName), ColumnSpec(sqlType, NormalDefault(row.columnDefault)))
  }

  function CatalogPairs(rows: seq<CatalogRow>): (r: seq<(string, ColumnSpec)>)
  {
    seq(|rows|, i requires 0 <= i < |rows| => CatalogEntry(rows[i]))
  }

  /** The dict `get_current_schema` returns for the rows the catalog answered with. */
  function CurrentSchemaOf(rows: seq<CatalogRow>): (r: Dict<ColumnSpec>)
  {
    FromPairs(CatalogPairs(rows))
  }

  /** Each further catalog row is one more `Put` on the schema built so far. */
  lemma CurrentSchemaStep(rows: seq<CatalogRow>, i: nat)
    requires i < |rows|
    ensures CurrentSchemaOf(rows[..i + 1]) == Put(CurrentSchemaOf(rows[..i]), CatalogEntry(rows[i]).0, CatalogEntry(rows[i]).1)
  {
    assert CatalogPairs(rows[..i + 1])[..i] == CatalogPairs(rows[..i]);
  }

  /**
   * The current schema has one entry per lower-cased catalog column name and
   * no other, in the order the names first appear; it is empty exactly when
   * the catalog returned no row (the table does not exist).
   */
  lemma CurrentSchemaKeys(rows: seq<CatalogRow>)
    ensures UniqueKeys(CurrentSchemaOf(rows))
    ensures forall k :: HasKey(CurrentSchemaOf(rows), k) <==>
              exists i :: 0 <= i < |rows| && Lower(rows[i].columnName) == k
    ensures InFirstOccurrenceOrder(CurrentSchemaOf(rows), CatalogPairs(rows))
    ensures CurrentSchemaOf(rows) == [] <==> rows == []
  {
    var ps := CatalogPairs(rows);
    FromPairsKeys(ps);
    forall k ensures HasKey(ps, k) <==> exists i :: 0 <= i < |rows| && Lower(rows[i].columnName) == k {
      if HasKey(ps, k) {
        var i :| 0 <= i < |ps| && ps[i].0 == k;
        assert Lower(rows[i].columnName) == k;
      }
      if exists i :: 0 <= i < |rows| && Lower(rows[i].columnName) == k {
        var i :| 0 <= i < |rows| && Lower(rows[i].columnName) == k;
        assert ps[i].0 == k;
      }
    }
    if rows != [] {
      assert HasKey(CurrentSchemaOf(rows), ps[0].0);
    }
  }

  /**
   * A column named by several rows (names differing only in case) takes the
   * spec of the last of them: its type upper-cased, or `None` when the
   * catalog type is `None` or empty, and its default upper-cased, or `None`
   * exactly when the catalog default is NULL.
   */
  lemma CurrentSchemaValue(rows: seq<CatalogRow>, i: nat)
    requires i < |rows|
    requires forall j :: i < j < |rows| ==> Lower(rows[j].columnName) != Lower(rows[i].columnName)
    ensures HasKey(CurrentSchemaOf(rows), Lower(rows[i].columnName))
    ensures var spec := Get(CurrentSchemaOf(rows), Lower(rows[i].columnName));
      && (spec.sqlType == None <==> rows[i].dataType == None || rows[i].dataType == Some(""))
      && (spec.sqlType.Some? ==> spec.sqlType.value == Upper(rows[i].dataType.value))
      && (spec.default == None <==> rows[i].columnDefault == None)
      && (spec.default.Some? ==> spec.default.value == Upper(rows[i].columnDefault.value))
  {
    FromPairsGet(CatalogPairs(rows), Lower(rows[i].columnName), i);
  }

  // ---------------------------------------------------------------------------
  // The desired schema (the normalisation at the start of migrate_table)
  // ---------------------------------------------------------------------------

  /** A dict column whose `"type"` is `None`: `None.upper()` raises. */
  predicate NullTyped(decl: ColumnDecl)
  {
    decl.SpecDict? && decl.typeEntry.Null?
  }

  /** The normalised spec of a declared column whose type is not `None`. */
  function DeclaredSpec(decl: ColumnDecl): (r: ColumnSpec)
    requires !NullTyped(decl)
  {
    match decl
    case SpecText(text) => ColumnSpec(Some(Upper(text)), None)
    case SpecDict(typeEntry, default) =>
      var name := if typeEntry.Named? then typeEntry.name else "";
      ColumnSpec(Some(Upper(name)), NormalDefault(default))
  }

  /**
   * The normalised desired schema, or the name of the column whose `None`
   * type stopped the loop; entries are visited in declaration order.
   */
  function DesiredOf(columns: Dict<ColumnDecl>): (r: Result<Dict<ColumnSpec>, string>)
  {
    if |columns| == 0 then Success([])
    else
      var (col, decl) := columns[|columns| - 1];
      match DesiredOf(columns[..|columns| - 1])
      case Failure(e) => Failure(e)
      case Success(d) =>
        if NullTyped(decl) then Failure(col) else Success(Put(d, Lower(col), DeclaredSpec(decl)))
  }

  /** The pairs the normalisation loop assigns, when no type is `None`. */
  function DeclPairs(columns: Dict<ColumnDecl>): (r: seq<(string, ColumnSpec)>)
    requires forall i :: 0 <= i < |columns| ==> !NullTyped(columns[i].1)
  {
    seq(|columns|, i requires 0 <= i < |columns| => (Lower(columns[i].0), DeclaredSpec(columns[i].1)))
  }

  /**
   * Normalisation fails exactly when some type is `None`, and then names the
   * first such column; otherwise it is the dict the assignments build.
   */
  lemma {:induction false} DesiredOfOutcome(columns: Dict<ColumnDecl>)
    ensures DesiredOf(columns).Success? <==> forall i :: 0 <= i < |columns| ==> !NullTyped(columns[i].1)
    ensures DesiredOf(columns).Success? ==> DesiredOf(columns).value == FromPairs(DeclPairs(columns))
    ensures DesiredOf(columns).Failure? ==>
              exists i :: 0 <= i < |columns| && NullTyped(columns[i].1) && columns[i].0 == DesiredOf(columns).error
                && forall j :: 0 <= j < i ==> !NullTyped(columns[j].1)
  {
    if |columns| > 0 {
      var n := |columns| - 1;
      var init := columns[..n];
      DesiredOfOutcome(init);
      assert forall i :: 0 <= i < n ==> init[i] == columns[i];
      match DesiredOf(init)
      case Failure(e) =>
        assert DesiredOf(columns) == Failure(e);
        var i :| 0 <= i < n && NullTyped(init[i].1) && init[i].0 == e
          && forall j :: 0 <= j < i ==> !NullTyped(init[j].1);
        assert columns[i] == init[i];
      case Success(d) =>
        if NullTyped(columns[n].1) {
          assert DesiredOf(columns) == Failure(columns[n].0);
        } else {
          DesiredStep(columns);
        }
    }
  }

  /** The last assignment of the loop extends the dict built from the first ones. */
  lemma DesiredStep(columns: Dict<ColumnDecl>)
    requires |columns| > 0
    requires forall i :: 0 <= i < |columns| ==> !NullTyped(columns[i].1)
    requires DesiredOf(columns[..|columns| - 1]) == Success(FromPairs(DeclPairs(columns[..|columns| - 1])))
    ensures DesiredOf(columns) == Success(FromPairs(DeclPairs(columns)))
  {
    var n := |columns| - 1;
    var init := columns[..n];
    var ps := DeclPairs(columns);
    var prefix := DeclPairs(init);
    assert |ps[..n]| == |prefix|;
    forall i | 0 <= i < n ensures ps[..n][i] == prefix[i] {
      assert init[i] == columns[i];
    }
    assert ps[..n] == prefix;
    var last := (Lower(columns[n].0), DeclaredSpec(columns[n].1));
    assert ps[n] == last;
    assert FromPairs(ps) == Put(FromPairs(prefix), last.0, last.1);
  }

  /** The normalisation loop of `migrate_table`. */
  method NormalizeDesired(columns: Dict<ColumnDecl>) returns (r: Result<Dict<ColumnSpec>, string>)
    ensures r == DesiredOf(columns)
  {
    var normalized: Dict<ColumnSpec> := [];
    var i := 0;
    while i < |columns|
      invariant 0 <= i <= |columns|
      invariant DesiredOf(columns[..i]) == Success(normalized)
    {
      var (col, decl) := columns[i];
      assert columns[..i + 1][..i] == columns[..i];
      if NullTyped(decl) {
        assert DesiredOf(columns[..i + 1]) == Failure(col);
        DesiredPrefixFailure(columns, i + 1);
        return Failure(col);
      }
      normalized := Put(normalized, Lower(col), DeclaredSpec(decl));
      i := i + 1;
    }
    assert columns[..i] == columns;
    return Success(normalized);
  }

  /** Once a prefix fails, the whole normalisation fails the same way. */
  lemma {:induction false} DesiredPrefixFailure(columns: Dict<ColumnDecl>, m: nat)
    requires m <= |columns| && DesiredOf(columns[..m]).Failure?
    ensures DesiredOf(columns) == DesiredOf(columns[..m])
    decreases |columns| - m
  {
    if m < |columns| {
      assert columns[..m + 1][..m] == columns[..m];
      DesiredPrefixFailure(columns, m + 1);
    } else {
      assert columns[..m] == columns;
    }
  }

  /**
   * The desired dict has one entry per lower-cased declared name and no
   * other, in the order the names are first declared.
   */
  lemma DesiredSchemaKeys(columns: Dict<ColumnDecl>)
    requires DesiredOf(columns).Success?
    ensures UniqueKeys(DesiredOf(columns).value)
    ensures forall k :: HasKey(DesiredOf(columns).value, k) <==>
              exists j :: 0 <= j < |columns| && Lower(columns[j].0) == k
    ensures InFirstOccurrenceOrder(DesiredOf(columns).value, LoweredNames(columns))
  {
    DesiredOfOutcome(columns);
    var ps := DeclPairs(columns);
    FromPairsKeys(ps);
    forall k ensures HasKey(ps, k) <==> exists j :: 0 <= j < |columns| && Lower(columns[j].0) == k {
      if HasKey(ps, k) {
        var j :| 0 <= j < |ps| && ps[j].0 == k;
        assert Lower(columns[j].0) == k;
      }
      if exists j :: 0 <= j < |columns| && Lower(columns[j].0) == k {
        var j :| 0 <= j < |columns| && Lower(columns[j].0) == k;
        assert ps[j].0 == k;
      }
    }
    OrderTransfer(DesiredOf(columns).value, ps, LoweredNames(columns));
  }

  /** The declared columns under their lower-cased names. */
  function LoweredNames(columns: Dict<ColumnDecl>): (r: Dict<ColumnDecl>)
  {
    seq(|columns|, i requires 0 <= i < |columns| => (Lower(columns[i].0), columns[i].1))
  }

  /**
   * A name declared twice (differing only in case) keeps the spec of its
   * last declaration: the type upper-cased, `""` for a missing type, the
   * default upper-cased or `None`, and a `None` default for a plain-string
   * declaration.
   */
  lemma DesiredSchemaValue(columns: Dict<ColumnDecl>, i: nat)
    requires DesiredOf(columns).Success?
    requires i < |columns|
    requires forall j :: i < j < |columns| ==> Lower(columns[j].0) != Lower(columns[i].0)
    ensures HasKey(DesiredOf(columns).value, Lower(columns[i].0))
    ensures var spec := Get(DesiredOf(columns).value, Lower(columns[i].0));
      match columns[i].1
      case SpecText(text) => spec == ColumnSpec(Some(Upper(text)), None)
      case SpecDict(Missing, default) => spec == ColumnSpec(Some(""), NormalDefault(default))
      case SpecDict(Named(name), default) => spec == ColumnSpec(Some(Upper(name)), NormalDefault(default))
      case SpecDict(Null, _) => false
  {
    DesiredOfOutcome(columns);
    FromPairsGet(DeclPairs(columns), Lower(columns[i].0), i);
    assert Upper("") == "";
  }

  // ---------------------------------------------------------------------------
  // Normal form and idempotence of normalisation
  // ---------------------------------------------------------------------------

  /** An entry that normalisation leaves as it is: lower-case name, upper-case type and default. */
  predicate NormalEntry(e: (string, ColumnSpec))
  {
    && Lower(e.0) == e.0
    && (e.1.sqlType.Some? ==> Upper(e.1.sqlType.value) == e.1.sqlType.value)
    && NormalDefault(e.1.default) == e.1.default
  }

  /** A dict that is a valid dict of normal entries. */
  predicate NormalSchema(d: Dict<ColumnSpec>)
  {
    UniqueKeys(d) && forall i :: 0 <= i < |d| ==> NormalEntry(d[i])
  }

  /** Every normalised desired dict is in normal form, with a type on every column. */
  lemma DesiredIsNormal(columns: Dict<ColumnDecl>)
    requires DesiredOf(columns).Success?
    ensures NormalSchema(DesiredOf(columns).value)
    ensures forall i :: 0 <= i < |DesiredOf(columns).value| ==> DesiredOf(columns).value[i].1.sqlType.Some?
  {
    DesiredOfOutcome(columns);
    var ps := DeclPairs(columns);
    FromPairsKeys(ps);
    forall i | 0 <= i < |ps| ensures NormalEntry(ps[i]) && ps[i].1.sqlType.Some? {
      EntryNormal(columns[i]);
    }
    AllEntriesKept(ps);
  }

  lemma EntryNormal(c: (string, ColumnDecl))
    requires !NullTyped(c.1)
    ensures NormalEntry((Lower(c.0), DeclaredSpec(c.1))) && DeclaredSpec(c.1).sqlType.Some?
  {
    LowerIdempotent(c.0);
    match c.1
    case SpecText(text) => UpperIdempotent(text);
    case SpecDict(typeEntry, default) =>
      if typeEntry.Named? { UpperIdempotent(typeEntry.name); }
      if default.Some? { UpperIdempotent(default.value); }
  }

  /** A property of every pair holds of every entry of the dict the pairs build. */
  lemma AllEntriesKept(ps: seq<(string, ColumnSpec)>)
    requires forall i :: 0 <= i < |ps| ==> NormalEntry(ps[i])
    ensures forall i :: 0 <= i < |FromPairs(ps)| ==> NormalEntry(FromPairs(ps)[i])
    ensures (forall i :: 0 <= i < |ps| ==> ps[i].1.sqlType.Some?) ==>
              forall i :: 0 <= i < |FromPairs(ps)| ==> FromPairs(ps)[i].1.sqlType.Some?
    ensures (forall i :: 0 <= i < |ps| ==> ps[i].1.sqlType != Some("")) ==>
              forall i :: 0 <= i < |FromPairs(ps)| ==> FromPairs(ps)[i].1.sqlType != Some("")
  {
    forall i | 0 <= i < |FromPairs(ps)|
      ensures exists j :: 0 <= j < |ps| && FromPairs(ps)[i] == ps[j]
    {
      var j := FromPairsEntry(ps, i);
    }
  }

  /** A normal declaration of a normalised spec, as `migrate_table` would read it. */
  function AsDecls(d: Dict<ColumnSpec>): (r: Dict<ColumnDecl>)
  {
    seq(|d|, i requires 0 <= i < |d| =>
      (d[i].0, SpecDict(if d[i].1.sqlType.Some? then Named(d[i].1.sqlType.value) else Null, d[i].1.default)))
  }

  /** Normalising an already normalised desired schema changes nothing. */
  lemma DesiredIdempotent(columns: Dict<ColumnDecl>)
    requires DesiredOf(columns).Success?
    ensures DesiredOf(AsDecls(DesiredOf(columns).value)) == DesiredOf(columns)
  {
    var d := DesiredOf(columns).value;
    DesiredIsNormal(columns);
    var decls := AsDecls(d);
    DesiredOfOutcome(decls);
    assert DeclPairs(decls) == d;
    FromPairsOfDict(d);
  }

  /** The catalog rows of a table whose columns have the given specs. */
  function RowsOf(d: Dict<ColumnSpec>): (r: seq<CatalogRow>)
  {
    seq(|d|, i requires 0 <= i < |d| => CatalogRow(d[i].0, d[i].1.sqlType, d[i].1.default))
  }

  /**
   * Reading back a normal schema with no empty type from the catalog gives that
   * schema again.
   */
  lemma RowsRoundTrip(d: Dict<ColumnSpec>)
    requires NormalSchema(d)
    requires forall i :: 0 <= i < |d| ==> d[i].1.sqlType != Some("")
    ensures CurrentSchemaOf(RowsOf(d)) == d
  {
    assert CatalogPairs(RowsOf(d)) == d;
    FromPairsOfDict(d);
  }

  /** Re-reading the current schema through the catalog changes nothing. */
  lemma CurrentIdempotent(rows: seq<CatalogRow>)
    ensures CurrentSchemaOf(RowsOf(CurrentSchemaOf(rows))) == CurrentSchemaOf(rows)
  {
    var ps := CatalogPairs(rows);
    forall i | 0 <= i < |ps| ensures NormalEntry(ps[i]) && ps[i].1.sqlType != Some("") {
      var row := rows[i];
      LowerIdempotent(row.columnName);
      if row.dataType.Some? { UpperIdempotent(row.dataType.value); }
      if row.columnDefault.Some? { UpperIdempotent(row.columnDefault.value); }
    }
    AllEntriesKept(ps);
    FromPairsKeys(ps);
    RowsRoundTrip(CurrentSchemaOf(rows));
  }

  // ---------------------------------------------------------------------------
  // compare_column_specs
  // ---------------------------------------------------------------------------

  /** Two normalised specs match when type and default are both equal. */
  function CompareColumnSpecs(desired: ColumnSpec, current: ColumnSpec): (r: bool)
    ensures r <==> desired == current
  {
    desired.sqlType == current.sqlType && desired.default == current.default
  }

  /** Matching is an equivalence: reflexive, symmetric and transitive. */
  lemma CompareIsEquivalence(a: ColumnSpec, b: ColumnSpec, c: ColumnSpec)
    ensures CompareColumnSpecs(a, a)
    ensures CompareColumnSpecs(a, b) ==> CompareColumnSpecs(b, a)
    ensures CompareColumnSpecs(a, b) && CompareColumnSpecs(b, c) ==> CompareColumnSpecs(a, c)
  {
  }
}
