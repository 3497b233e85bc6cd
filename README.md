# BankNote schema migrations in Dafny

This project models the schema migration engine of the BankNote data
pipeline: the `MigrationManager` class of `src/data/migrations.py`. Given a
table definition such as `BANKNOTE_ORI_TABLE`, `migrate_table` does four
things:

- It normalises the declared columns: names lower-cased, types upper-cased,
  defaults stringified and upper-cased.
- It reads the live columns of the table from `INFORMATION_SCHEMA.COLUMNS`
  and normalises them the same way.
- If the table has no columns, it sends one `CREATE TABLE`.
- Otherwise it sends `ALTER TABLE` statements in three fixed phases: add the
  missing columns, drop the extra ones, then modify the shared columns whose
  type or default differ. A modification is always an `ALTER COLUMN ... TYPE`
  followed by `SET DEFAULT` or `DROP DEFAULT`.

The modules follow the parts of that code:

- `wrappers.dfy` (`Wrappers`): `Option` and `Result`.
- `text.dfy` (`Text`): `str.upper`, `str.lower` on ASCII letters, and `str.join`.
- `ordered_dicts.dfy` (`OrderedDicts`): a Python dict as the sequence of its
  entries in insertion order. Assigning to a present key replaces the value
  in place; assigning to a new key appends an entry.
- `schema.dfy` (`Schema`): declared columns, catalog rows, and the normalised
  specs both become. It also holds the normalisation loop and
  `compare_column_specs`.
- `reconcile.dfy` (`Reconcile`): the three phases as operation sequences, and
  the SQL each operation becomes. `Apply` says what the table looks like once
  the statements have run.
- `migrations.dfy` (`Migrations`): the `Database` collaborator and the
  `MigrationManager` class with the source's methods.
  - `Database` appends every statement it is sent to `log`. Every query is
    answered with the same catalog rows.
  - Each method is proved against a function of its inputs: `MigrateTable`
    sends the catalog query and then exactly `MigrationDdl`.

Python values are modelled as follows:

- A declared column is a dict (`SpecDict`) or a plain string (`SpecText`).
- A dict's `"type"` entry is absent (`Missing`), `None` (`Null`), or a string.
- A default is `None` or the text `str()` gives for it.
- `None.upper()` raises `AttributeError`. The model turns that into the
  `TypeIsNone(column)` outcome: nothing is sent, since normalisation comes
  before the catalog query.

## Model

| member | source | states |
|---|---|---|
| Text.UpperIdempotent | src/data/migrations.py:70-74 | Upper-casing an upper-cased string changes nothing, so re-normalising a type or default is a no-op. |
| Text.LowerIdempotent | src/data/migrations.py:69-74 | Lower-casing a lower-cased column name changes nothing. |
| OrderedDicts.PutFacts | src/data/migrations.py:26-29 | After `d[k] = v`: `k` maps to `v`; every other key keeps its value; a present key keeps its place and a new key goes last; keys stay unique. |
| OrderedDicts.PutExisting | src/data/migrations.py:69-74 | Assigning to a present key (a name repeated up to case) keeps every key and its position and replaces only that value. |
| OrderedDicts.PutNew | src/data/migrations.py:69-74 | Assigning to a new key appends it and leaves the other keys where they were. |
| OrderedDicts.RemoveFacts | src/data/migrations.py:113-118 | Dropping a column keeps every other column with its spec and keeps names unique. |
| OrderedDicts.PutAt | src/data/migrations.py:104-135 | `d[k] = v` seen from one key: present iff present before or it is `k`; value `v` for `k`, old value otherwise. |
| OrderedDicts.RemoveAt | src/data/migrations.py:113-118 | Dropping `k` seen from one key: present iff present before and not `k`, with its old value. |
| OrderedDicts.FromPairsKeys | src/data/migrations.py:22-30 | The dict a loop of assignments builds has each assigned key exactly once and no other, in first-assignment order. |
| OrderedDicts.FromPairsGet | src/data/migrations.py:22-30 | A key ends up with the value of its last assignment. |
| OrderedDicts.FromPairsEntry | src/data/migrations.py:22-30 | Every entry of the built dict is one of the assigned pairs. |
| OrderedDicts.FromPairsOfDict | src/data/migrations.py:66-74 | Re-assigning the entries of a dict, in order, into an empty dict rebuilds that dict. |
| Schema.CurrentSchemaStep | src/data/migrations.py:23-29 | Each further catalog row is one more dict assignment on the schema built so far. |
| Schema.CurrentSchemaKeys | src/data/migrations.py:22-30 | The current schema's keys are exactly the lower-cased catalog column names, once each, in first-occurrence order. It is empty iff the catalog returned no rows. |
| Schema.CurrentSchemaValue | src/data/migrations.py:26-29 | For the last row of a name: type `None` iff the catalog type is `None` or `""`, else upper-cased; default `None` iff the catalog default is `None`, else upper-cased. |
| Schema.DesiredOfOutcome | src/data/migrations.py:66-74 | Normalisation fails iff some dict column has type `None`, naming the first such column. Otherwise it is the dict the loop's assignments build. |
| Schema.NormalizeDesired | src/data/migrations.py:66-74 | The normalisation loop returns the normalised dict, or stops at the first column whose type is `None`. |
| Schema.DesiredPrefixFailure | src/data/migrations.py:67-72 | Once a column with type `None` has raised, the columns after it do not change the outcome. |
| Schema.DesiredSchemaKeys | src/data/migrations.py:66-74 | The desired keys are exactly the lower-cased declared names, once each, in first-declaration order. |
| Schema.DesiredSchemaValue | src/data/migrations.py:67-74 | A name's spec comes from its last declaration. A plain string gives its upper-cased text and no default. A dict gives its upper-cased type, `""` for a missing type, and its default upper-cased or `None`. |
| Schema.DesiredIsNormal | src/data/migrations.py:66-74 | Every normalised desired dict has lower-case names, upper-case types and defaults, and a type on every column. |
| Schema.EntryNormal | src/data/migrations.py:69-74 | One normalised entry is in normal form and has a type. |
| Schema.AllEntriesKept | src/data/migrations.py:66-74 | A property of every assigned pair holds of every entry of the dict built from them. |
| Schema.DesiredIdempotent | src/data/migrations.py:66-74 | Normalising an already normalised definition gives the same dict. |
| Schema.RowsRoundTrip | src/data/migrations.py:11-30 | Reading back a normal schema with no empty type through the catalog gives that schema. |
| Schema.CurrentIdempotent | src/data/migrations.py:11-30 | Reading a current schema back through the catalog changes nothing. |
| Schema.CompareColumnSpecs | src/data/migrations.py:137-146 | True iff the types and the defaults are both equal. |
| Schema.CompareIsEquivalence | src/data/migrations.py:137-146 | The comparison is reflexive, symmetric and transitive. |
| Reconcile.AdditionsStep | src/data/migrations.py:88-90 | Each desired column adds one ADD COLUMN with its spec when the current schema lacks it, and nothing otherwise. |
| Reconcile.DropsStep | src/data/migrations.py:93-95 | Each current column adds one DROP COLUMN when the desired schema lacks it, and nothing otherwise. |
| Reconcile.ModificationsStep | src/data/migrations.py:98-102 | Each desired column adds one modification when the current schema has it and the comparison fails, and nothing otherwise. |
| Reconcile.AdditionsEntries | src/data/migrations.py:88-90 | Every addition is of a desired column the current schema lacks, with its desired spec. |
| Reconcile.AdditionsTouch | src/data/migrations.py:88-90 | Phase 1 is about column `k` iff `k` is desired and not current. |
| Reconcile.AdditionsOrder | src/data/migrations.py:88-90 | Additions come in the desired declaration order, each column at most once. |
| Reconcile.AdditionsFacts | src/data/migrations.py:88-90 | Phase 1 adds exactly the missing desired columns, each once with its desired spec, in desired order. |
| Reconcile.DropsEntries | src/data/migrations.py:93-95 | Every drop is of a current column the desired schema lacks. |
| Reconcile.DropsTouch | src/data/migrations.py:93-95 | Phase 2 is about column `k` iff `k` is current and not desired. |
| Reconcile.DropsOrder | src/data/migrations.py:93-95 | Drops come in the catalog's column order, each column at most once. |
| Reconcile.DropsFacts | src/data/migrations.py:93-95 | Phase 2 drops exactly the extra current columns, each once, in current order. |
| Reconcile.ModificationsEntries | src/data/migrations.py:98-102 | Every modification is of a shared column whose specs differ, to its desired spec. |
| Reconcile.ModificationsTouch | src/data/migrations.py:98-102 | Phase 3 is about `k` iff both schemas have `k` and `compare_column_specs` is false for it. |
| Reconcile.ModificationsOrder | src/data/migrations.py:98-102 | Modifications come in desired declaration order, each column at most once. |
| Reconcile.ModificationsFacts | src/data/migrations.py:98-102 | Phase 3 modifies exactly the shared columns whose specs differ, each once to its desired spec, in desired order. |
| Reconcile.PhaseKinds | src/data/migrations.py:87-102 | Phase 1 only adds, phase 2 only drops, phase 3 only modifies. |
| Reconcile.DiffPhases | src/data/migrations.py:87-102 | In the whole diff every addition precedes every drop, which precedes every modification. |
| Reconcile.DiffDistinct | src/data/migrations.py:87-102 | No two operations of the diff are about the same column; in particular no column is both added and dropped. |
| Reconcile.DiffShape | src/data/migrations.py:87-102 | Phase order and distinct columns over the whole diff together. |
| Reconcile.AdditionsAt | src/data/migrations.py:88-90 | Phase 1 touches `k` iff only the desired schema has it, and then adds `k` with its desired spec. |
| Reconcile.DropsAt | src/data/migrations.py:93-95 | Phase 2 touches `k` iff only the current schema has it, and then drops it. |
| Reconcile.ModificationsAt | src/data/migrations.py:98-102 | Phase 3 touches `k` iff its specs differ, and then sets the desired spec. |
| Reconcile.DiffAt | src/data/migrations.py:87-102 | For one column: add when only desired, drop when only current, modify to the desired spec when both differ, nothing otherwise. |
| Reconcile.ApplyUnique | src/data/migrations.py:104-135 | Running the statements keeps the table's column names unique. |
| Reconcile.ApplyValue | src/data/migrations.py:104-135 | After the statements, whether a column exists and its spec depend only on the last operation about it. An ADD or ALTER pair keeps the type and keeps the default only when it is truthy. |
| Reconcile.ApplyAt | src/data/migrations.py:104-135 | `ApplyValue` on a schema with unique names, which stay unique. |
| Reconcile.Convergence | src/data/migrations.py:57-102 | When no desired default is `""`, the statements leave exactly the desired columns, each with its desired spec, and a second diff is empty. |
| Reconcile.NothingLeft | src/data/migrations.py:87-102 | Two schemas with the same columns and specs produce no operations. |
| Reconcile.EmptyDefaultDiff | src/data/migrations.py:98-102 | A desired default `""` against a NULL default gives one modification. |
| Reconcile.EmptyDefaultNeverSettles | src/data/migrations.py:129-132 | That modification sends DROP DEFAULT, since `""` is falsy. The table stays as it was, so the same modification is due on every run. |
| Reconcile.StatementsSnoc | src/data/migrations.py:87-102 | One more operation appends exactly its own statements. |
| Reconcile.RenderIsAlter | src/data/migrations.py:104-135 | Every statement of one operation starts with `ALTER TABLE <table>`. |
| Reconcile.StatementsShape | src/data/migrations.py:87-135 | Every ALTER-phase statement starts with `ALTER TABLE <table>`. There is one statement per operation plus one more per modification. |
| Migrations.ColumnDefsInOrder | src/data/migrations.py:39-48 | One CREATE TABLE column definition per declared column, in declaration order, each starting with the name as declared. |
| Migrations.Database.constructor | src/data/db.py:5-10 | Stands for a connected handle: it has sent nothing yet, and every query is answered with the given catalog rows. |
| Migrations.Database.ExecuteQuery | src/data/db.py:28-39 | Sending a statement appends it to the log and returns the catalog rows. |
| Migrations.MigrationManager.constructor | src/data/migrations.py:7-9 | The manager keeps the database it is given. |
| Migrations.MigrationManager.GetCurrentSchema | src/data/migrations.py:11-30 | Sends exactly the catalog query, with the table name upper-cased. Returns the schema the catalog rows build. |
| Migrations.MigrationManager.CreateTable | src/data/migrations.py:32-54 | Sends exactly one `CREATE TABLE <name> (<defs>)`, with the raw definitions joined by `", "`. |
| Migrations.MigrationManager.MigrateTable | src/data/migrations.py:56-102 | With a `None` type: sends nothing, reports the column. Otherwise: sends the catalog query, then one CREATE TABLE if the table has no columns, else the statements of additions, drops and modifications in that order. |
| Migrations.MigrationManager.AddMissingColumns | src/data/migrations.py:88-90 | The add loop sends exactly the statements of phase 1, in order. |
| Migrations.MigrationManager.DropExtraColumns | src/data/migrations.py:93-95 | The drop loop sends exactly the statements of phase 2, in order. |
| Migrations.MigrationManager.ModifyChangedColumns | src/data/migrations.py:98-102 | The modify loop sends exactly the statements of phase 3, in order. |
| Migrations.MigrationManager.AddColumn | src/data/migrations.py:104-111 | Sends one ADD COLUMN, with a DEFAULT clause only for a truthy default. |
| Migrations.MigrationManager.DropColumn | src/data/migrations.py:113-118 | Sends one DROP COLUMN. |
| Migrations.MigrationManager.ModifyColumn | src/data/migrations.py:120-135 | Sends two statements: the type change, then SET DEFAULT for a truthy default or DROP DEFAULT otherwise. |
| Migrations.AdditionStatementsRendered | src/data/migrations.py:88-90 | What the add loop has sent after `i` columns is the rendering of phase 1 on those columns. |
| Migrations.DropStatementsRendered | src/data/migrations.py:93-95 | What the drop loop has sent after `j` columns is the rendering of phase 2 on those columns. |
| Migrations.ModificationStatementsRendered | src/data/migrations.py:98-102 | What the modify loop has sent after `m` columns is the rendering of phase 3 on those columns. |
| Migrations.StatementsAppend | src/data/migrations.py:87-102 | The statements of two operation sequences run in turn are the first's followed by the second's. |
| Migrations.CreateOnlyWhenAbsent | src/data/migrations.py:81-102 | No catalog rows: exactly one CREATE TABLE and nothing after it. Otherwise only ALTER TABLE statements on that table. |
| Migrations.SecondRunIssuesOnlyTheQuery | src/data/migrations.py:56-102 | Idempotence: a second run sends only the catalog query, provided the catalog reports each column's type and default exactly as the first run's statements wrote them. Needs a non-empty definition and no empty type or default. |
| Migrations.InSyncIssuesOnlyTheQuery | src/data/migrations.py:56-102 | A run against a catalog that lists the desired columns, each with its normalised type and default as written, sends only the catalog query. Needs a non-empty definition and no empty type or default. |
| Migrations.BaseTypeIsModifiedAgain | src/data/migrations.py:97-102 | A column declared `VARCHAR(10)` that the catalog reports as `varchar` fails the comparison, so the run sends the TYPE change and DROP DEFAULT again. |
| Migrations.OneColumnModified | src/data/migrations.py:97-102 | One declared column against one catalog row of the same name with a different spec: the run sends exactly that column's TYPE change and default statement. |
| Migrations.BanknoteQuery | src/data/migrations.py:16-20 | The catalog query for `original_data` asks for `ORIGINAL_DATA`. |
| Migrations.BanknoteTableIsCreated | src/data/migrations.py:36-53 | Against an empty catalog the banknote table gets exactly `CREATE TABLE original_data (variance FLOAT, skewness FLOAT, curtosis FLOAT, entropy FLOAT, class INT)`. |
| Migrations.BanknoteColumnDefs | src/data/models.py:3-14 | The five banknote columns render as `variance FLOAT`, …, `class INT`, with no DEFAULT clause. |
| Migrations.NewColumnIsAdded | src/data/migrations.py:88-90 | One new column on an existing table: exactly one ADD COLUMN. |
| Migrations.MissingColumnIsDropped | src/data/migrations.py:93-95 | One column the definition no longer lists: exactly one DROP COLUMN. |
| Migrations.ChangedTypeIsModified | src/data/migrations.py:97-102 | A changed type with no default gives the TYPE change followed by DROP DEFAULT. |

## Left out

- Printing: every `print` of the source has no counterpart.
- The `__main__` block and the imports at the top of the file are not modelled. The imports name a `SnowflakeDB` and a `USER_TABLE` that the other files do not define.
- The database is an abstract log of statements with fixed catalog rows.
  - Connecting, cursors and network I/O are not modelled.
  - `execute_query` (src/data/db.py:28-39) swallows errors and returns `None`. That path is not modelled, so a failed catalog query (iterating over `None`) and a failed ALTER part way through a phase do not occur.
  - The other source files (file loading, feature engineering, training, prediction, re-exports) are not part of this model.
- Case folding covers ASCII letters only. Python's `upper`/`lower` also fold other Unicode letters.
- A default is held as the text `str()` gives for it. How Python renders non-string defaults such as numbers is not modelled, and neither is a catalog default that is not text.
- A declared column is a dict or a string. Any other Python value, whose `.upper()` would raise, is not modelled. Neither are dicts whose keys are not strings, or duplicate keys in a dict literal.
- Catalog rows are triples of name, type and default. Their shape as returned by the driver is not modelled.
- The phases of `migrate_table` are three loops inside one method. The model splits them into `AddMissingColumns`, `DropExtraColumns` and `ModifyChangedColumns`, each with the loop's body unchanged.
- The model follows the code as written, including three behaviours a reader might not expect:
  - A missing desired type becomes `""` and is not rejected up front.
  - `SET DEFAULT` is chosen by truthiness, so a `""` default is dropped.
  - No error type reports the failing statement.
- Reconcile.Convergence: requires that no desired default is `""`. Without that, `EmptyDefaultNeverSettles` shows the diff does not settle.
- Migrations.SecondRunIssuesOnlyTheQuery: requires a non-empty definition, and no column whose type or default is `""`.
  - If all columns are dropped, the catalog lists none, and the next run sends CREATE TABLE.
  - The catalog reports an empty type as `None`, which never matches `""`.
  - It assumes the catalog reports each type and default exactly as the statements wrote them. A real MySQL catalog reports `DATA_TYPE` without its length or precision (`varchar` for `VARCHAR(10)`). Then the comparison fails on every run and the column is modified again, as `BaseTypeIsModifiedAgain` shows.
- Migrations.InSyncIssuesOnlyTheQuery: assumes the catalog lists each desired column with its type and default exactly as declared, after normalisation. It requires a non-empty definition, and no column whose type or default is `""`. A catalog that reports only base types falls outside it, as `BaseTypeIsModifiedAgain` shows.
- Apply: models how the table would list its columns after the statements run. Where the database places an added column is an assumption: it goes last, as the catalog order the model assumes.
- Migrations.CreateOnlyWhenAbsent: covers the statements sent, not how the catalog looks after CREATE TABLE. That depends on how the database folds the case of the table name in the catalog query.
