/**
 * The comparison `migrate_table` makes once the table exists: which columns
 * to add, to drop and to modify, in which order, the ALTER TABLE statements
 * each of them becomes, and what the table looks like once they have run.
 */
module Reconcile {
  import opened Wrappers
  import opened OrderedDicts
  import opened Schema

  /** Python truthiness of a default: `None` and `""` are false. */
  predicate Truthy(d: Option<string>)
  {
    d.Some? && d.value != ""
  }

  /** One schema change, before it is rendered as SQL. */
  datatype Op = AddColumn(column: string, spec: ColumnSpec) | DropColumn(column: string) | ModifyColumn(column: string, spec: ColumnSpec)

  /** Some operation of `ops` is about column `k`. */
  predicate Touches(ops: seq<Op>, k: string)
  {
    exists i :: 0 <= i < |ops| && ops[i].column == k
  }

  /** An operation about `k` is in `a + b` exactly when it is in `a` or in `b`. */
  lemma TouchesAppend(a: seq<Op>, b: seq<Op>, k: string)
    ensures Touches(a + b, k) <==> Touches(a, k) || Touches(b, k)
  {
    if Touches(a + b, k) {
      var i :| 0 <= i < |a + b| && (a + b)[i].column == k;
      if i < |a| { assert a[i].column == k; } else { assert b[i - |a|].column == k; }
    }
    if Touches(a, k) {
      var i :| 0 <= i < |a| && a[i].column == k;
      assert (a + b)[i].column == k;
    }
    if Touches(b, k) {
      var i :| 0 <= i < |b| && b[i].column == k;
      assert (a + b)[|a| + i].column == k;
    }
  }

  /** A one-operation sequence is about that operation's column only. */
  lemma TouchesSingle(op: Op, k: string)
    ensures Touches([op], k) <==> op.column == k
  {
    if op.column == k { assert [op][0].column == k; }
  }

  // ---------------------------------------------------------------------------
  // The three phases
  // ---------------------------------------------------------------------------

  /** Phase 1: the desired columns the current schema lacks, in desired order. */
  function Additions(desired: Dict<ColumnSpec>, current: Dict<ColumnSpec>): (r: seq<Op>)
  {
    if |desired| == 0 then []
    else
      var (col, spec) := desired[|desired| - 1];
      Additions(desired[..|desired| - 1], current) + if HasKey(current, col) then [] else [AddColumn(col, spec)]
  }

  /** Phase 2: the current columns the desired schema lacks, in current order. */
  function Drops(current: Dict<ColumnSpec>, desired: Dict<ColumnSpec>): (r: seq<Op>)
  {
    if |current| == 0 then []
    else
      var col := current[|current| - 1].0;
      Drops(current[..|current| - 1], desired) + if HasKey(desired, col) then [] else [DropColumn(col)]
  }

  /** Phase 3: the shared columns whose specs do not match, in desired order. */
  function Modifications(desired: Dict<ColumnSpec>, current: Dict<ColumnSpec>): (r: seq<Op>)
  {
    if |desired| == 0 then []
    else
      var (col, spec) := desired[|desired| - 1];
      Modifications(desired[..|desired| - 1], current) +
        if HasKey(current, col) && !CompareColumnSpecs(spec, Get(current, col)) then [ModifyColumn(col, spec)] else []
  }

  /** Everything `migrate_table` does to an existing table, phase after phase. */
  function Diff(desired: Dict<ColumnSpec>, current: Dict<ColumnSpec>): (r: seq<Op>)
  {
    Additions(desired, current) + Drops(current, desired) + Modifications(desired, current)
  }

  /** Phase 1 grows by at most one addition per desired column. */
  lemma AdditionsStep(desired: Dict<ColumnSpec>, current: Dict<ColumnSpec>, i: nat)
    requires i < |desired|
    ensures HasKey(current, desired[i].0) ==> Additions(desired[..i + 1], current) == Additions(desired[..i], current)
    ensures !HasKey(current, desired[i].0) ==>
      Additions(desired[..i + 1], current) == Additions(desired[..i], current) + [AddColumn(desired[i].0, desired[i].1)]
  {
    assert desired[..i + 1][..i] == desired[..i];
  }

  /** Phase 2 grows by at most one drop per current column. */
  lemma DropsStep(current: Dict<ColumnSpec>, desired: Dict<ColumnSpec>, j: nat)
    requires j < |current|
    ensures HasKey(desired, current[j].0) ==> Drops(current[..j + 1], desired) == Drops(current[..j], desired)
    ensures !HasKey(desired, current[j].0) ==>
      Drops(current[..j + 1], desired) == Drops(current[..j], desired) + [DropColumn(current[j].0)]
  {
    assert current[..j + 1][..j] == current[..j];
  }

  /** Phase 3 grows by at most one modification per desired column. */
  lemma ModificationsStep(desired: Dict<ColumnSpec>, current: Dict<ColumnSpec>, i: nat)
    requires i < |desired|
    ensures !HasKey(current, desired[i].0) ==> Modifications(desired[..i + 1], current) == Modifications(desired[..i], current)
    ensures HasKey(current, desired[i].0) && CompareColumnSpecs(desired[i].1, Get(current, desired[i].0)) ==>
      Modifications(desired[..i + 1], current) == Modifications(desired[..i], current)
    ensures HasKey(current, desired[i].0) && !CompareColumnSpecs(desired[i].1, Get(current, desired[i].0)) ==>
      Modifications(desired[..i + 1], current) == Modifications(desired[..i], current) + [ModifyColumn(desired[i].0, desired[i].1)]
  {
    assert desired[..i + 1][..i] == desired[..i];
  }

  /** Both are keys of `d`, and `d` lists `a` before `b`. */
  predicate Before<V>(d: Dict<V>, a: string, b: string)
  {
    HasKey(d, a) && HasKey(d, b) && IndexOf(d, a) < IndexOf(d, b)
  }

  /** The operations' columns are keys of `d`, in the order `d` lists them. */
  predicate InKeyOrder<V>(d: Dict<V>, ops: seq<Op>)
  {
    forall i, j :: 0 <= i < j < |ops| ==> Before(d, ops[i].column, ops[j].column)
  }

  /** An entry at the end of a dictionary keeps the order of the keys before it. */
  lemma InKeyOrderSnoc<V>(d: Dict<V>, x: (string, V), ops: seq<Op>)
    requires InKeyOrder(d, ops)
    ensures InKeyOrder(d + [x], ops)
  {
    forall i, j | 0 <= i < j < |ops| ensures Before(d + [x], ops[i].column, ops[j].column) {
      assert Before(d, ops[i].column, ops[j].column);
      IndexOfSnoc(d, x, ops[i].column);
      IndexOfSnoc(d, x, ops[j].column);
    }
  }

  /** An operation on a key later than every column so far extends the order. */
  lemma InKeyOrderAppend<V>(d: Dict<V>, ops: seq<Op>, op: Op)
    requires InKeyOrder(d, ops) && HasKey(d, op.column)
    requires forall o :: o in ops ==> HasKey(d, o.column) && IndexOf(d, o.column) < IndexOf(d, op.column)
    ensures InKeyOrder(d, ops + [op])
  {
    var r := ops + [op];
    forall i, j | 0 <= i < j < |r| ensures Before(d, r[i].column, r[j].column) {
      assert r[i] == ops[i] && ops[i] in ops;
      if j < |ops| {
        assert r[j] == ops[j];
      }
    }
  }

  /** A value at the end of a dictionary leaves the values of the keys before it alone. */
  lemma GetSnoc<V>(d: Dict<V>, x: (string, V), j: string)
    requires HasKey(d, j)
    ensures HasKey(d + [x], j) && Get(d + [x], j) == Get(d, j)
  {
    IndexOfSnoc(d, x, j);
  }

  /** The last entry of a dictionary is what its key maps to. */
  lemma GetLast<V>(d: Dict<V>)
    requires UniqueKeys(d) && |d| > 0
    ensures HasKey(d, d[|d| - 1].0) && Get(d, d[|d| - 1].0) == d[|d| - 1].1
    ensures !HasKey(d[..|d| - 1], d[|d| - 1].0)
    ensures d == d[..|d| - 1] + [d[|d| - 1]]
    ensures forall j :: HasKey(d, j) <==> HasKey(d[..|d| - 1], j) || j == d[|d| - 1].0
  {
    var n := |d| - 1;
    IndexOfUnique(d, d[n].0, n);
    assert d == d[..n] + [d[n]];
    forall j ensures HasKey(d, j) <==> HasKey(d[..n], j) || j == d[n].0 {
      HasKeySnoc(d[..n], d[n], j);
    }
  }

  /** In a unique-key dictionary the keys come in strictly increasing position. */
  lemma IndexOfEntry<V>(d: Dict<V>, i: nat)
    requires UniqueKeys(d) && i < |d|
    ensures HasKey(d, d[i].0) && IndexOf(d, d[i].0) == i
  {
    IndexOfUnique(d, d[i].0, i);
  }

  /** Every operation of phase 1 adds a desired column missing from the current schema, with its desired spec. */
  lemma {:induction false} AdditionsEntries(desired: Dict<ColumnSpec>, current: Dict<ColumnSpec>)
    requires UniqueKeys(desired)
    ensures forall op :: op in Additions(desired, current) ==>
      HasKey(desired, op.column) && !HasKey(current, op.column) && op == AddColumn(op.column, Get(desired, op.column))
  {
    if |desired| > 0 {
      var n := |desired| - 1;
      var init, col, spec := desired[..n], desired[n].0, desired[n].1;
      AdditionsEntries(init, current);
      GetLast(desired);
      var prev := Additions(init, current);
      forall op | op in prev ensures HasKey(desired, op.column) && Get(desired, op.column) == Get(init, op.column) {
        GetSnoc(init, desired[n], op.column);
      }
      if HasKey(current, col) {
        assert Additions(desired, current) == prev;
      } else {
        assert Additions(desired, current) == prev + [AddColumn(col, spec)];
      }
    }
  }

  /** Phase 1 is about exactly the desired columns missing from the current schema. */
  lemma {:induction false} AdditionsTouch(desired: Dict<ColumnSpec>, current: Dict<ColumnSpec>)
    ensures forall k :: Touches(Additions(desired, current), k) <==> HasKey(desired, k) && !HasKey(current, k)
  {
    if |desired| > 0 {
      var n := |desired| - 1;
      var init, col, spec := desired[..n], desired[n].0, desired[n].1;
      AdditionsTouch(init, current);
      assert desired == init + [desired[n]];
      var prev := Additions(init, current);
      var last := if HasKey(current, col) then [] else [AddColumn(col, spec)];
      assert Additions(desired, current) == prev + last;
      forall k ensures Touches(prev + last, k) <==> HasKey(desired, k) && !HasKey(current, k) {
        HasKeySnoc(init, desired[n], k);
        TouchesAppend(prev, last, k);
        TouchesSingle(AddColumn(col, spec), k);
      }
    }
  }

  /** Phase 1 adds its columns in the order the definition lists them. */
  lemma {:induction false} AdditionsOrder(desired: Dict<ColumnSpec>, current: Dict<ColumnSpec>)
    requires UniqueKeys(desired)
    ensures InKeyOrder(desired, Additions(desired, current))
  {
    if |desired| > 0 {
      var n := |desired| - 1;
      var init, col, spec := desired[..n], desired[n].0, desired[n].1;
      var prev := Additions(init, current);
      AdditionsOrder(init, current);
      assert desired == init + [desired[n]];
      InKeyOrderSnoc(init, desired[n], prev);
      if HasKey(current, col) {
        assert Additions(desired, current) == prev;
      } else {
        AdditionsEntries(init, current);
        IndexOfEntry(desired, n);
        forall op | op in prev ensures HasKey(desired, op.column) && IndexOf(desired, op.column) < IndexOf(desired, col) {
          IndexOfSnoc(init, desired[n], op.column);
        }
        InKeyOrderAppend(desired, prev, AddColumn(col, spec));
        assert Additions(desired, current) == prev + [AddColumn(col, spec)];
      }
    }
  }

  /**
   * Phase 1 adds exactly the desired columns missing from the current
   * schema, each once and with its desired spec, in desired order.
   */
  lemma AdditionsFacts(desired: Dict<ColumnSpec>, current: Dict<ColumnSpec>)
    requires UniqueKeys(desired)
    ensures var ops := Additions(desired, current);
      && (forall i :: 0 <= i < |ops| ==>
            HasKey(desired, ops[i].column) && !HasKey(current, ops[i].column)
            && ops[i] == AddColumn(ops[i].column, Get(desired, ops[i].column)))
      && (forall k :: Touches(ops, k) <==> HasKey(desired, k) && !HasKey(current, k))
      && InKeyOrder(desired, ops)
  {
    AdditionsEntries(desired, current);
    AdditionsTouch(desired, current);
    AdditionsOrder(desired, current);
  }

  /** Every operation of phase 2 drops a current column the desired schema lacks. */
  lemma {:induction false} DropsEntries(current: Dict<ColumnSpec>, desired: Dict<ColumnSpec>)
    ensures forall op :: op in Drops(current, desired) ==>
      HasKey(current, op.column) && !HasKey(desired, op.column) && op == DropColumn(op.column)
  {
    if |current| > 0 {
      var n := |current| - 1;
      var init, col := current[..n], current[n].0;
      DropsEntries(init, desired);
      assert current == init + [current[n]];
      var prev := Drops(init, desired);
      forall op | op in prev ensures HasKey(current, op.column) {
        HasKeySnoc(init, current[n], op.column);
      }
      HasKeySnoc(init, current[n], col);
      if HasKey(desired, col) {
        assert Drops(current, desired) == prev;
      } else {
        assert Drops(current, desired) == prev + [DropColumn(col)];
      }
    }
  }

  /** Phase 2 is about exactly the current columns the desired schema lacks. */
  lemma {:induction false} DropsTouch(current: Dict<ColumnSpec>, desired: Dict<ColumnSpec>)
    ensures forall k :: Touches(Drops(current, desired), k) <==> HasKey(current, k) && !HasKey(desired, k)
  {
    if |current| > 0 {
      var n := |current| - 1;
      var init, col := current[..n], current[n].0;
      DropsTouch(init, desired);
      assert current == init + [current[n]];
      var prev := Drops(init, desired);
      var last := if HasKey(desired, col) then [] else [DropColumn(col)];
      assert Drops(current, desired) == prev + last;
      forall k ensures Touches(prev + last, k) <==> HasKey(current, k) && !HasKey(desired, k) {
        HasKeySnoc(init, current[n], k);
        TouchesAppend(prev, last, k);
        TouchesSingle(DropColumn(col), k);
      }
    }
  }

  /** Phase 2 drops its columns in the order the catalog listed them. */
  lemma {:induction false} DropsOrder(current: Dict<ColumnSpec>, desired: Dict<ColumnSpec>)
    requires UniqueKeys(current)
    ensures InKeyOrder(current, Drops(current, desired))
  {
    if |current| > 0 {
      var n := |current| - 1;
      var init, col := current[..n], current[n].0;
      var prev := Drops(init, desired);
      DropsOrder(init, desired);
      assert current == init + [current[n]];
      InKeyOrderSnoc(init, current[n], prev);
      if HasKey(desired, col) {
        assert Drops(current, desired) == prev;
      } else {
        DropsEntries(init, desired);
        IndexOfEntry(current, n);
        forall op | op in prev ensures HasKey(current, op.column) && IndexOf(current, op.column) < IndexOf(current, col) {
          IndexOfSnoc(init, current[n], op.column);
        }
        InKeyOrderAppend(current, prev, DropColumn(col));
        assert Drops(current, desired) == prev + [DropColumn(col)];
      }
    }
  }

  /**
   * Phase 2 drops exactly the current columns missing from the desired
   * schema, each once, in the order the catalog listed them.
   */
  lemma DropsFacts(current: Dict<ColumnSpec>, desired: Dict<ColumnSpec>)
    requires UniqueKeys(current)
    ensures var ops := Drops(current, desired);
      && (forall i :: 0 <= i < |ops| ==>
            HasKey(current, ops[i].column) && !HasKey(desired, ops[i].column) && ops[i] == DropColumn(ops[i].column))
      && (forall k :: Touches(ops, k) <==> HasKey(current, k) && !HasKey(desired, k))
      && InKeyOrder(current, ops)
  {
    DropsEntries(current, desired);
    DropsTouch(current, desired);
    DropsOrder(current, desired);
  }

  /** Both schemas have column `k`, with specs that do not match. */
  predicate Differs(desired: Dict<ColumnSpec>, current: Dict<ColumnSpec>, k: string)
  {
    HasKey(desired, k) && HasKey(current, k) && !CompareColumnSpecs(Get(desired, k), Get(current, k))
  }

  /** Every operation of phase 3 sets a shared column whose specs differ to its desired spec. */
  lemma {:induction false} ModificationsEntries(desired: Dict<ColumnSpec>, current: Dict<ColumnSpec>)
    requires UniqueKeys(desired)
    ensures forall op :: op in Modifications(desired, current) ==>
      Differs(desired, current, op.column) && op == ModifyColumn(op.column, Get(desired, op.column))
  {
    if |desired| > 0 {
      var n := |desired| - 1;
      var init, col, spec := desired[..n], desired[n].0, desired[n].1;
      ModificationsEntries(init, current);
      GetLast(desired);
      var prev := Modifications(init, current);
      forall op | op in prev ensures HasKey(desired, op.column) && Get(desired, op.column) == Get(init, op.column) {
        GetSnoc(init, desired[n], op.column);
      }
      if HasKey(current, col) && !CompareColumnSpecs(spec, Get(current, col)) {
        assert Differs(desired, current, col);
        assert Modifications(desired, current) == prev + [ModifyColumn(col, spec)];
      } else {
        assert Modifications(desired, current) == prev;
      }
    }
  }

  /** Phase 3 is about exactly the shared columns whose specs differ. */
  lemma {:induction false} ModificationsTouch(desired: Dict<ColumnSpec>, current: Dict<ColumnSpec>)
    requires UniqueKeys(desired)
    ensures forall k :: Touches(Modifications(desired, current), k) <==> Differs(desired, current, k)
  {
    if |desired| > 0 {
      var n := |desired| - 1;
      var init, col, spec := desired[..n], desired[n].0, desired[n].1;
      ModificationsTouch(init, current);
      GetLast(desired);
      var prev := Modifications(init, current);
      var changed := HasKey(current, col) && !CompareColumnSpecs(spec, Get(current, col));
      var last := if changed then [ModifyColumn(col, spec)] else [];
      assert Modifications(desired, current) == prev + last;
      assert changed <==> Differs(desired, current, col);
      forall k ensures Touches(prev + last, k) <==> Differs(desired, current, k) {
        if HasKey(init, k) {
          GetSnoc(init, desired[n], k);
        }
        TouchesAppend(prev, last, k);
        TouchesSingle(ModifyColumn(col, spec), k);
      }
    }
  }

  /** Phase 3 modifies its columns in the order the definition lists them. */
  lemma {:induction false} ModificationsOrder(desired: Dict<ColumnSpec>, current: Dict<ColumnSpec>)
    requires UniqueKeys(desired)
    ensures InKeyOrder(desired, Modifications(desired, current))
  {
    if |desired| > 0 {
      var n := |desired| - 1;
      var init, col, spec := desired[..n], desired[n].0, desired[n].1;
      var prev := Modifications(init, current);
      ModificationsOrder(init, current);
      assert desired == init + [desired[n]];
      InKeyOrderSnoc(init, desired[n], prev);
      if HasKey(current, col) && !CompareColumnSpecs(spec, Get(current, col)) {
        ModificationsEntries(init, current);
        IndexOfEntry(desired, n);
        forall op | op in prev ensures HasKey(desired, op.column) && IndexOf(desired, op.column) < IndexOf(desired, col) {
          assert Differs(init, current, op.column);
          IndexOfSnoc(init, desired[n], op.column);
        }
        InKeyOrderAppend(desired, prev, ModifyColumn(col, spec));
        assert Modifications(desired, current) == prev + [ModifyColumn(col, spec)];
      } else {
        assert Modifications(desired, current) == prev;
      }
    }
  }

  /**
   * Phase 3 modifies exactly the shared columns whose specs do not match,
   * each once and to its desired spec, in desired order.
   */
  lemma ModificationsFacts(desired: Dict<ColumnSpec>, current: Dict<ColumnSpec>)
    requires UniqueKeys(desired)
    ensures var ops := Modifications(desired, current);
      && (forall i :: 0 <= i < |ops| ==>
            Differs(desired, current, ops[i].column) && ops[i] == ModifyColumn(ops[i].column, Get(desired, ops[i].column)))
      && (forall k :: Touches(ops, k) <==> Differs(desired, current, k))
      && InKeyOrder(desired, ops)
  {
    ModificationsEntries(desired, current);
    ModificationsTouch(desired, current);
    ModificationsOrder(desired, current);
  }

  /** Where an operation's phase comes in the fixed order: additions, drops, modifications. */
  function Phase(op: Op): (r: nat)
  {
    match op
    case AddColumn(_, _) => 0
    case DropColumn(_) => 1
    case ModifyColumn(_, _) => 2
  }

  /** Phase 1 only adds, phase 2 only drops and phase 3 only modifies. */
  lemma {:induction false} PhaseKinds(desired: Dict<ColumnSpec>, current: Dict<ColumnSpec>)
    ensures forall op :: op in Additions(desired, current) ==> Phase(op) == 0
    ensures forall op :: op in Drops(current, desired) ==> Phase(op) == 1
    ensures forall op :: op in Modifications(desired, current) ==> Phase(op) == 2
  {
    if |desired| > 0 {
      PhaseKinds(desired[..|desired| - 1], current);
    }
    if |current| > 0 {
      PhaseKinds(desired, current[..|current| - 1]);
    }
  }

  /** Each position of `a + d + m` holds an element of the part it falls in. */
  lemma ConcatPositions(a: seq<Op>, d: seq<Op>, m: seq<Op>)
    ensures |a + d + m| == |a| + |d| + |m|
    ensures forall i :: 0 <= i < |a| ==> (a + d + m)[i] == a[i]
    ensures forall i :: |a| <= i < |a| + |d| ==> (a + d + m)[i] == d[i - |a|]
    ensures forall i :: |a| + |d| <= i < |a| + |d| + |m| ==> (a + d + m)[i] == m[i - |a| - |d|]
  {
    assert a + d + m == a + (d + m);
  }

  /** In the diff every addition precedes every drop, which precedes every modification. */
  lemma DiffPhases(desired: Dict<ColumnSpec>, current: Dict<ColumnSpec>)
    ensures var ops := Diff(desired, current);
      forall i, j :: 0 <= i < j < |ops| ==> Phase(ops[i]) <= Phase(ops[j])
  {
    var a, d, m := Additions(desired, current), Drops(current, desired), Modifications(desired, current);
    var ops := a + d + m;
    ConcatPositions(a, d, m);
    PhaseKinds(desired, current);
    forall i | 0 <= i < |ops| ensures Phase(ops[i]) == if i < |a| then 0 else if i < |a| + |d| then 1 else 2 {
      if i < |a| {
        assert ops[i] == a[i] && a[i] in a;
      } else if i < |a| + |d| {
        assert ops[i] == d[i - |a|] && d[i - |a|] in d;
      } else {
        assert ops[i] == m[i - |a| - |d|] && m[i - |a| - |d|] in m;
      }
    }
  }

  /** No column is the subject of two operations of the diff: in particular none is both added and dropped. */
  lemma DiffDistinct(desired: Dict<ColumnSpec>, current: Dict<ColumnSpec>)
    requires UniqueKeys(desired) && UniqueKeys(current)
    ensures var ops := Diff(desired, current);
      forall i, j :: 0 <= i < j < |ops| ==> ops[i].column != ops[j].column
  {
    var a, d, m := Additions(desired, current), Drops(current, desired), Modifications(desired, current);
    var ops := a + d + m;
    ConcatPositions(a, d, m);
    AdditionsEntries(desired, current);
    AdditionsOrder(desired, current);
    DropsEntries(current, desired);
    DropsOrder(current, desired);
    ModificationsEntries(desired, current);
    ModificationsOrder(desired, current);
    forall i, j | 0 <= i < j < |ops| ensures ops[i].column != ops[j].column {
      if j < |a| {
        assert Before(desired, a[i].column, a[j].column);
      } else if |a| + |d| <= i {
        assert Before(desired, m[i - |a| - |d|].column, m[j - |a| - |d|].column);
      } else if |a| <= i && j < |a| + |d| {
        assert Before(current, d[i - |a|].column, d[j - |a|].column);
      } else if i < |a| && j < |a| + |d| {
        assert a[i] in a && d[j - |a|] in d;
      } else if i < |a| {
        assert a[i] in a && m[j - |a| - |d|] in m;
        assert Differs(desired, current, m[j - |a| - |d|].column);
      } else {
        assert d[i - |a|] in d && m[j - |a| - |d|] in m;
        assert Differs(desired, current, m[j - |a| - |d|].column);
      }
    }
  }

  /**
   * Over the whole diff every addition precedes every drop, which precedes
   * every modification, and no column is the subject of two operations: in
   * particular no column is both added and dropped.
   */
  lemma DiffShape(desired: Dict<ColumnSpec>, current: Dict<ColumnSpec>)
    requires UniqueKeys(desired) && UniqueKeys(current)
    ensures var ops := Diff(desired, current);
      && (forall i, j :: 0 <= i < j < |ops| ==> Phase(ops[i]) <= Phase(ops[j]))
      && (forall i, j :: 0 <= i < j < |ops| ==> ops[i].column != ops[j].column)
  {
    DiffPhases(desired, current);
    DiffDistinct(desired, current);
  }

  /** The last operation of `ops` about column `k`. */
  function LastOn(ops: seq<Op>, k: string): (op: Op)
    requires Touches(ops, k)
    ensures op.column == k
  {
    var n := |ops| - 1;
    if ops[n].column == k then ops[n]
    else
      assert Touches(ops[..n], k) by {
        var i :| 0 <= i < |ops| && ops[i].column == k;
        assert ops[..n][i].column == k;
      }
      LastOn(ops[..n], k)
  }

  /** When every operation about `k` is `op`, so is the last one. */
  lemma {:induction false} LastOnIs(ops: seq<Op>, k: string, op: Op)
    requires Touches(ops, k)
    requires forall i :: 0 <= i < |ops| && ops[i].column == k ==> ops[i] == op
    ensures LastOn(ops, k) == op
  {
    var n := |ops| - 1;
    if ops[n].column != k {
      LastOnIs(ops[..n], k, op);
    }
  }

  /** The last operation about `k` in `a + b` is in `b` if `b` has one. */
  lemma {:induction false} LastOnAppend(a: seq<Op>, b: seq<Op>, k: string)
    requires Touches(a + b, k)
    ensures Touches(a, k) || Touches(b, k)
    ensures LastOn(a + b, k) == if Touches(b, k) then LastOn(b, k) else LastOn(a, k)
  {
    TouchesAppend(a, b, k);
    if |b| > 0 {
      var n := |b| - 1;
      assert (a + b)[..|a + b| - 1] == a + b[..n];
      if b[n].column != k {
        TouchesAppend(b[..n], [b[n]], k);
        TouchesSingle(b[n], k);
        assert b == b[..n] + [b[n]];
        TouchesAppend(a, b[..n], k);
        LastOnAppend(a, b[..n], k);
      }
    } else {
      assert a + b == a;
    }
  }

  /** Phase 1 is about `k` exactly when only the desired schema has it, and then adds its desired spec. */
  lemma AdditionsAt(desired: Dict<ColumnSpec>, current: Dict<ColumnSpec>, k: string)
    requires UniqueKeys(desired)
    ensures Touches(Additions(desired, current), k) <==> HasKey(desired, k) && !HasKey(current, k)
    ensures Touches(Additions(desired, current), k) ==> LastOn(Additions(desired, current), k) == AddColumn(k, Get(desired, k))
  {
    AdditionsFacts(desired, current);
    var a := Additions(desired, current);
    if Touches(a, k) {
      assert HasKey(desired, k);
      forall i | 0 <= i < |a| && a[i].column == k ensures a[i] == AddColumn(k, Get(desired, k)) {
        assert a[i] == AddColumn(a[i].column, Get(desired, a[i].column));
      }
      LastOnIs(a, k, AddColumn(k, Get(desired, k)));
    }
  }

  /** Phase 2 is about `k` exactly when only the current schema has it, and then drops it. */
  lemma DropsAt(current: Dict<ColumnSpec>, desired: Dict<ColumnSpec>, k: string)
    requires UniqueKeys(current)
    ensures Touches(Drops(current, desired), k) <==> HasKey(current, k) && !HasKey(desired, k)
    ensures Touches(Drops(current, desired), k) ==> LastOn(Drops(current, desired), k) == DropColumn(k)
  {
    DropsFacts(current, desired);
    var d := Drops(current, desired);
    if Touches(d, k) {
      forall i | 0 <= i < |d| && d[i].column == k ensures d[i] == DropColumn(k) {
        assert d[i] == DropColumn(d[i].column);
      }
      LastOnIs(d, k, DropColumn(k));
    }
  }

  /** Phase 3 is about `k` exactly when the specs of `k` differ, and then sets the desired spec. */
  lemma ModificationsAt(desired: Dict<ColumnSpec>, current: Dict<ColumnSpec>, k: string)
    requires UniqueKeys(desired)
    ensures Touches(Modifications(desired, current), k) <==> Differs(desired, current, k)
    ensures Touches(Modifications(desired, current), k) ==>
              LastOn(Modifications(desired, current), k) == ModifyColumn(k, Get(desired, k))
  {
    ModificationsFacts(desired, current);
    var m := Modifications(desired, current);
    if Touches(m, k) {
      assert Differs(desired, current, k);
      forall i | 0 <= i < |m| && m[i].column == k ensures m[i] == ModifyColumn(k, Get(desired, k)) {
        assert m[i] == ModifyColumn(m[i].column, Get(desired, m[i].column));
      }
      LastOnIs(m, k, ModifyColumn(k, Get(desired, k)));
    }
  }

  /**
   * Which operation, if any, the diff makes about a column: an addition when
   * only the desired schema has it, a drop when only the current one has it,
   * a modification to the desired spec when both have it with specs that do
   * not match, and none otherwise.
   */
  lemma DiffAt(desired: Dict<ColumnSpec>, current: Dict<ColumnSpec>, k: string)
    requires UniqueKeys(desired) && UniqueKeys(current)
    ensures Touches(Diff(desired, current), k) <==>
              HasKey(desired, k) != HasKey(current, k) || Differs(desired, current, k)
    ensures Touches(Diff(desired, current), k) ==>
              LastOn(Diff(desired, current), k) ==
                if !HasKey(current, k) then AddColumn(k, Get(desired, k))
                else if !HasKey(desired, k) then DropColumn(k)
                else ModifyColumn(k, Get(desired, k))
  {
    AdditionsAt(desired, current, k);
    DropsAt(current, desired, k);
    ModificationsAt(desired, current, k);
    var a, d, m := Additions(desired, current), Drops(current, desired), Modifications(desired, current);
    TouchesAppend(a, d, k);
    TouchesAppend(a + d, m, k);
    if Touches(a + d + m, k) {
      LastOnAppend(a + d, m, k);
      if !Touches(m, k) {
        LastOnAppend(a, d, k);
      }
    }
  }

  // ---------------------------------------------------------------------------
  // What the table looks like once the operations have run
  // ---------------------------------------------------------------------------

  /**
   * The spec a column has after the ADD COLUMN or the ALTER COLUMN pair for
   * `spec` ran: its type, and its default only when the default is truthy
   * (otherwise no DEFAULT clause is emitted, or the default is dropped).
   */
  function Landed(spec: ColumnSpec): (r: ColumnSpec)
  {
    ColumnSpec(spec.sqlType, if Truthy(spec.default) then spec.default else None)
  }

  /** The schema after the operations, one after the other. */
  function Apply(schema: Dict<ColumnSpec>, ops: seq<Op>): (r: Dict<ColumnSpec>)
  {
    if |ops| == 0 then schema
    else
      var before := Apply(schema, ops[..|ops| - 1]);
      match ops[|ops| - 1]
      case AddColumn(col, spec) => Put(before, col, Landed(spec))
      case DropColumn(col) => Remove(before, col)
      case ModifyColumn(col, spec) => Put(before, col, Landed(spec))
  }

  /** An operation at the end of `ops` about another column leaves what `ops` says about `k` alone. */
  lemma TouchesInit(ops: seq<Op>, k: string)
    requires |ops| > 0
    ensures Touches(ops, k) <==> Touches(ops[..|ops| - 1], k) || ops[|ops| - 1].column == k
    ensures ops[|ops| - 1].column == k ==> LastOn(ops, k) == ops[|ops| - 1]
    ensures ops[|ops| - 1].column != k && Touches(ops, k) ==> LastOn(ops, k) == LastOn(ops[..|ops| - 1], k)
  {
    var n := |ops| - 1;
    assert ops == ops[..n] + [ops[n]];
    TouchesAppend(ops[..n], [ops[n]], k);
    TouchesSingle(ops[n], k);
  }

  /** The operations keep the keys of a schema unique. */
  lemma {:induction false} ApplyUnique(schema: Dict<ColumnSpec>, ops: seq<Op>)
    requires UniqueKeys(schema)
    ensures UniqueKeys(Apply(schema, ops))
  {
    if |ops| > 0 {
      var n := |ops| - 1;
      ApplyUnique(schema, ops[..n]);
      var before := Apply(schema, ops[..n]);
      match ops[n]
      case AddColumn(col, spec) => PutFacts(before, col, Landed(spec));
      case ModifyColumn(col, spec) => PutFacts(before, col, Landed(spec));
      case DropColumn(col) => RemoveFacts(before, col);
    }
  }

  /**
   * Whether column `k` exists after the operations, and with which spec,
   * depends only on the last operation about `k`, or on the schema before
   * when no operation is about `k`.
   */
  lemma {:induction false} ApplyValue(schema: Dict<ColumnSpec>, ops: seq<Op>, k: string)
    ensures HasKey(Apply(schema, ops), k) <==>
              if Touches(ops, k) then !LastOn(ops, k).DropColumn? else HasKey(schema, k)
    ensures HasKey(Apply(schema, ops), k) ==>
              Get(Apply(schema, ops), k) == if Touches(ops, k) then Landed(LastOn(ops, k).spec) else Get(schema, k)
  {
    if |ops| > 0 {
      var n := |ops| - 1;
      ApplyValue(schema, ops[..n], k);
      TouchesInit(ops, k);
      var before := Apply(schema, ops[..n]);
      match ops[n]
      case AddColumn(col, spec) => PutAt(before, col, Landed(spec), k);
      case ModifyColumn(col, spec) => PutAt(before, col, Landed(spec), k);
      case DropColumn(col) => RemoveAt(before, col, k);
    }
  }

  /** `ApplyValue` for a schema with unique keys, which the operations keep unique. */
  lemma ApplyAt(schema: Dict<ColumnSpec>, ops: seq<Op>, k: string)
    requires UniqueKeys(schema)
    ensures UniqueKeys(Apply(schema, ops))
    ensures HasKey(Apply(schema, ops), k) <==>
              if Touches(ops, k) then !LastOn(ops, k).DropColumn? else HasKey(schema, k)
    ensures HasKey(Apply(schema, ops), k) ==>
              Get(Apply(schema, ops), k) == if Touches(ops, k) then Landed(LastOn(ops, k).spec) else Get(schema, k)
  {
    ApplyUnique(schema, ops);
    ApplyValue(schema, ops, k);
  }

  /** A spec that its DDL carries over unchanged: no empty-string default. */
  predicate SettlesAs(spec: ColumnSpec)
  {
    spec.default != Some("")
  }

  /**
   * Once the diff has run, the table has exactly the desired columns, each
   * with its desired spec, provided no desired default is the empty string;
   * computing the diff again then gives nothing to do.
   */
  lemma Convergence(desired: Dict<ColumnSpec>, current: Dict<ColumnSpec>)
    requires UniqueKeys(desired) && UniqueKeys(current)
    requires forall i :: 0 <= i < |desired| ==> SettlesAs(desired[i].1)
    ensures var after := Apply(current, Diff(desired, current));
      && UniqueKeys(after)
      && (forall k :: HasKey(after, k) <==> HasKey(desired, k))
      && (forall k :: HasKey(desired, k) ==> Get(after, k) == Get(desired, k))
      && Diff(desired, after) == []
  {
    var ops := Diff(desired, current);
    var after := Apply(current, ops);
    ApplyAt(current, ops, "");
    forall k ensures (HasKey(after, k) <==> HasKey(desired, k))
      && (HasKey(desired, k) ==> Get(after, k) == Get(desired, k))
    {
      ApplyAt(current, ops, k);
      DiffAt(desired, current, k);
      if HasKey(desired, k) {
        IndexOfEntry(desired, IndexOf(desired, k));
      }
    }
    NothingLeft(desired, after);
  }

  /** Two schemas with the same columns and the same specs have an empty diff. */
  lemma NothingLeft(desired: Dict<ColumnSpec>, current: Dict<ColumnSpec>)
    requires UniqueKeys(desired) && UniqueKeys(current)
    requires forall k :: HasKey(current, k) <==> HasKey(desired, k)
    requires forall k :: HasKey(desired, k) ==> Get(current, k) == Get(desired, k)
    ensures Diff(desired, current) == []
  {
    var ops := Diff(desired, current);
    if |ops| > 0 {
      assert Touches(ops, ops[0].column);
      DiffAt(desired, current, ops[0].column);
    }
  }

  /** The diff for a column whose desired default is the empty string and whose current default is NULL. */
  lemma EmptyDefaultDiff()
    ensures Diff([("id", ColumnSpec(Some("INT"), Some("")))], [("id", ColumnSpec(Some("INT"), None))])
              == [ModifyColumn("id", ColumnSpec(Some("INT"), Some("")))]
  {
    var spec := ColumnSpec(Some("INT"), Some(""));
    var desired := [("id", spec)];
    var current := [("id", ColumnSpec(Some("INT"), None))];
    IndexOfUnique(current, "id", 0);
    IndexOfUnique(desired, "id", 0);
    assert desired[..0] == [] && current[..0] == [];
    assert Additions(desired, current) == Additions([], current) + [];
    assert Drops(current, desired) == Drops([], desired) + [];
    assert !CompareColumnSpecs(spec, Get(current, "id"));
    assert Modifications(desired, current) == Modifications([], current) + [ModifyColumn("id", spec)];
  }

  /**
   * With an empty-string default the diff never settles: the ALTER pair it
   * makes drops the default instead, the table stays as it was, and the same
   * modification is due again on every run.
   */
  lemma EmptyDefaultNeverSettles()
    ensures var desired := [("id", ColumnSpec(Some("INT"), Some("")))];
      var current := [("id", ColumnSpec(Some("INT"), None))];
      && Diff(desired, current) == [ModifyColumn("id", ColumnSpec(Some("INT"), Some("")))]
      && Apply(current, Diff(desired, current)) == current
  {
    var spec := ColumnSpec(Some("INT"), Some(""));
    var current := [("id", ColumnSpec(Some("INT"), None))];
    EmptyDefaultDiff();
    var ops := [ModifyColumn("id", spec)];
    assert ops[..0] == [];
    assert Apply(current, ops) == Put(current, "id", Landed(spec));
    IndexOfUnique(current, "id", 0);
    PutFacts(current, "id", Landed(spec));
    assert Landed(spec) == current[0].1;
  }

  // ---------------------------------------------------------------------------
  // The statements sent to the database
  // ---------------------------------------------------------------------------

  /** How an f-string renders a type: `None` prints as "None". */
  function TypeText(t: Option<string>): (r: string)
  {
    if t.Some? then t.value else "None"
  }

  function AddColumnSql(table: string, col: string, spec: ColumnSpec): (r: string)
  {
    var base := "ALTER TABLE " + table + " ADD COLUMN " + col + " " + TypeText(spec.sqlType);
    if Truthy(spec.default) then base + " DEFAULT " + spec.default.value else base
  }

  function DropColumnSql(table: string, col: string): (r: string)
  {
    "ALTER TABLE " + table + " DROP COLUMN " + col
  }

  function AlterTypeSql(table: string, col: string, spec: ColumnSpec): (r: string)
  {
    "ALTER TABLE " + table + " ALTER COLUMN " + col + " TYPE " + TypeText(spec.sqlType)
  }

  function AlterDefaultSql(table: string, col: string, spec: ColumnSpec): (r: string)
  {
    if Truthy(spec.default) then "ALTER TABLE " + table + " ALTER COLUMN " + col + " SET DEFAULT " + spec.default.value
    else "ALTER TABLE " + table + " ALTER COLUMN " + col + " DROP DEFAULT"
  }

  /** The statements one operation issues: one, or two for a modification. */
  function Render(table: string, op: Op): (r: seq<string>)
  {
    match op
    case AddColumn(col, spec) => [AddColumnSql(table, col, spec)]
    case DropColumn(col) => [DropColumnSql(table, col)]
    case ModifyColumn(col, spec) => [AlterTypeSql(table, col, spec), AlterDefaultSql(table, col, spec)]
  }

  /** The statements a sequence of operations issues, in order. */
  function Statements(table: string, ops: seq<Op>): (r: seq<string>)
  {
    if |ops| == 0 then [] else Statements(table, ops[..|ops| - 1]) + Render(table, ops[|ops| - 1])
  }

  /** Appending one operation appends its statements. */
  lemma StatementsSnoc(table: string, ops: seq<Op>, op: Op)
    ensures Statements(table, ops + [op]) == Statements(table, ops) + Render(table, op)
  {
    assert (ops + [op])[..|ops|] == ops;
  }

  /** The number of modifications among `ops`. */
  function ModifyCount(ops: seq<Op>): (r: nat)
  {
    if |ops| == 0 then 0 else ModifyCount(ops[..|ops| - 1]) + if ops[|ops| - 1].ModifyColumn? then 1 else 0
  }

  /** `p` is a prefix of `s`. */
  predicate StartsWith(s: string, p: string)
  {
    |p| <= |s| && s[..|p|] == p
  }

  /** Whatever follows a prefix keeps it a prefix. */
  lemma StartsWithAppend(s: string, p: string, rest: string)
    requires StartsWith(s, p)
    ensures StartsWith(s + rest, p)
  {
    assert (s + rest)[..|p|] == s[..|p|];
  }

  /** Each statement of an operation is an ALTER TABLE on the given table. */
  lemma RenderIsAlter(table: string, op: Op)
    ensures forall s :: s in Render(table, op) ==> StartsWith(s, "ALTER TABLE " + table)
  {
    var p := "ALTER TABLE " + table;
    assert StartsWith(p, p);
    match op
    case AddColumn(col, spec) =>
      StartsWithAppend(p, p, " ADD COLUMN ");
      StartsWithAppend(p + " ADD COLUMN ", p, col);
      StartsWithAppend(p + " ADD COLUMN " + col, p, " ");
      StartsWithAppend(p + " ADD COLUMN " + col + " ", p, TypeText(spec.sqlType));
      var base := p + " ADD COLUMN " + col + " " + TypeText(spec.sqlType);
      StartsWithAppend(base, p, " DEFAULT ");
      if Truthy(spec.default) { StartsWithAppend(base + " DEFAULT ", p, spec.default.value); }
    case DropColumn(col) =>
      StartsWithAppend(p, p, " DROP COLUMN ");
      StartsWithAppend(p + " DROP COLUMN ", p, col);
    case ModifyColumn(col, spec) =>
      StartsWithAppend(p, p, " ALTER COLUMN ");
      StartsWithAppend(p + " ALTER COLUMN ", p, col);
      var q := p + " ALTER COLUMN " + col;
      StartsWithAppend(q, p, " TYPE ");
      StartsWithAppend(q + " TYPE ", p, TypeText(spec.sqlType));
      StartsWithAppend(q, p, " SET DEFAULT ");
      if spec.default.Some? { StartsWithAppend(q + " SET DEFAULT ", p, spec.default.value); }
      StartsWithAppend(q, p, " DROP DEFAULT");
  }

  /**
   * Every statement is an ALTER TABLE on the given table, and there is one
   * per operation plus one more per modification.
   */
  lemma {:induction false} StatementsShape(table: string, ops: seq<Op>)
    ensures |Statements(table, ops)| == |ops| + ModifyCount(ops)
    ensures forall s :: s in Statements(table, ops) ==> StartsWith(s, "ALTER TABLE " + table)
  {
    if |ops| > 0 {
      StatementsShape(table, ops[..|ops| - 1]);
      RenderIsAlter(table, ops[|ops| - 1]);
    }
  }
}
