/**
 * The catalog workbook: creating it when absent, loading its items sheet into
 * the canonical schema, and saving a table back with its update timestamps
 * coerced.
 */
module Storage {
  import opened Wrappers
  import opened Values
  import opened Tables
  import opened Config

  lemma TargetFieldsDistinct()
    ensures Distinct(TargetFields)
  {
    forall i, j | 0 <= i < j < |TargetFields| ensures TargetFields[i] != TargetFields[j] {
      assert |TargetFields| == 12;
    }
  }

  /** A table in the canonical schema: well formed, with exactly the target columns in order. */
  ghost predicate Canonical(t: Table) {
    WellFormed(t) && t.columns == TargetFields
  }

  /** The sheet a fresh catalog file holds: the target columns and no rows. */
  const EmptyCatalog := Table(TargetFields, [])

  /**
   * Appends, in list order, each listed column the table lacks, filled with
   * `None` (`df[c] = None` for every missing `c`).
   */
  function FillMissing(t: Table, fields: seq<string>): (r: Table)
    requires WellFormed(t)
    ensures WellFormed(r) && |r.rows| == |t.rows|
    ensures t.columns <= r.columns
    ensures forall c :: c in fields ==> c in r.columns
    ensures forall c :: c in r.columns ==> c in t.columns || c in fields
    decreases |fields|
  {
    if fields == [] then t
    else
      var u := FillMissing(t, fields[..|fields| - 1]);
      var c := fields[|fields| - 1];
      assert forall d :: d in fields ==> d in fields[..|fields| - 1] || d == c;
      if c in u.columns then u else WithColumn(u, c, Repeat(|u.rows|, Null))
  }

  /** Filling the first `k + 1` columns is filling the first `k` and then column `k`. */
  lemma FillMissingStep(t: Table, fields: seq<string>, k: nat)
    requires WellFormed(t) && k < |fields|
    ensures var u := FillMissing(t, fields[..k]);
      FillMissing(t, fields[..k + 1]) == if fields[k] in u.columns then u else WithColumn(u, fields[k], Repeat(|u.rows|, Null))
  {
    assert fields[..k + 1][..k] == fields[..k];
  }

  /** Filling keeps every cell the table had and gives each added column `None` throughout. */
  lemma {:induction false} FillMissingCells(t: Table, fields: seq<string>, i: nat, c: string)
    requires WellFormed(t) && i < |t.rows| && c in FillMissing(t, fields).columns
    ensures FillMissing(t, fields).rows[i][c] == if c in t.columns then t.rows[i][c] else Null
    decreases |fields|
  {
    if fields != [] {
      var u := FillMissing(t, fields[..|fields| - 1]);
      var d := fields[|fields| - 1];
      if c in u.columns {
        FillMissingCells(t, fields[..|fields| - 1], i, c);
      } else {
        assert c == d;
      }
    }
  }

  /**
   * What loading makes of the sheet it reads, with `fields` the target
   * columns: those columns in that order, a column the sheet lacks all
   * `None`, any other column dropped, and every row kept.
   */
  function Reconcile(stored: Table, fields: seq<string>): (t: Table)
    requires WellFormed(stored) && Distinct(fields)
    ensures WellFormed(t) && t.columns == fields && |t.rows| == |stored.rows|
    ensures forall i, c :: 0 <= i < |t.rows| && c in fields ==>
      t.rows[i][c] == if c in stored.columns then stored.rows[i][c] else Null
  {
    Table(fields, seq(|stored.rows|, i requires 0 <= i < |stored.rows| =>
      map c | c in fields :: if c in stored.rows[i] then stored.rows[i][c] else Null))
  }

  /**
   * The `updated_at` coercion applied before writing: when the column exists,
   * each cell is parsed as a date and a missing or unparsable one becomes
   * `now`; without the column the table is unchanged.
   */
  function CoerceUpdatedAt(t: Table, now: string, parse: Value -> Option<string>): (r: Table)
    requires WellFormed(t)
    ensures WellFormed(r) && r.columns == t.columns && |r.rows| == |t.rows|
    ensures forall i, c :: 0 <= i < |r.rows| && c in t.columns && c != UpdatedAtField ==>
      r.rows[i][c] == t.rows[i][c]
    ensures UpdatedAtField in t.columns ==> forall i :: 0 <= i < |r.rows| ==>
      var v := t.rows[i][UpdatedAtField];
      && (IsNa(v) || parse(v).None? ==> r.rows[i][UpdatedAtField] == Stamp(now))
      && (!IsNa(v) && parse(v).Some? ==> r.rows[i][UpdatedAtField] == Stamp(parse(v).value))
    ensures UpdatedAtField !in t.columns ==> r == t
  {
    if UpdatedAtField in t.columns then
      WithColumn(t, UpdatedAtField, seq(|t.rows|, i requires 0 <= i < |t.rows| && WellFormed(t) && UpdatedAtField in t.columns =>
        StampOrNow(t.rows[i][UpdatedAtField], now, parse)))
    else t
  }

  /**
   * The text cells `pd.read_excel` reads as `NaN` under its default
   * `na_values`; the empty string is among them.
   */
  const NaTexts: set<string> := {
    "", "#N/A", "#N/A N/A", "#NA", "-1.#IND", "-1.#QNAN", "-NaN", "-nan", "1.#IND", "1.#QNAN",
    "<NA>", "N/A", "NA", "NULL", "NaN", "None", "n/a", "nan", "null"}

  predicate ReadsAsNa(v: Value) {
    IsNa(v) || (v.Str? && v.text in NaTexts)
  }

  /**
   * A cell as it reads back from the workbook: `None` is written as an empty
   * cell, and an empty cell or one holding an NA text is read as `NaN`.
   */
  function Stored(v: Value): (w: Value)
    ensures !w.Null? && (w.Missing? <==> ReadsAsNa(v))
    ensures !ReadsAsNa(v) ==> w == v
  {
    if ReadsAsNa(v) then Missing else v
  }

  /** The table that reading back the sheet written from `t` yields. */
  function Written(t: Table): (r: Table)
    requires WellFormed(t)
    ensures WellFormed(r) && r.columns == t.columns && |r.rows| == |t.rows|
  {
    Table(t.columns, seq(|t.rows|, i requires 0 <= i < |t.rows| =>
      map c | c in t.rows[i] :: Stored(t.rows[i][c])))
  }

  /** Each cell reads back as it was stored. */
  lemma WrittenCells(t: Table)
    requires WellFormed(t)
    ensures forall i, c :: 0 <= i < |t.rows| && c in t.columns ==> Written(t).rows[i][c] == Stored(t.rows[i][c])
  {
  }

  /** Two well-formed tables with the same columns, row count and cells are equal. */
  lemma SameCells(a: Table, b: Table)
    requires WellFormed(a) && WellFormed(b) && a.columns == b.columns && |a.rows| == |b.rows|
    requires forall i, c :: 0 <= i < |a.rows| && c in a.columns ==> a.rows[i][c] == b.rows[i][c]
    ensures a == b
  {
    forall i | 0 <= i < |a.rows| ensures a.rows[i] == b.rows[i] {
      var x, y := a.rows[i], b.rows[i];
      assert forall c :: c in x <==> c in a.columns;
      assert forall c :: c in y <==> c in a.columns;
      assert x.Keys == y.Keys;
    }
  }

  /** Filling in the missing columns one by one and then selecting them gives the reconciled table. */
  lemma FillThenSelect(stored: Table, fields: seq<string>)
    requires WellFormed(stored) && Distinct(fields)
    ensures Select(FillMissing(stored, fields), fields) == Reconcile(stored, fields)
  {
    var filled := FillMissing(stored, fields);
    var t := Select(filled, fields);
    var r := Reconcile(stored, fields);
    forall i, c | 0 <= i < |t.rows| && c in fields ensures t.rows[i][c] == r.rows[i][c] {
      assert c in filled.columns;
      assert t.rows[i][c] == filled.rows[i][c];
      FillMissingCells(stored, fields, i, c);
    }
    SameCells(t, r);
  }

  /** Adds, one after another, each of `fields` the table lacks as a column of `None`. */
  method AddMissing(t: Table, fields: seq<string>) returns (r: Table)
    requires WellFormed(t)
    ensures r == FillMissing(t, fields)
  {
    r := t;
    for k := 0 to |fields|
      invariant WellFormed(r)
      invariant r == FillMissing(t, fields[..k])
    {
      var c := fields[k];
      FillMissingStep(t, fields, k);
      if c !in r.columns {
        r := WithColumn(r, c, Repeat(|r.rows|, Null));
      }
    }
    assert fields[..|fields|] == fields;
  }

  /** Filling in and selecting the target columns gives the reconciled sheet, in the canonical schema. */
  lemma LoadedIsReconciled(stored: Table)
    requires WellFormed(stored)
    ensures Distinct(TargetFields)
    ensures Select(FillMissing(stored, TargetFields), TargetFields) == Reconcile(stored, TargetFields)
    ensures Canonical(Reconcile(stored, TargetFields))
  {
    TargetFieldsDistinct();
    FillThenSelect(stored, TargetFields);
  }

  /** Loading a table that already has exactly the target columns gives it back unchanged. */
  lemma ReconcileKeeps(t: Table, fields: seq<string>)
    requires WellFormed(t) && t.columns == fields
    ensures Reconcile(t, fields) == t
  {
    SameCells(Reconcile(t, fields), t);
  }

  /**
   * Saving a canonical table and loading it back yields exactly what was
   * written: the same columns and rows, `None` read back as `NaN`, and
   * `updated_at` coerced.
   */
  lemma SaveThenLoad(t: Table, now: string, parse: Value -> Option<string>)
    requires Canonical(t)
    ensures Distinct(TargetFields)
    ensures Reconcile(Written(CoerceUpdatedAt(t, now, parse)), TargetFields) == Written(CoerceUpdatedAt(t, now, parse))
  {
    ReconcileKeeps(Written(CoerceUpdatedAt(t, now, parse)), TargetFields);
  }

  /** A table read back from the workbook holds no `None` cell, so writing it changes nothing. */
  lemma WrittenFixed(t: Table)
    requires WellFormed(t)
    ensures Written(Written(t)) == Written(t)
  {
    WrittenCells(t);
    WrittenCells(Written(t));
    SameCells(Written(Written(t)), Written(t));
  }

  /**
   * A table read back from the workbook has only timestamps in `updated_at`,
   * so coercing it again, at any later time, changes nothing.
   */
  lemma CoerceWrittenFixed(c: Table, later: string, parse: Value -> Option<string>)
    requires WellFormed(c) && KeepsStamps(parse)
    requires UpdatedAtField in c.columns ==> forall i :: 0 <= i < |c.rows| ==> c.rows[i][UpdatedAtField].Stamp?
    ensures CoerceUpdatedAt(Written(c), later, parse) == Written(c)
  {
    var once := Written(c);
    WrittenCells(c);
    var again := CoerceUpdatedAt(once, later, parse);
    forall i | 0 <= i < |once.rows| && UpdatedAtField in c.columns
      ensures again.rows[i][UpdatedAtField] == once.rows[i][UpdatedAtField]
    {
      assert once.rows[i][UpdatedAtField] == c.rows[i][UpdatedAtField];
    }
    SameCells(again, once);
  }

  /**
   * Once a canonical table has been saved and loaded, saving and loading it
   * again, at any later time, gives the same table: the round trip is stable.
   */
  lemma SaveLoadStable(t: Table, now: string, later: string, parse: Value -> Option<string>)
    requires Canonical(t) && KeepsStamps(parse)
    ensures Distinct(TargetFields)
    ensures var once := Reconcile(Written(CoerceUpdatedAt(t, now, parse)), TargetFields);
      Reconcile(Written(CoerceUpdatedAt(once, later, parse)), TargetFields) == once
  {
    var c := CoerceUpdatedAt(t, now, parse);
    SaveThenLoad(t, now, parse);
    CoerceWrittenFixed(c, later, parse);
    WrittenFixed(c);
    ReconcileKeeps(Written(c), TargetFields);
  }

  /** The catalog workbook. */
  class CatalogStore {
    /** The items sheet as last written; `None` while the file does not exist. */
    var file: Option<Table>

    ghost predicate Valid()
      reads this
    {
      file.Some? ==> WellFormed(file.value)
    }

    constructor(initial: Option<Table>)
      requires initial.Some? ==> WellFormed(initial.value)
      ensures file == initial && Valid()
    {
      file := initial;
    }

    /** Creates the file, holding an empty sheet with the target columns, when it does not exist. */
    method EnsureFile()
      requires Valid()
      modifies this
      ensures Valid()
      ensures file == if old(file).None? then Some(EmptyCatalog) else old(file)
    {
      if file.None? {
        TargetFieldsDistinct();
        file := Some(EmptyCatalog);
      }
    }

    /**
     * Reads the sheet (creating the file first when absent), adds each target
     * column it lacks as a column of `None`, and returns the target columns in
     * order.
     */
    method LoadItems() returns (t: Table)
      requires Valid()
      modifies this
      ensures Valid()
      ensures file == if old(file).None? then Some(EmptyCatalog) else old(file)
      ensures file.Some? && Distinct(TargetFields) && t == Reconcile(file.value, TargetFields)
      ensures Canonical(t)
    {
      EnsureFile();
      var stored := file.value;
      var cur := AddMissing(stored, TargetFields);
      LoadedIsReconciled(stored);
      t := Select(cur, TargetFields);
    }

    /**
     * Coerces the `updated_at` column of the caller's table (in place in the
     * caller's frame, returned here as `coerced`) and overwrites the sheet
     * with it.
     */
    method SaveItems(t: Table, now: string, parse: Value -> Option<string>) returns (coerced: Table)
      requires Valid() && WellFormed(t)
      modifies this
      ensures Valid()
      ensures coerced == CoerceUpdatedAt(t, now, parse)
      ensures file == Some(Written(coerced))
    {
      coerced := t;
      if UpdatedAtField in t.columns {
        var stamps := seq(|t.rows|, i requires 0 <= i < |t.rows| => StampOrNow(t.rows[i][UpdatedAtField], now, parse));
        coerced := WithColumn(t, UpdatedAtField, stamps);
      }
      file := Some(Written(coerced));
    }
  }
}
