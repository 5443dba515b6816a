/**
 * The record operations of the data-management page: registering a new
 * record, assigning meeting numbers to chosen records, and deleting chosen
 * records, each saved to the catalog and written to the audit log.
 */
module MainViewRecords {
  import opened Wrappers
  import opened Strings
  import opened Values
  import opened Tables
  import opened Config
  import opened Storage
  import opened MemberIndex
  import opened Audit
  import opened MainView

  // ---------------------------------------------------------------------------
  // The next id
  // ---------------------------------------------------------------------------

  /**
   * The largest id: each cell read as a number, unreadable ones as 0, and
   * truncated to an integer. Truncation keeps order, so truncating each cell
   * and then taking the maximum is truncating the maximum.
   */
  function MaxId(ids: seq<Value>): (m: int)
    requires ids != []
    ensures forall i :: 0 <= i < |ids| ==> NumberOrZero(ids[i]) <= m
    ensures exists i :: 0 <= i < |ids| && NumberOrZero(ids[i]) == m
  {
    if |ids| == 1 then NumberOrZero(ids[0])
    else
      var rest := MaxId(ids[1..]);
      assert forall i :: 1 <= i < |ids| ==> ids[i] == ids[1..][i - 1];
      if NumberOrZero(ids[0]) >= rest then NumberOrZero(ids[0]) else rest
  }

  /**
   * The next id as the code computes it: one more than the largest id. On a
   * catalog without rows the maximum is `NaN`, and converting it to an
   * integer raises: `None`.
   */
  function NextIdAsWritten(t: Table): (r: Option<int>)
    requires WellFormed(t) && IdField in t.columns
    ensures r.Some? <==> t.rows != []
  {
    if t.rows == [] then None else Some(MaxId(Column(t, IdField)) + 1)
  }

  /** The first registration into an empty catalog fails. */
  lemma NextIdFailsOnEmptyCatalog()
    ensures Canonical(EmptyCatalog)
    ensures NextIdAsWritten(EmptyCatalog) == None
  {
    TargetFieldsDistinct();
  }

  /**
   * The next id: 1 for a catalog without rows, otherwise one more than the
   * largest id, so it is the least integer above every id.
   */
  function NextId(t: Table): (r: int)
    requires WellFormed(t) && IdField in t.columns
    ensures t.rows == [] ==> r == 1
    ensures forall i :: 0 <= i < |t.rows| ==> NumberOrZero(t.rows[i][IdField]) < r
    ensures t.rows != [] ==> exists i :: 0 <= i < |t.rows| && NumberOrZero(t.rows[i][IdField]) == r - 1
  {
    if t.rows == [] then 1 else MaxId(Column(t, IdField)) + 1
  }

  /** Where the code gives an id at all, it is the corrected one. */
  lemma NextIdAgrees(t: Table)
    requires WellFormed(t) && IdField in t.columns && t.rows != []
    ensures NextIdAsWritten(t) == Some(NextId(t))
  {
  }

  /** The new id is taken by no record whose id is an integer. */
  lemma NextIdIsFresh(t: Table)
    requires WellFormed(t) && IdField in t.columns
    ensures forall i :: 0 <= i < |t.rows| ==> t.rows[i][IdField] != Int(NextId(t))
  {
    forall i | 0 <= i < |t.rows| ensures t.rows[i][IdField] != Int(NextId(t)) {
      assert NumberOrZero(t.rows[i][IdField]) < NextId(t);
    }
  }

  // ---------------------------------------------------------------------------
  // Registering a record
  // ---------------------------------------------------------------------------

  /**
   * The record a submission adds, from the tidied form. The handler strips
   * each text field once more; on a tidied form that changes nothing
   * (`TidiedIsStripped`), so the fields are taken as they are.
   */
  function NewRecord(id: int, f: EntryForm, now: string): Record {
    map[IdField := Int(id), MemberField := Str(f.member), NameField := Str(f.brand),
        BreweryField := Str(f.brewery), RegionField := Str(f.region),
        CategoryField := Str(f.category), PolishField := Str(f.ratio),
        UpdatedAtField := Stamp(now), NoteField := Str(f.note), MeetingField := Str(PendingLabel)]
  }

  /**
   * `pd.concat([t, new_row], ignore_index=True)`: the record as a last row,
   * with `NaN` in the columns it lacks.
   */
  function Appended(t: Table, rec: Record): (r: Table)
    requires WellFormed(t) && forall c :: c in rec ==> c in t.columns
    ensures WellFormed(r) && r.columns == t.columns && |r.rows| == |t.rows| + 1
  {
    Table(t.columns, t.rows + [map c | c in t.columns :: if c in rec then rec[c] else Missing])
  }

  /** The earlier rows stay as they were, and the last row holds the record's cells. */
  lemma AppendedRows(t: Table, rec: Record)
    requires WellFormed(t) && forall c :: c in rec ==> c in t.columns
    ensures Appended(t, rec).rows[..|t.rows|] == t.rows
    ensures forall c :: c in t.columns ==> Appended(t, rec).rows[|t.rows|][c] == if c in rec then rec[c] else Missing
  {
  }

  /** The new record has only catalog columns. */
  lemma NewRecordColumns(id: int, f: EntryForm, now: string)
    ensures forall c :: c in NewRecord(id, f, now) ==> c in TargetFields
  {
    assert TargetFields == [IdField, NameField, CategoryField, QuantityField, UpdatedAtField,
      MemberField, BreweryField, RegionField, PolishField, NoteField, MeetingField, MeetingDateField];
  }

  /**
   * The new record carries the given id, the form's brand as its name and
   * its member name, the pending label as its meeting and the submission
   * time as `updated_at`.
   */
  lemma NewRecordCells(id: int, f: EntryForm, now: string)
    ensures IdField in NewRecord(id, f, now) && NewRecord(id, f, now)[IdField] == Int(id)
    ensures NameField in NewRecord(id, f, now) && NewRecord(id, f, now)[NameField] == Str(f.brand)
    ensures MemberField in NewRecord(id, f, now) && NewRecord(id, f, now)[MemberField] == Str(f.member)
    ensures MeetingField in NewRecord(id, f, now) && NewRecord(id, f, now)[MeetingField] == Str(PendingLabel)
    ensures UpdatedAtField in NewRecord(id, f, now) && NewRecord(id, f, now)[UpdatedAtField] == Stamp(now)
  {
    var later := [BreweryField, RegionField, CategoryField, PolishField, UpdatedAtField, NoteField, MeetingField];
    assert IdField !in later && MemberField !in later && NameField !in later;
    assert IdField != MemberField && IdField != NameField && MemberField != NameField;
    assert UpdatedAtField != NoteField && UpdatedAtField != MeetingField;
  }

  /** A newly registered record shows in the pending group. */
  lemma NewRecordIsPending(id: int, f: EntryForm, now: string)
    ensures MeetingField in NewRecord(id, f, now)
    ensures MeetingLabel(NewRecord(id, f, now)[MeetingField]) == PendingLabel
  {
    NewRecordCells(id, f, now);
    LabelOfTextPending(PendingLabel);
    LabelOfPending();
  }

  // ---------------------------------------------------------------------------
  // Assigning meeting numbers
  // ---------------------------------------------------------------------------

  /** The meeting cell stored for the normalised input: `None` or the number's text. */
  function MeetingCell(m: Option<string>): Value {
    if m.Some? then Str(m.value) else Null
  }

  /** A cleared meeting shows as pending again. */
  lemma ClearedMeetingIsPending()
    ensures MeetingLabel(MeetingCell(None)) == PendingLabel
  {
    assert Strip("None") == "None" by { assert !IsSpace('N') && !IsSpace('e'); }
    LabelOfTextPending("None");
  }

  /** `df.loc[chosen, "例会"] = v`: the chosen rows take `v` as their meeting, every other cell stays. */
  function AssignMeeting(t: Table, chosen: seq<nat>, v: Value): (r: Table)
    requires WellFormed(t) && MeetingField in t.columns
    ensures WellFormed(r) && r.columns == t.columns && |r.rows| == |t.rows|
    ensures forall i :: 0 <= i < |t.rows| && i !in chosen ==> r.rows[i] == t.rows[i]
    ensures forall i, c :: 0 <= i < |t.rows| && i in chosen && c in t.columns ==>
      r.rows[i][c] == if c == MeetingField then v else t.rows[i][c]
  {
    Table(t.columns, seq(|t.rows|, i requires 0 <= i < |t.rows| =>
      if i in chosen then t.rows[i][MeetingField := v] else t.rows[i]))
  }

  /**
   * After an assignment from the input `s`, every chosen record displays as
   * the ordinal of the number typed, or as pending when nothing was kept.
   */
  lemma AssignedRecordsDisplay(t: Table, chosen: seq<nat>, s: Option<string>, clear: bool)
    requires WellFormed(t) && MeetingField in t.columns
    ensures var m := NormalizeMeeting(s, clear);
      var r := AssignMeeting(t, chosen, MeetingCell(m));
      forall i :: 0 <= i < |t.rows| && i in chosen ==>
        MeetingLabel(r.rows[i][MeetingField]) == if m.Some? then Ordinal(m.value) else PendingLabel
  {
    var m := NormalizeMeeting(s, clear);
    if m.Some? {
      assert !clear;
      AssignedMeetingDisplay(s);
    } else {
      ClearedMeetingIsPending();
    }
  }

  /** `after` differs from `before` at most in the meeting and the update time. */
  predicate OnlyMeetingChanged(before: Record, after: Record) {
    && before.Keys == after.Keys
    && forall c :: c in before && c != MeetingField && c != UpdatedAtField ==> after[c] == before[c]
  }

  /** An audited meeting update names no field but the meeting and the update time as changed. */
  lemma MeetingUpdateChangedFields(before: Record, after: Record)
    requires OnlyMeetingChanged(before, after)
    ensures ChangedFields(Some(before), Some(after)) <= {MeetingField, UpdatedAtField}
  {
    forall k | k in ChangedFields(Some(before), Some(after))
      ensures k == MeetingField || k == UpdatedAtField
    {
      if before != map[] && after != map[] {
        assert Differs(before, after, k);
      }
    }
  }

  /** Assigning and then saving changes no cell of a chosen row but its meeting and its update time. */
  lemma AssignThenSaveChangesOnlyMeeting(t: Table, chosen: seq<nat>, v: Value, now: string,
                                         parse: Value -> Option<string>, i: nat)
    requires WellFormed(t) && MeetingField in t.columns && i < |t.rows|
    ensures OnlyMeetingChanged(t.rows[i], CoerceUpdatedAt(AssignMeeting(t, chosen, v), now, parse).rows[i])
  {
    var a := AssignMeeting(t, chosen, v);
    var c := CoerceUpdatedAt(a, now, parse);
    assert forall d :: d in t.rows[i] <==> d in t.columns;
    assert forall d :: d in c.rows[i] <==> d in t.columns;
  }

  /** `row.get("id")`. */
  function IdOf(row: Row): Value {
    Get(row, IdField, Null)
  }

  /** Two id cells that `==` on the id column matches: equal and not null. */
  predicate SameId(a: Value, b: Value) {
    !IsNa(a) && a == b
  }

  /** `df[df["id"] == rid].iloc[0]`: the first row whose id matches, `None` when `iloc[0]` raises. */
  function FirstWithId(rows: seq<Row>, rid: Value): (r: Option<Row>)
    ensures r.Some? ==> exists i :: (
      0 <= i < |rows| && rows[i] == r.value && SameId(IdOf(rows[i]), rid) &&
      (forall j :: 0 <= j < i ==> !SameId(IdOf(rows[j]), rid)))
    ensures r.None? ==> forall i :: 0 <= i < |rows| ==> !SameId(IdOf(rows[i]), rid)
  {
    if rows == [] then None
    else if SameId(IdOf(rows[0]), rid) then Some(rows[0])
    else
      var r := FirstWithId(rows[1..], rid);
      assert forall i :: 1 <= i < |rows| ==> rows[i] == rows[1..][i - 1];
      if r.Some? then
        assert exists i :: (
          1 <= i < |rows| && rows[i] == r.value && SameId(IdOf(rows[i]), rid) &&
          (forall j :: 0 <= j < i ==> !SameId(IdOf(rows[j]), rid))) by {
          var k :| 0 <= k < |rows[1..]| && rows[1..][k] == r.value && SameId(IdOf(rows[1..][k]), rid) &&
            (forall j :: 0 <= j < k ==> !SameId(IdOf(rows[1..][j]), rid));
          assert rows[k + 1] == r.value;
        }
        r
      else r
  }

  /** The ids of the rows are set and pairwise different. */
  predicate UniqueIds(rows: seq<Row>) {
    && (forall i :: 0 <= i < |rows| ==> !IsNa(IdOf(rows[i])))
    && (forall i, j :: 0 <= i < j < |rows| ==> IdOf(rows[i]) != IdOf(rows[j]))
  }

  /** With unique ids, the row found by id is the row at the same position. */
  lemma FirstWithIdFindsRow(before: seq<Row>, after: seq<Row>, i: nat)
    requires UniqueIds(before) && i < |before| && |after| == |before|
    requires forall j :: 0 <= j < |after| ==> IdOf(after[j]) == IdOf(before[j])
    ensures FirstWithId(after, IdOf(before[i])) == Some(after[i])
  {
    var r := FirstWithId(after, IdOf(before[i]));
    assert SameId(IdOf(after[i]), IdOf(before[i]));
    var k :| 0 <= k < |after| && after[k] == r.value && SameId(IdOf(after[k]), IdOf(before[i])) &&
      (forall j :: 0 <= j < k ==> !SameId(IdOf(after[j]), IdOf(before[i])));
    assert k == i;
  }

  /** The saved row the update loop pairs with the snapshot `b`: the first with its id. */
  function Lookup(saved: seq<Row>, b: Row): Row {
    match FirstWithId(saved, IdOf(b))
    case Some(a) => a
    case None => map[]
  }

  /** How many snapshots, from the first on, find a saved row by id: the update loop stops after them. */
  function FoundCount(before: seq<Row>, saved: seq<Row>): (k: nat)
    ensures k <= |before|
    ensures forall i :: 0 <= i < k ==> FirstWithId(saved, IdOf(before[i])).Some?
    ensures k < |before| ==> FirstWithId(saved, IdOf(before[k])).None?
  {
    if before == [] || FirstWithId(saved, IdOf(before[0])).None? then 0
    else
      var k := FoundCount(before[1..], saved);
      assert forall i :: 1 <= i < k + 1 ==> before[i] == before[1..][i - 1];
      k + 1
  }

  /** The entries for the first `n` snapshots, each paired with its saved row. */
  function UpdateRows(before: seq<Row>, saved: seq<Row>, user: Option<string>, now: string, n: nat): (es: seq<AuditEntry>)
    requires n <= |before|
    ensures |es| == n
    ensures forall i :: 0 <= i < n ==> es[i] == MakeEntry("update_meeting", user, Some(before[i]), Some(Lookup(saved, before[i])), now)
  {
    seq(n, i requires 0 <= i < n <= |before| =>
      MakeEntry("update_meeting", user, Some(before[i]), Some(Lookup(saved, before[i])), now))
  }

  /**
   * What the update loop appends for the snapshots `before`: an entry for
   * each snapshot up to the first whose id finds no saved row, and whether
   * every snapshot found one.
   */
  function UpdateEntries(before: seq<Row>, saved: seq<Row>, user: Option<string>, now: string): (seq<AuditEntry>, bool) {
    var k := FoundCount(before, saved);
    (UpdateRows(before, saved, user, now, k), k == |before|)
  }

  /** Each step of the loop adds one entry at the end. */
  lemma UpdateRowsStep(before: seq<Row>, saved: seq<Row>, user: Option<string>, now: string, n: nat)
    requires n < |before|
    ensures UpdateRows(before, saved, user, now, n + 1) ==
      UpdateRows(before, saved, user, now, n) + [MakeEntry("update_meeting", user, Some(before[n]), Some(Lookup(saved, before[n])), now)]
  {
  }

  /** With unique ids every snapshot is found, and paired with the saved row at its position. */
  lemma UpdateEntriesComplete(rows: seq<Row>, chosen: seq<nat>, saved: seq<Row>, user: Option<string>, now: string)
    requires UniqueIds(rows) && |saved| == |rows|
    requires forall j :: 0 <= j < |saved| ==> IdOf(saved[j]) == IdOf(rows[j])
    requires forall j :: 0 <= j < |chosen| ==> chosen[j] < |rows|
    ensures UpdateEntries(Picked(rows, chosen), saved, user, now).1
    ensures |UpdateEntries(Picked(rows, chosen), saved, user, now).0| == |chosen|
    ensures forall j :: 0 <= j < |chosen| ==> (
      UpdateEntries(Picked(rows, chosen), saved, user, now).0[j] ==
      MakeEntry("update_meeting", user, Some(rows[chosen[j]]), Some(saved[chosen[j]]), now))
  {
    var before := Picked(rows, chosen);
    forall i | 0 <= i < |before| ensures Lookup(saved, before[i]) == saved[chosen[i]] {
      FirstWithIdFindsRow(rows, saved, chosen[i]);
    }
    var k := FoundCount(before, saved);
    if k < |before| {
      FirstWithIdFindsRow(rows, saved, chosen[k]);
      assert false;
    }
  }

  /** `df.loc[chosen]`: the rows at the chosen positions, in the order chosen. */
  function Picked(rows: seq<Row>, chosen: seq<nat>): (r: seq<Row>)
    requires forall j :: 0 <= j < |chosen| ==> chosen[j] < |rows|
    ensures |r| == |chosen| && forall j :: 0 <= j < |chosen| ==> r[j] == rows[chosen[j]]
  {
    seq(|chosen|, j requires 0 <= j < |chosen| && chosen[j] < |rows| => rows[chosen[j]])
  }

  /**
   * On a catalog whose ids are unique, the audit of a meeting update never
   * stops: each chosen row is logged with the row saved at its position.
   */
  lemma UpdateAuditsEveryChosenRow(t: Table, chosen: seq<nat>, v: Value, now: string,
                                   parse: Value -> Option<string>, user: Option<string>)
    requires WellFormed(t) && MeetingField in t.columns && IdField in t.columns && UniqueIds(t.rows)
    requires forall j :: 0 <= j < |chosen| ==> chosen[j] < |t.rows|
    ensures var saved := CoerceUpdatedAt(AssignMeeting(t, chosen, v), now, parse).rows;
      var r := UpdateEntries(Picked(t.rows, chosen), saved, user, now);
      && r.1 && |r.0| == |chosen|
      && forall j :: 0 <= j < |chosen| ==> (
        r.0[j] == MakeEntry("update_meeting", user, Some(t.rows[chosen[j]]), Some(saved[chosen[j]]), now))
  {
    var saved := CoerceUpdatedAt(AssignMeeting(t, chosen, v), now, parse).rows;
    forall j | 0 <= j < |saved| ensures IdOf(saved[j]) == IdOf(t.rows[j]) {
      AssignThenSaveChangesOnlyMeeting(t, chosen, v, now, parse, j);
    }
    UpdateEntriesComplete(t.rows, chosen, saved, user, now);
  }

  /** Why a meeting update does nothing or stops. */
  datatype UpdateError = NothingChosen | UnknownRow | RowNotFound

  // ---------------------------------------------------------------------------
  // Deleting records
  // ---------------------------------------------------------------------------

  /** `df["id"].isin(chosen)` for one row. */
  predicate Hit(row: Row, chosen: seq<Value>) {
    IdOf(row) in chosen
  }

  /** `df[~df["id"].isin(chosen)]`: the rows not chosen, in order. */
  function Unchosen(rows: seq<Row>, chosen: seq<Value>): (kept: seq<Row>)
    ensures |kept| <= |rows|
    ensures forall i :: 0 <= i < |kept| ==> !Hit(kept[i], chosen)
  {
    if rows == [] then []
    else (if Hit(rows[0], chosen) then [] else [rows[0]]) + Unchosen(rows[1..], chosen)
  }

  /** `df[df["id"].isin(chosen)]`: the chosen rows, in order. */
  function Chosen(rows: seq<Row>, chosen: seq<Value>): (hit: seq<Row>)
    ensures |hit| <= |rows|
    ensures forall i :: 0 <= i < |hit| ==> Hit(hit[i], chosen)
  {
    if rows == [] then []
    else (if Hit(rows[0], chosen) then [rows[0]] else []) + Chosen(rows[1..], chosen)
  }

  /** The kept rows are exactly the rows not chosen, each as often as in the table. */
  lemma {:induction false} UnchosenCounts(rows: seq<Row>, chosen: seq<Value>)
    ensures forall r :: multiset(Unchosen(rows, chosen))[r] == if Hit(r, chosen) then 0 else multiset(rows)[r]
    decreases |rows|
  {
    if rows != [] {
      UnchosenCounts(rows[1..], chosen);
      assert rows == [rows[0]] + rows[1..];
    }
  }

  /** The deleted rows are exactly the chosen rows, each as often as in the table. */
  lemma {:induction false} ChosenCounts(rows: seq<Row>, chosen: seq<Value>)
    ensures forall r :: multiset(Chosen(rows, chosen))[r] == if Hit(r, chosen) then multiset(rows)[r] else 0
    decreases |rows|
  {
    if rows != [] {
      ChosenCounts(rows[1..], chosen);
      assert rows == [rows[0]] + rows[1..];
    }
  }

  /** Filtering distributes over concatenation: the kept rows keep their relative order. */
  lemma {:induction false} UnchosenAppend(a: seq<Row>, b: seq<Row>, chosen: seq<Value>)
    ensures Unchosen(a + b, chosen) == Unchosen(a, chosen) + Unchosen(b, chosen)
    decreases |a|
  {
    if a == [] {
      assert a + b == b;
    } else {
      assert (a + b)[0] == a[0];
      assert (a + b)[1..] == a[1..] + b;
      UnchosenAppend(a[1..], b, chosen);
      var h: seq<Row> := if Hit(a[0], chosen) then [] else [a[0]];
      assert h + (Unchosen(a[1..], chosen) + Unchosen(b, chosen)) == (h + Unchosen(a[1..], chosen)) + Unchosen(b, chosen);
    }
  }

  /** Deleting splits the table: every row is either kept or deleted, and deleting nothing keeps every row. */
  lemma DeletePartition(rows: seq<Row>, chosen: seq<Value>)
    ensures multiset(Unchosen(rows, chosen)) + multiset(Chosen(rows, chosen)) == multiset(rows)
    ensures chosen == [] ==> Unchosen(rows, chosen) == rows && Chosen(rows, chosen) == []
  {
    UnchosenCounts(rows, chosen);
    ChosenCounts(rows, chosen);
    if chosen == [] {
      UnchosenNone(rows, chosen);
    }
  }

  lemma {:induction false} UnchosenNone(rows: seq<Row>, chosen: seq<Value>)
    requires chosen == []
    ensures Unchosen(rows, chosen) == rows && Chosen(rows, chosen) == []
    decreases |rows|
  {
    if rows != [] {
      UnchosenNone(rows[1..], chosen);
    }
  }

  /** The kept rows of a well-formed table form a well-formed table with the same columns. */
  lemma {:induction false} UnchosenWellFormed(t: Table, chosen: seq<Value>)
    requires WellFormed(t)
    ensures WellFormed(Table(t.columns, Unchosen(t.rows, chosen)))
    decreases |t.rows|
  {
    if t.rows != [] {
      var rest := Table(t.columns, t.rows[1..]);
      assert forall i :: 0 <= i < |rest.rows| ==> rest.rows[i] == t.rows[i + 1];
      UnchosenWellFormed(rest, chosen);
    }
  }

  /** The entries the delete loop appends: one per deleted row, in table order, with no after-side. */
  function DeleteEntries(before: seq<Row>, user: Option<string>, now: string): (es: seq<AuditEntry>)
    ensures |es| == |before|
    ensures forall j :: 0 <= j < |es| ==> (
      es[j].action == "delete" && Changed(es[j]) == {} && es[j].before == OrEmpty(Some(before[j])))
  {
    seq(|before|, j requires 0 <= j < |before| => MakeEntry("delete", user, Some(before[j]), None, now))
  }

  // ---------------------------------------------------------------------------
  // The page's actions
  // ---------------------------------------------------------------------------

  /** The catalog as the page loads it from the stored sheet. */
  function Loaded(file: Option<Table>): (t: Table)
    requires file.Some? ==> WellFormed(file.value)
    ensures Canonical(t)
  {
    TargetFieldsDistinct();
    Reconcile(if file.Some? then file.value else EmptyCatalog, TargetFields)
  }

  /**
   * The update loop's audit: for each snapshot in order, the saved row with
   * its id is looked up and the pair appended to the log; a failed lookup
   * stops the loop, with the entries so far kept.
   */
  method AuditUpdates(log: AuditLog, before: seq<Row>, saved: seq<Row>, user: Option<string>, now: string)
    returns (found: bool)
    modifies log
    ensures found == UpdateEntries(before, saved, user, now).1
    ensures log.file == Extended(old(log.file), UpdateEntries(before, saved, user, now).0)
  {
    ghost var start := log.file;
    var j := 0;
    while j < |before|
      invariant 0 <= j <= |before|
      invariant forall i :: 0 <= i < j ==> FirstWithId(saved, IdOf(before[i])).Some?
      invariant log.file == Extended(start, UpdateRows(before, saved, user, now, j))
    {
      var after := FirstWithId(saved, IdOf(before[j]));
      if after.None? {
        assert FoundCount(before, saved) == j;
        return false;
      }
      UpdateRowsStep(before, saved, user, now, j);
      ExtendedStep(start, UpdateRows(before, saved, user, now, j),
                   MakeEntry("update_meeting", user, Some(before[j]), Some(after.value), now));
      log.Append("update_meeting", user, Some(before[j]), Some(after.value), now);
      j := j + 1;
    }
    assert FoundCount(before, saved) == |before|;
    return true;
  }

  /** The delete loop's audit: one entry per deleted row, in order. */
  method AuditDeletes(log: AuditLog, before: seq<Row>, user: Option<string>, now: string)
    modifies log
    ensures log.file == Extended(old(log.file), DeleteEntries(before, user, now))
  {
    ghost var start := log.file;
    for j := 0 to |before|
      invariant log.file == Extended(start, DeleteEntries(before[..j], user, now))
    {
      var e := MakeEntry("delete", user, Some(before[j]), None, now);
      assert DeleteEntries(before[..j + 1], user, now) == DeleteEntries(before[..j], user, now) + [e];
      ExtendedStep(start, DeleteEntries(before[..j], user, now), e);
      log.Append("delete", user, Some(before[j]), None, now);
    }
    assert before[..|before|] == before;
  }

  /** The record registering `f` adds to the catalog stored as `file`. */
  function AddedRecord(file: Option<Table>, f: EntryForm, now: string): Record
    requires file.Some? ==> WellFormed(file.value)
  {
    NewRecord(NextId(Loaded(file)), f, now)
  }

  /** The catalog saved when `f` is registered into the catalog stored as `file`. */
  function AddedCatalog(file: Option<Table>, f: EntryForm, now: string, parse: Value -> Option<string>): Table
    requires file.Some? ==> WellFormed(file.value)
  {
    NewRecordColumns(NextId(Loaded(file)), f, now);
    CoerceUpdatedAt(Appended(Loaded(file), AddedRecord(file, f, now)), now, parse)
  }

  /**
   * The store half of a registration: the loaded catalog with the new record
   * appended under the next id is saved.
   */
  method StoreRecord(store: CatalogStore, f: EntryForm, now: string, parse: Value -> Option<string>)
    returns (id: int, rec: Record)
    requires store.Valid()
    modifies store
    ensures store.Valid()
    ensures id == NextId(Loaded(old(store.file)))
    ensures rec == AddedRecord(old(store.file), f, now)
    ensures store.file == Some(Written(AddedCatalog(old(store.file), f, now, parse)))
  {
    ghost var file0 := store.file;
    var t := store.LoadItems();
    assert t == Loaded(file0);
    id := NextId(t);
    rec := NewRecord(id, f, now);
    NewRecordColumns(id, f, now);
    var _ := store.SaveItems(Appended(t, rec), now, parse);
  }

  /**
   * The registration proper, for an already tidied form: the record is
   * stored, the member name's count goes up by one and the addition is
   * audited.
   */
  method Register(store: CatalogStore, history: MemberHistory, log: AuditLog, f: EntryForm,
                  user: Option<string>, now: string, parse: Value -> Option<string>)
    returns (id: int)
    requires store.Valid()
    modifies store, history, log
    ensures store.Valid()
    ensures id == NextId(Loaded(old(store.file)))
    ensures store.file == Some(Written(AddedCatalog(old(store.file), f, now, parse)))
    ensures history.counts == old(history.counts)[f.member := CountOf(old(history.counts), f.member) + 1]
    ensures log.file == Sheet(Entries(old(log.file)) + [MakeEntry("add", user, None, Some(AddedRecord(old(store.file), f, now)), now)])
  {
    ghost var counts0 := history.counts;
    var rec;
    id, rec := StoreRecord(store, f, now, parse);
    assert history.counts == counts0;
    history.Bump(f.member);
    ghost var counts1 := history.counts;
    assert counts1 == counts0[f.member := CountOf(counts0, f.member) + 1];
    log.Append("add", user, None, Some(rec), now);
    assert history.counts == counts1;
  }

  /**
   * Registers the entry form: refused, with nothing written, when a check
   * fails; otherwise the tidied form is registered.
   */
  method Submit(store: CatalogStore, history: MemberHistory, log: AuditLog, form: EntryForm,
                fold: char -> char, user: Option<string>, now: string, parse: Value -> Option<string>)
    returns (res: Result<int, set<EntryError>>)
    requires store.Valid()
    modifies store, history, log
    ensures store.Valid()
    ensures res.Err? <==> EntryErrors(form, fold) != {}
    ensures res.Err? ==> (
      && res.error == EntryErrors(form, fold)
      && store.file == old(store.file) && history.counts == old(history.counts) && log.file == old(log.file))
    ensures res.Ok? ==> res.value == NextId(Loaded(old(store.file)))
    ensures res.Ok? ==> store.file == Some(Written(AddedCatalog(old(store.file), Tidied(form, fold), now, parse)))
    ensures res.Ok? ==> (
      var name := Tidied(form, fold).member;
      history.counts == old(history.counts)[name := CountOf(old(history.counts), name) + 1])
    ensures res.Ok? ==> (
      var rec := AddedRecord(old(store.file), Tidied(form, fold), now);
      log.file == Sheet(Entries(old(log.file)) + [MakeEntry("add", user, None, Some(rec), now)]))
  {
    var errs := EntryErrors(form, fold);
    if errs != {} {
      return Err(errs);
    }
    var f := Tidied(form, fold);
    var id := Register(store, history, log, f, user, now, parse);
    assert history.counts == old(history.counts)[f.member := CountOf(old(history.counts), f.member) + 1];
    res := Ok(id);
  }

  /**
   * Gives the chosen rows the meeting number typed (or none, when clearing),
   * saves the catalog and audits each chosen row with its saved version,
   * found by id. Nothing is written when no row is chosen or a chosen row
   * does not exist; the audit stops at a row whose id finds no saved row.
   */
  method UpdateMeetings(store: CatalogStore, log: AuditLog, chosen: seq<nat>, input: Option<string>, clear: bool,
                        user: Option<string>, now: string, parse: Value -> Option<string>)
    returns (res: Result<nat, UpdateError>)
    requires store.Valid()
    modifies store, log
    ensures store.Valid()
    ensures var t := Loaded(old(store.file));
      && (res == Err(NothingChosen) <==> chosen == [])
      && (res == Err(UnknownRow) <==> (chosen != [] && exists j :: 0 <= j < |chosen| && chosen[j] >= |t.rows|))
      && (res.Err? && res.error != RowNotFound ==> (
            && log.file == old(log.file)
            && store.file == if old(store.file).None? then Some(EmptyCatalog) else old(store.file)))
    ensures var t := Loaded(old(store.file));
      (chosen != [] && (forall j :: 0 <= j < |chosen| ==> chosen[j] < |t.rows|)) ==> (
        var saved := CoerceUpdatedAt(AssignMeeting(t, chosen, MeetingCell(NormalizeMeeting(input, clear))), now, parse);
        var entries := UpdateEntries(Picked(t.rows, chosen), saved.rows, user, now);
        && store.file == Some(Written(saved))
        && log.file == Extended(old(log.file), entries.0)
        && (res.Ok? <==> entries.1)
        && (res.Ok? ==> res.value == |chosen|))
  {
    var t := store.LoadItems();
    if chosen == [] {
      return Err(NothingChosen);
    }
    if exists j :: 0 <= j < |chosen| && chosen[j] >= |t.rows| {
      return Err(UnknownRow);
    }
    var m := NormalizeMeeting(input, clear);
    var before := Picked(t.rows, chosen);
    var updated := AssignMeeting(t, chosen, MeetingCell(m));
    var saved := store.SaveItems(updated, now, parse);
    var found := AuditUpdates(log, before, saved.rows, user, now);
    if found {
      res := Ok(|chosen|);
    } else {
      res := Err(RowNotFound);
    }
  }

  /** The catalog stored as `file` without the rows whose id is chosen, columns kept. */
  function KeptCatalog(file: Option<Table>, chosen: seq<Value>): (r: Table)
    requires file.Some? ==> WellFormed(file.value)
    ensures WellFormed(r) && r.columns == TargetFields
  {
    var t := Loaded(file);
    UnchosenWellFormed(t, chosen);
    Table(t.columns, Unchosen(t.rows, chosen))
  }

  /**
   * Deletes the records whose id is among the chosen ones, once the word
   * DELETE is confirmed: the remaining rows are saved in their order and each
   * deleted row is audited, in table order.
   */
  method DeleteRecords(store: CatalogStore, log: AuditLog, chosen: seq<Value>, confirm: string,
                       user: Option<string>, now: string, parse: Value -> Option<string>)
    requires store.Valid()
    modifies store, log
    ensures store.Valid()
    ensures chosen == [] || confirm != "DELETE" ==> (
      && log.file == old(log.file)
      && store.file == if old(store.file).None? then Some(EmptyCatalog) else old(store.file))
    ensures chosen != [] && confirm == "DELETE" ==>
      store.file == Some(Written(CoerceUpdatedAt(KeptCatalog(old(store.file), chosen), now, parse)))
    ensures chosen != [] && confirm == "DELETE" ==>
      log.file == Extended(old(log.file), DeleteEntries(Chosen(Loaded(old(store.file)).rows, chosen), user, now))
  {
    ghost var kept := KeptCatalog(store.file, chosen);
    ghost var loaded := Loaded(store.file);
    var t := store.LoadItems();
    assert t == loaded;
    if chosen == [] || confirm != "DELETE" {
      return;
    }
    var before := Chosen(t.rows, chosen);
    var remaining := Table(t.columns, Unchosen(t.rows, chosen));
    assert remaining == kept;
    var _ := store.SaveItems(remaining, now, parse);
    AuditDeletes(log, before, user, now);
  }
}
