/**
 * The audit log: one row per catalog change, with who made it, the record it
 * concerns, the fields it changed and snapshots of the record before and after.
 */
module Audit {
  import opened Wrappers
  import opened Values

  /** A record as a Python dict from column name to cell. */
  type Record = map<string, Value>

  /**
   * One row of the log. The fields are the log's columns `ts`, `user`,
   * `action`, `record_id`, `name`, `before_json` and `after_json`, with the
   * two snapshots kept as records; the column `changed_fields` is a function
   * of the two snapshots, `Changed` below.
   */
  datatype AuditEntry = AuditEntry(
    ts: string,
    user: string,
    action: string,
    recordId: Value,
    name: Value,
    before: Record,
    after: Record)

  /** The log file: absent, present but unreadable, or a sheet of entries. */
  datatype AuditFile = Absent | Unreadable | Sheet(entries: seq<AuditEntry>)

  /** What reading the log yields once it exists: its entries, or none when it cannot be read. */
  function Entries(f: AuditFile): seq<AuditEntry> {
    if f.Sheet? then f.entries else []
  }

  /** Python truthiness of a dict argument that may be `None`: present and non-empty. */
  predicate Truthy(d: Option<Record>) {
    d.Some? && d.value != map[]
  }

  /** `d or {}`. */
  function OrEmpty(d: Option<Record>): (r: Record)
    ensures r == map[] <==> !Truthy(d)
  {
    if Truthy(d) then d.value else map[]
  }

  /** `d.get(k, default)`. */
  function Get(d: Record, k: string, default: Value): Value {
    if k in d then d[k] else default
  }

  /** `after or before or {}`: the record the entry is about. */
  function Subject(before: Option<Record>, after: Option<Record>): (r: Record)
    ensures Truthy(after) ==> r == after.value
    ensures !Truthy(after) && Truthy(before) ==> r == before.value
    ensures !Truthy(after) && !Truthy(before) ==> r == map[]
  {
    if Truthy(after) then after.value else OrEmpty(before)
  }

  /** `str(before.get(k)) != str(after.get(k))`: the key renders differently on the two sides. */
  predicate Differs(b: Record, a: Record, k: string) {
    Render(Get(b, k, Null)) != Render(Get(a, k, Null))
  }

  /**
   * The changed fields: only when both snapshots are non-empty, the keys of
   * either whose renderings differ.
   */
  function ChangedFields(before: Option<Record>, after: Option<Record>): (r: set<string>)
    ensures !Truthy(before) || !Truthy(after) ==> r == {}
    ensures forall k :: k in r ==> k in OrEmpty(before) || k in OrEmpty(after)
  {
    if Truthy(before) && Truthy(after) then
      var b, a := before.value, after.value;
      set k | k in b.Keys + a.Keys && Differs(b, a, k)
    else {}
  }

  /** `user or "-"`. */
  function UserLabel(user: Option<string>): (r: string)
    ensures r != []
    ensures user.Some? && user.value != [] ==> r == user.value
  {
    if user.Some? && user.value != [] then user.value else "-"
  }

  /** The row appended for one change made at time `now`. */
  function MakeEntry(action: string, user: Option<string>, before: Option<Record>, after: Option<Record>, now: string): AuditEntry {
    var subject := Subject(before, after);
    AuditEntry(now, UserLabel(user), action, Get(subject, "id", Str("")), Get(subject, "name", Str("")),
               OrEmpty(before), OrEmpty(after))
  }

  /** The `changed_fields` column of an entry, from the snapshots it stores. */
  function Changed(e: AuditEntry): set<string> {
    ChangedFields(Some(e.before), Some(e.after))
  }

  /** The column holds the fields changed between the two sides passed in when the entry was made. */
  lemma ChangedOfEntry(action: string, user: Option<string>, before: Option<Record>, after: Option<Record>, now: string)
    ensures Changed(MakeEntry(action, user, before, after, now)) == ChangedFields(before, after)
  {
  }

  /** Which side is "before" does not matter to the changed fields. */
  lemma ChangedFieldsSymmetric(before: Option<Record>, after: Option<Record>)
    ensures ChangedFields(before, after) == ChangedFields(after, before)
  {
  }

  /** A key is changed exactly when it is on either side and renders differently. */
  lemma ChangedFieldsExactly(b: Record, a: Record, k: string)
    requires b != map[] && a != map[]
    ensures k in ChangedFields(Some(b), Some(a)) <==> (k in b || k in a) && Differs(b, a, k)
  {
  }

  /** Adding or deleting a record (one side absent or empty) records no changed field. */
  lemma NoChangesWithoutBothSides(before: Option<Record>, after: Option<Record>)
    requires !Truthy(before) || !Truthy(after)
    ensures ChangedFields(before, after) == {}
  {
  }

  /** A record compared with itself has no changed field. */
  lemma ChangedFieldsOfSame(r: Record)
    ensures ChangedFields(Some(r), Some(r)) == {}
  {
  }

  /**
   * A key present on one side only is unchanged when its value there renders
   * as "None", the rendering of the missing side.
   */
  lemma MissingKeyMatchesNone(b: Record, a: Record, k: string)
    requires b != map[] && a != map[]
    requires k in a && k !in b && Render(a[k]) == "None"
    ensures k !in ChangedFields(Some(b), Some(a))
  {
  }

  /**
   * Updating one field of a non-empty record to a value that renders
   * differently records exactly that field as changed.
   */
  lemma SingleFieldUpdate(b: Record, k: string, v: Value)
    requires b != map[]
    requires Render(v) != Render(Get(b, k, Null))
    ensures ChangedFields(Some(b), Some(b[k := v])) == {k}
  {
    var a := b[k := v];
    assert Differs(b, a, k);
    assert forall j :: j != k ==> Get(a, j, Null) == Get(b, j, Null);
  }

  /** The log after appending the entries `es` one by one: unchanged when there are none. */
  function Extended(f: AuditFile, es: seq<AuditEntry>): (g: AuditFile)
    ensures Entries(g) == Entries(f) + es
    ensures es != [] ==> g.Sheet?
  {
    if es == [] then f else Sheet(Entries(f) + es)
  }

  /** Appending one more entry extends the log by that entry. */
  lemma ExtendedStep(f: AuditFile, es: seq<AuditEntry>, e: AuditEntry)
    ensures Extended(f, es + [e]) == Sheet(Entries(Extended(f, es)) + [e])
  {
    if es == [] {
      assert es + [e] == [e];
    } else {
      assert Entries(f) + es + [e] == Entries(f) + (es + [e]);
    }
  }

  /** The audit log file. */
  class AuditLog {
    var file: AuditFile

    constructor(initial: AuditFile)
      ensures file == initial
    {
      file := initial;
    }

    /** Creates an empty log when the file does not exist. */
    method EnsureAudit()
      modifies this
      ensures file == if old(file).Absent? then Sheet([]) else old(file)
    {
      if file.Absent? {
        file := Sheet([]);
      }
    }

    /** Reads the log (creating it when absent); an unreadable log reads as empty instead of failing. */
    method ReadAudit() returns (entries: seq<AuditEntry>)
      modifies this
      ensures file == if old(file).Absent? then Sheet([]) else old(file)
      ensures entries == Entries(file)
      ensures file.Unreadable? ==> entries == []
    {
      EnsureAudit();
      match file
      case Sheet(es) => entries := es;
      case _ => entries := [];
    }

    /**
     * Appends one entry for a change and rewrites the log: every readable
     * earlier entry is kept, in order, and the new one is last. An unreadable
     * log is replaced by one holding just the new entry.
     */
    method Append(action: string, user: Option<string>, before: Option<Record>, after: Option<Record>, now: string)
      modifies this
      ensures file == Sheet(Entries(old(file)) + [MakeEntry(action, user, before, after, now)])
    {
      var entries := ReadAudit();
      var row := MakeEntry(action, user, before, after, now);
      file := Sheet(entries + [row]);
    }
  }
}
