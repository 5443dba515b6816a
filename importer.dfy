/**
 * Importing an uploaded sheet: guessing which header feeds each target column,
 * and normalising the sheet into the catalog's columns under a chosen mapping.
 */
module Importer {
  import opened Wrappers
  import opened Strings
  import opened Values
  import opened Tables
  import opened Config

  // ---------------------------------------------------------------------------
  // Guessing the mapping
  // ---------------------------------------------------------------------------

  /** The header contains the synonym, ignoring case. */
  predicate Matches(header: string, key: string) {
    Contains(Lower(header), Lower(key))
  }

  predicate MatchesAny(header: string, keys: seq<string>) {
    exists k :: 0 <= k < |keys| && Matches(header, keys[k])
  }

  /** The first header, in header order, that contains any of the synonyms. */
  function FirstMatch(headers: seq<string>, keys: seq<string>): Option<string> {
    if headers == [] then None
    else if MatchesAny(headers[0], keys) then Some(headers[0])
    else FirstMatch(headers[1..], keys)
  }

  /**
   * `r` answers the search: the first header containing a synonym, all
   * headers before it containing none; or `None` when no header contains one.
   */
  predicate IsFirstMatch(headers: seq<string>, keys: seq<string>, r: Option<string>) {
    match r
    case None => forall i :: 0 <= i < |headers| ==> !MatchesAny(headers[i], keys)
    case Some(c) =>
      exists i :: 0 <= i < |headers| && headers[i] == c && MatchesAny(c, keys) &&
        forall j :: 0 <= j < i ==> !MatchesAny(headers[j], keys)
  }

  lemma {:induction false} FirstMatchIsFirst(headers: seq<string>, keys: seq<string>)
    ensures IsFirstMatch(headers, keys, FirstMatch(headers, keys))
    decreases |headers|
  {
    if headers != [] && !MatchesAny(headers[0], keys) {
      FirstMatchIsFirst(headers[1..], keys);
      match FirstMatch(headers[1..], keys)
      case None =>
        assert forall i :: 1 <= i < |headers| ==> headers[i] == headers[1..][i - 1];
      case Some(c) =>
        var i :| 0 <= i < |headers[1..]| && headers[1..][i] == c && MatchesAny(c, keys) &&
          forall j :: 0 <= j < i ==> !MatchesAny(headers[1..][j], keys);
        assert headers[i + 1] == c;
        assert forall j :: 1 <= j < i + 1 ==> headers[j] == headers[1..][j - 1];
    }
  }

  /** Headers first, synonyms second: the first header matching any synonym wins. */
  method Find(headers: seq<string>, keys: seq<string>) returns (r: Option<string>)
    ensures r == FirstMatch(headers, keys)
  {
    for i := 0 to |headers|
      invariant FirstMatch(headers[i..], keys) == FirstMatch(headers, keys)
    {
      var lc := Lower(headers[i]);
      for k := 0 to |keys|
        invariant forall m :: 0 <= m < k ==> !Matches(headers[i], keys[m])
      {
        if Contains(lc, Lower(keys[k])) {
          assert Matches(headers[i], keys[k]);
          return Some(headers[i]);
        }
      }
      assert headers[i..][1..] == headers[i + 1..];
    }
    return None;
  }

  // The synonyms tried for each target column, strongest first.
  const NameSynonyms: seq<string> := ["銘柄", "商品名", "名称", "品名", "name"]
  const UpdatedAtSynonyms: seq<string> := ["例会日時", "更新日", "updated_at"]
  const CategorySynonyms: seq<string> := ["カテゴリ", "区分", "分類", "category"]
  const IdSynonyms: seq<string> := ["id", "番号", "no"]
  const QuantitySynonyms: seq<string> := ["数量", "在庫", "qty"]
  const MemberSynonyms: seq<string> := ["会員氏名", "氏名"]
  const BrewerySynonyms: seq<string> := ["蔵元", "メーカー", "酒造"]
  const RegionSynonyms: seq<string> := ["地域", "都道府県"]
  const PolishSynonyms: seq<string> := ["精米歩合", "歩合"]
  const NoteSynonyms: seq<string> := ["備考", "メモ"]
  const MeetingSynonyms: seq<string> := ["例会"]
  const MeetingDateSynonyms: seq<string> := ["例会日時"]

  /** Each target column with its synonyms, in the order the columns are guessed. */
  const Guesses: seq<(string, seq<string>)> := [
    (NameField, NameSynonyms), (UpdatedAtField, UpdatedAtSynonyms), (CategoryField, CategorySynonyms),
    (IdField, IdSynonyms), (QuantityField, QuantitySynonyms), (MemberField, MemberSynonyms),
    (BreweryField, BrewerySynonyms), (RegionField, RegionSynonyms), (PolishField, PolishSynonyms),
    (NoteField, NoteSynonyms), (MeetingField, MeetingSynonyms), (MeetingDateField, MeetingDateSynonyms)]

  /**
   * The mapping holds exactly the target columns, and every one of them is
   * guessed: its header is the first one containing one of its synonyms.
   */
  ghost predicate IsGuess(headers: seq<string>, m: map<string, Option<string>>) {
    && (forall f :: f in m <==> f in TargetFields)
    && (forall i :: 0 <= i < |Guesses| ==> Guesses[i].0 in m && m[Guesses[i].0] == FirstMatch(headers, Guesses[i].1))
  }

  /** The columns of the table are distinct target columns. */
  lemma GuessedColumnsDistinct()
    ensures forall i, j :: 0 <= i < j < |Guesses| ==> Guesses[i].0 != Guesses[j].0
    ensures forall i :: 0 <= i < |Guesses| ==> Guesses[i].0 in TargetFields
  {
  }

  /** Every target column has a row in the table, so none keeps the initial `None` unguessed. */
  lemma EveryTargetGuessed(f: string)
    requires f in TargetFields
    ensures exists i :: 0 <= i < |Guesses| && Guesses[i].0 == f
  {
    var j :| 0 <= j < |TargetFields| && TargetFields[j] == f;
    // The table lists the core columns in the order name, updated_at, category, id, quantity.
    var i := if j == 0 then 3 else if j == 1 then 0 else if j == 3 then 4 else if j == 4 then 1 else j;
    assert Guesses[i].0 == TargetFields[j];
  }

  /**
   * Proposes, for every target column, the header that should feed it: the
   * mapping starts with every target column unguessed, then the columns are
   * searched one after another in the order of `Guesses`.
   */
  method GuessMapping(headers: seq<string>) returns (m: map<string, Option<string>>)
    ensures IsGuess(headers, m)
  {
    m := map f | f in TargetFields :: None;
    GuessedColumnsDistinct();
    for k := 0 to |Guesses|
      invariant forall f :: f in m <==> f in TargetFields
      invariant forall i :: 0 <= i < k ==> Guesses[i].0 in m && m[Guesses[i].0] == FirstMatch(headers, Guesses[i].1)
    {
      var r := Find(headers, Guesses[k].1);
      m := m[Guesses[k].0 := r];
    }
  }

  /**
   * Header order beats synonym order: with the headers "担当者氏名" (person in
   * charge) and "会員氏名" (member name), the member-name column is guessed to
   * be the first, which contains the weaker synonym "氏名", although the
   * second is exactly the stronger synonym.
   */
  lemma HeaderOrderWins()
    ensures Matches("会員氏名", MemberSynonyms[0])
    ensures IsFirstMatch(["担当者氏名", "会員氏名"], MemberSynonyms, Some("担当者氏名"))
  {
    var first := "担当者氏名";
    LowerKeeps("会員氏名");
    LowerKeeps(first);
    LowerKeeps("氏名");
    assert Contains(first[3..], "氏名");
    assert Contains(first[2..], "氏名") by { assert first[2..][1..] == first[3..]; }
    assert Contains(first[1..], "氏名") by { assert first[1..][1..] == first[2..]; }
    assert Contains(first, "氏名") by { assert first[1..] == first[1..]; }
    var keys := MemberSynonyms;
    assert keys == ["会員氏名", "氏名"];
    assert Matches(first, keys[1]);
    assert MatchesAny(first, keys);
    var headers := [first, "会員氏名"];
    assert headers[0] == first;
  }

  // ---------------------------------------------------------------------------
  // Normalising the upload
  // ---------------------------------------------------------------------------

  /** A mapping as the upload form builds it: target column and chosen source header, in order. */
  type Mapping = seq<(string, Option<string>)>

  /** The target columns of a mapping, in its order. */
  function Targets(mapping: Mapping): (ts: seq<string>)
    ensures |ts| == |mapping| && forall k :: 0 <= k < |mapping| ==> ts[k] == mapping[k].0
    ensures forall k :: 0 <= k < |mapping| ==> mapping[k].0 in ts
  {
    seq(|mapping|, k requires 0 <= k < |mapping| => mapping[k].0)
  }

  /** `mapping.get(target)`: `None` both for an unmapped and for an absent target. */
  function SourceOf(mapping: Mapping, target: string): (src: Option<string>)
    ensures target !in Targets(mapping) ==> src.None?
  {
    if mapping == [] then None
    else if mapping[0].0 == target then mapping[0].1
    else
      assert Targets(mapping[1..]) == Targets(mapping)[1..];
      SourceOf(mapping[1..], target)
  }

  lemma {:induction false} SourceOfAt(mapping: Mapping, k: nat)
    requires Distinct(Targets(mapping)) && k < |mapping|
    ensures SourceOf(mapping, mapping[k].0) == mapping[k].1
    decreases k
  {
    if k > 0 {
      assert Targets(mapping)[0] != Targets(mapping)[k];
      assert Targets(mapping[1..]) == Targets(mapping)[1..];
      SourceOfAt(mapping[1..], k - 1);
    }
  }

  /** The chosen source header is a column of the sheet (`src in df_raw.columns`). */
  predicate Present(raw: Table, src: Option<string>) {
    src.Some? && src.value in raw.columns
  }

  /** Some target of the mapping reads a column of the sheet. */
  predicate AnyPresent(raw: Table, mapping: Mapping) {
    exists k :: 0 <= k < |mapping| && Present(raw, mapping[k].1)
  }

  /** The cell `v` of output row `i` agrees with its source: copied when the source column exists, null otherwise. */
  predicate Agrees(v: Value, raw: Table, i: int, src: Option<string>) {
    if Present(raw, src) then 0 <= i < |raw.rows| && src.value in raw.rows[i] && v == raw.rows[i][src.value]
    else IsNa(v)
  }

  /** The source cell of row `i`, `None` when the source column does not exist. */
  function SourceCell(raw: Table, i: int, src: Option<string>): Value
    requires WellFormed(raw) && 0 <= i < |raw.rows|
  {
    if Present(raw, src) then raw.rows[i][src.value] else Null
  }

  /**
   * Gives a table that has no rows yet `n` rows of `NaN`: what assigning the
   * first full-length column to a frame without an index does to the columns
   * it already has.
   */
  function Reindexed(t: Table, n: nat): (r: Table)
    requires WellFormed(t) && t.rows == []
    ensures WellFormed(r) && r.columns == t.columns && |r.rows| == n
    ensures forall i, c :: 0 <= i < n && c in t.columns ==> r.rows[i][c] == Missing
  {
    Table(t.columns, seq(n, _ => map c | c in t.columns :: Missing))
  }

  /**
   * The projection of `raw` under `mapping`: one column per target in mapping
   * order, the sheet's rows when some source exists and none otherwise, and
   * each cell agreeing with its source.
   */
  ghost predicate Projected(raw: Table, mapping: Mapping, out: Table) {
    && WellFormed(out) && out.columns == Targets(mapping)
    && |out.rows| == (if AnyPresent(raw, mapping) then |raw.rows| else 0)
    && forall i, k :: 0 <= i < |out.rows| && 0 <= k < |mapping| ==>
         mapping[k].0 in out.rows[i] && Agrees(out.rows[i][mapping[k].0], raw, i, mapping[k].1)
  }

  /**
   * Builds the output column by column, one per mapping entry: the source
   * column when the sheet has it, otherwise `None`. The output takes the
   * sheet's rows from the first entry whose source exists; until then it has
   * no rows, and the columns made before it read `NaN` afterwards.
   */
  method Project(raw: Table, mapping: Mapping) returns (out: Table, indexed: bool)
    requires WellFormed(raw) && Distinct(Targets(mapping))
    ensures indexed == AnyPresent(raw, mapping)
    ensures Projected(raw, mapping, out)
  {
    out := Table([], []);
    indexed := false;
    for j := 0 to |mapping|
      invariant WellFormed(out) && out.columns == Targets(mapping)[..j]
      invariant indexed == exists k :: 0 <= k < j && Present(raw, mapping[k].1)
      invariant |out.rows| == if indexed then |raw.rows| else 0
      invariant forall i, k :: 0 <= i < |out.rows| && 0 <= k < j ==>
        mapping[k].0 in out.rows[i] && Agrees(out.rows[i][mapping[k].0], raw, i, mapping[k].1)
    {
      var (target, src) := mapping[j];
      assert target !in out.columns by {
        assert forall k :: 0 <= k < j ==> Targets(mapping)[k] != Targets(mapping)[j];
      }
      ghost var before, was := out, indexed;
      if Present(raw, src) {
        if !indexed {
          out := Reindexed(out, |raw.rows|);
          indexed := true;
        }
        out := WithColumn(out, target, Column(raw, src.value));
      } else {
        out := WithColumn(out, target, Repeat(|out.rows|, Null));
      }
      forall i, k | 0 <= i < |out.rows| && 0 <= k < j
        ensures mapping[k].0 in out.rows[i] && Agrees(out.rows[i][mapping[k].0], raw, i, mapping[k].1)
      {
        assert mapping[k].0 == Targets(mapping)[..j][k] && mapping[k].0 != target;
        if !was && Present(raw, src) {
          assert !Present(raw, mapping[k].1);
        }
      }
      assert Targets(mapping)[..j + 1] == Targets(mapping)[..j] + [target];
    }
    assert Targets(mapping)[..|mapping|] == Targets(mapping);
  }

  /** Cell texts that do not mark a style column as the row's style. */
  const Unmarked: set<string> := {"", "0", "False", "×", "✕", "✖"}

  /** A style cell is set: not null, and its trimmed text is not one of the unmarked texts. */
  predicate IsMarked(v: Value) {
    !IsNa(v) && Strip(Render(v)) !in Unmarked
  }

  /** The row has the style column `col` and its cell there is set. */
  predicate Marked(row: Row, col: string) {
    col in row && IsMarked(row[col])
  }

  /** The first style column marked in the row. */
  function FirstStyle(row: Row, styleCols: seq<string>): Option<string> {
    if styleCols == [] then None
    else if Marked(row, styleCols[0]) then Some(styleCols[0])
    else FirstStyle(row, styleCols[1..])
  }

  /**
   * `r` is the row's style: a marked style column, all style columns listed
   * before it unmarked; or `None` when no style column is marked.
   */
  predicate IsPick(row: Row, styleCols: seq<string>, r: Option<string>) {
    match r
    case None => forall j :: 0 <= j < |styleCols| ==> !Marked(row, styleCols[j])
    case Some(c) =>
      exists j :: 0 <= j < |styleCols| && styleCols[j] == c && Marked(row, c) &&
        forall m :: 0 <= m < j ==> !Marked(row, styleCols[m])
  }

  lemma {:induction false} FirstStyleIsFirst(row: Row, styleCols: seq<string>)
    ensures IsPick(row, styleCols, FirstStyle(row, styleCols))
    decreases |styleCols|
  {
    if styleCols != [] && !Marked(row, styleCols[0]) {
      FirstStyleIsFirst(row, styleCols[1..]);
      match FirstStyle(row, styleCols[1..])
      case None =>
        assert forall j :: 1 <= j < |styleCols| ==> styleCols[j] == styleCols[1..][j - 1];
      case Some(c) =>
        var j :| 0 <= j < |styleCols[1..]| && styleCols[1..][j] == c && Marked(row, c) &&
          forall m :: 0 <= m < j ==> !Marked(row, styleCols[1..][m]);
        assert styleCols[j + 1] == c;
        assert forall m :: 1 <= m < j + 1 ==> styleCols[m] == styleCols[1..][m - 1];
    }
  }

  /** The row's style column: the first listed style column the row has and has set. */
  method PickStyle(row: Row, styleCols: seq<string>) returns (r: Option<string>)
    ensures r == FirstStyle(row, styleCols)
  {
    for j := 0 to |styleCols|
      invariant FirstStyle(row, styleCols[j..]) == FirstStyle(row, styleCols)
    {
      var col := styleCols[j];
      if col in row {
        var v := row[col];
        if IsMarked(v) {
          return Some(col);
        }
      }
      assert styleCols[j..][1..] == styleCols[j + 1..];
    }
    return None;
  }

  /** The category cell for a row's style: its column name, or `None`. */
  function StyleCell(style: Option<string>): Value {
    if style.Some? then Str(style.value) else Null
  }

  /** The category the fallback derives for each row of the sheet. */
  method StyleCategories(raw: Table, styleCols: seq<string>) returns (picks: seq<Value>)
    ensures |picks| == |raw.rows|
    ensures forall i :: 0 <= i < |raw.rows| ==> picks[i] == StyleCell(FirstStyle(raw.rows[i], styleCols))
  {
    picks := [];
    for i := 0 to |raw.rows|
      invariant |picks| == i
      invariant forall m :: 0 <= m < i ==> picks[m] == StyleCell(FirstStyle(raw.rows[m], styleCols))
    {
      var p := PickStyle(raw.rows[i], styleCols);
      picks := picks + [StyleCell(p)];
    }
  }

  /** The category fallback applies: `mapping.get("category") is None`. */
  predicate Fallback(mapping: Mapping) {
    SourceOf(mapping, CategoryField).None?
  }

  /** The output columns: the mapping's targets, and `category` last when the fallback adds it. */
  function OutputColumns(mapping: Mapping): seq<string> {
    Targets(mapping) + if Fallback(mapping) && CategoryField !in Targets(mapping) then [CategoryField] else []
  }

  /** A target copied as projected, not overwritten by a coercion or by the fallback. */
  predicate Copied(mapping: Mapping, target: string) {
    target != QuantityField && target != UpdatedAtField && !(Fallback(mapping) && target == CategoryField)
  }

  /** What a successful normalisation of `raw` under `mapping` yields. */
  ghost predicate Normalized(raw: Table, mapping: Mapping, styleCols: seq<string>, now: string,
                             parse: Value -> Option<string>, out: Table)
    requires WellFormed(raw)
  {
    var any := AnyPresent(raw, mapping);
    && WellFormed(out) && out.columns == OutputColumns(mapping)
    && |out.rows| == (if any || Fallback(mapping) then |raw.rows| else 0)
    && (forall i, k :: 0 <= i < |out.rows| && 0 <= k < |mapping| && Copied(mapping, mapping[k].0) ==>
          mapping[k].0 in out.rows[i] && Agrees(out.rows[i][mapping[k].0], raw, i, mapping[k].1))
    && (forall i :: 0 <= i < |out.rows| ==>
          QuantityField in out.rows[i] && UpdatedAtField in out.rows[i] &&
          if any && i < |raw.rows| then
            && out.rows[i][QuantityField] == Int(NumberOrZero(SourceCell(raw, i, SourceOf(mapping, QuantityField))))
            && out.rows[i][UpdatedAtField] == StampOrNow(SourceCell(raw, i, SourceOf(mapping, UpdatedAtField)), now, parse)
          else
            out.rows[i][QuantityField] == Missing && out.rows[i][UpdatedAtField] == Missing)
    && (Fallback(mapping) ==> forall i :: 0 <= i < |out.rows| ==>
          i < |raw.rows| && CategoryField in out.rows[i] &&
          out.rows[i][CategoryField] == StyleCell(FirstStyle(raw.rows[i], styleCols)))
  }

  /**
   * The two coercions in order: `quantity` to an integer (unreadable or
   * missing: 0), then `updated_at` to a timestamp (unreadable or missing: `now`).
   */
  function Coercions(out: Table, now: string, parse: Value -> Option<string>): (r: Table)
    requires WellFormed(out) && QuantityField in out.columns && UpdatedAtField in out.columns
    ensures WellFormed(r) && r.columns == out.columns && |r.rows| == |out.rows|
  {
    var out1 := WithColumn(out, QuantityField, Quantities(out));
    WithColumn(out1, UpdatedAtField, Stamps(out1, now, parse))
  }

  /** `pd.to_numeric(..., errors="coerce").fillna(0).astype(int)` on the `quantity` column. */
  function Quantities(t: Table): (vs: seq<Value>)
    requires WellFormed(t) && QuantityField in t.columns
    ensures |vs| == |t.rows| && forall i :: 0 <= i < |t.rows| ==> vs[i] == Int(NumberOrZero(t.rows[i][QuantityField]))
  {
    seq(|t.rows|, i requires 0 <= i < |t.rows| => Int(NumberOrZero(t.rows[i][QuantityField])))
  }

  /** `pd.to_datetime(..., errors="coerce").fillna(now)` on the `updated_at` column. */
  function Stamps(t: Table, now: string, parse: Value -> Option<string>): (vs: seq<Value>)
    requires WellFormed(t) && UpdatedAtField in t.columns
    ensures |vs| == |t.rows| && forall i :: 0 <= i < |t.rows| ==> vs[i] == StampOrNow(t.rows[i][UpdatedAtField], now, parse)
  {
    seq(|t.rows|, i requires 0 <= i < |t.rows| => StampOrNow(t.rows[i][UpdatedAtField], now, parse))
  }

  /** The coercions treat a null projected cell as they treat the missing source cell it stands for. */
  lemma CoercionsFollowSource(raw: Table, mapping: Mapping, out: Table, now: string, parse: Value -> Option<string>)
    requires WellFormed(raw) && Distinct(Targets(mapping)) && Projected(raw, mapping, out)
    ensures forall i, t :: 0 <= i < |out.rows| && t in Targets(mapping) ==>
      i < |raw.rows| && t in out.rows[i] &&
      NumberOrZero(out.rows[i][t]) == NumberOrZero(SourceCell(raw, i, SourceOf(mapping, t))) &&
      StampOrNow(out.rows[i][t], now, parse) == StampOrNow(SourceCell(raw, i, SourceOf(mapping, t)), now, parse)
  {
    forall i, t | 0 <= i < |out.rows| && t in Targets(mapping)
      ensures i < |raw.rows| && t in out.rows[i]
      ensures NumberOrZero(out.rows[i][t]) == NumberOrZero(SourceCell(raw, i, SourceOf(mapping, t)))
      ensures StampOrNow(out.rows[i][t], now, parse) == StampOrNow(SourceCell(raw, i, SourceOf(mapping, t)), now, parse)
    {
      var k :| 0 <= k < |mapping| && Targets(mapping)[k] == t;
      SourceOfAt(mapping, k);
    }
  }

  /** The coercions leave a cell of any other column as projected. */
  lemma CoercionsKeep(raw: Table, mapping: Mapping, out: Table, now: string, parse: Value -> Option<string>, i: nat, k: nat)
    requires WellFormed(raw) && Distinct(Targets(mapping)) && Projected(raw, mapping, out)
    requires QuantityField in Targets(mapping) && UpdatedAtField in Targets(mapping)
    requires i < |out.rows| && k < |mapping| && mapping[k].0 != QuantityField && mapping[k].0 != UpdatedAtField
    ensures mapping[k].0 in Coercions(out, now, parse).rows[i]
    ensures Coercions(out, now, parse).rows[i][mapping[k].0] == out.rows[i][mapping[k].0]
  {
    var out1 := WithColumn(out, QuantityField, Quantities(out));
    assert Coercions(out, now, parse) == WithColumn(out1, UpdatedAtField, Stamps(out1, now, parse));
    assert mapping[k].0 in out.rows[i];
  }

  /** The coercions set a row's `quantity` and `updated_at` from the row's source cells. */
  lemma CoercionsSet(raw: Table, mapping: Mapping, out: Table, now: string, parse: Value -> Option<string>, i: nat)
    requires WellFormed(raw) && Distinct(Targets(mapping)) && Projected(raw, mapping, out)
    requires QuantityField in Targets(mapping) && UpdatedAtField in Targets(mapping)
    requires i < |out.rows|
    ensures i < |raw.rows|
    ensures QuantityField in Coercions(out, now, parse).rows[i] && UpdatedAtField in Coercions(out, now, parse).rows[i]
    ensures Coercions(out, now, parse).rows[i][QuantityField] == Int(NumberOrZero(SourceCell(raw, i, SourceOf(mapping, QuantityField))))
    ensures Coercions(out, now, parse).rows[i][UpdatedAtField] == StampOrNow(SourceCell(raw, i, SourceOf(mapping, UpdatedAtField)), now, parse)
  {
    var out1 := WithColumn(out, QuantityField, Quantities(out));
    assert Coercions(out, now, parse) == WithColumn(out1, UpdatedAtField, Stamps(out1, now, parse));
    var q :| 0 <= q < |mapping| && Targets(mapping)[q] == QuantityField;
    var u :| 0 <= u < |mapping| && Targets(mapping)[u] == UpdatedAtField;
    SourceOfAt(mapping, q);
    SourceOfAt(mapping, u);
    var vq, vu := out.rows[i][QuantityField], out.rows[i][UpdatedAtField];
    assert Agrees(vq, raw, i, mapping[q].1) && Agrees(vu, raw, i, mapping[u].1);
    assert NumberOrZero(vq) == NumberOrZero(SourceCell(raw, i, mapping[q].1)) by {
      if !Present(raw, mapping[q].1) { assert IsNa(vq); }
    }
    assert StampOrNow(vu, now, parse) == StampOrNow(SourceCell(raw, i, mapping[u].1), now, parse) by {
      if !Present(raw, mapping[u].1) { assert IsNa(vu); }
    }
    assert out1.rows[i][QuantityField] == Int(NumberOrZero(vq));
    assert out1.rows[i][UpdatedAtField] == vu;
  }

  /** Without the category fallback, the coerced projection is the normalised sheet. */
  lemma NormalizedWithoutFallback(raw: Table, mapping: Mapping, styleCols: seq<string>, now: string,
                                  parse: Value -> Option<string>, out: Table)
    requires WellFormed(raw) && Distinct(Targets(mapping)) && Projected(raw, mapping, out)
    requires QuantityField in Targets(mapping) && UpdatedAtField in Targets(mapping) && !Fallback(mapping)
    ensures Normalized(raw, mapping, styleCols, now, parse, Coercions(out, now, parse))
  {
    var c := Coercions(out, now, parse);
    forall i, k | 0 <= i < |c.rows| && 0 <= k < |mapping| && Copied(mapping, mapping[k].0)
      ensures mapping[k].0 in c.rows[i] && Agrees(c.rows[i][mapping[k].0], raw, i, mapping[k].1)
    {
      CoercionsKeep(raw, mapping, out, now, parse, i, k);
    }
    forall i | 0 <= i < |c.rows|
      ensures i < |raw.rows| && QuantityField in c.rows[i] && UpdatedAtField in c.rows[i]
      ensures c.rows[i][QuantityField] == Int(NumberOrZero(SourceCell(raw, i, SourceOf(mapping, QuantityField))))
      ensures c.rows[i][UpdatedAtField] == StampOrNow(SourceCell(raw, i, SourceOf(mapping, UpdatedAtField)), now, parse)
    {
      CoercionsSet(raw, mapping, out, now, parse, i);
    }
  }

  /**
   * The frame the fallback assigns `category` to: when no mapped column
   * existed, the frame has no rows yet, and assigning the full-length
   * category column gives it the sheet's `n` rows.
   */
  function Filled(c: Table, any: bool, n: nat): (r: Table)
    requires WellFormed(c) && (any || c.rows == [])
    ensures WellFormed(r) && r.columns == c.columns
    ensures |r.rows| == if !any && n > 0 then n else |c.rows|
  {
    if !any && n > 0 then Reindexed(c, n) else c
  }

  /** The sheet after the category fallback: the picked styles as `category`. */
  function WithStyles(raw: Table, mapping: Mapping, out: Table, now: string, parse: Value -> Option<string>,
                      picks: seq<Value>): Table
    requires WellFormed(raw) && Projected(raw, mapping, out)
    requires QuantityField in Targets(mapping) && UpdatedAtField in Targets(mapping) && |picks| == |raw.rows|
  {
    WithColumn(Filled(Coercions(out, now, parse), AnyPresent(raw, mapping), |raw.rows|), CategoryField, picks)
  }

  /** After the fallback, a cell of a copied column still agrees with its source. */
  lemma WithStylesKeeps(raw: Table, mapping: Mapping, out: Table, now: string, parse: Value -> Option<string>,
                        picks: seq<Value>, i: nat, k: nat)
    requires WellFormed(raw) && Distinct(Targets(mapping)) && Projected(raw, mapping, out)
    requires QuantityField in Targets(mapping) && UpdatedAtField in Targets(mapping) && Fallback(mapping)
    requires |picks| == |raw.rows|
    requires i < |WithStyles(raw, mapping, out, now, parse, picks).rows| && k < |mapping| && Copied(mapping, mapping[k].0)
    ensures mapping[k].0 in WithStyles(raw, mapping, out, now, parse, picks).rows[i]
    ensures Agrees(WithStyles(raw, mapping, out, now, parse, picks).rows[i][mapping[k].0], raw, i, mapping[k].1)
  {
    if AnyPresent(raw, mapping) {
      CoercionsKeep(raw, mapping, out, now, parse, i, k);
    } else {
      assert !Present(raw, mapping[k].1);
    }
  }

  /** After the fallback, a row's `quantity` and `updated_at` are coerced from its sources, or missing when no mapped column existed. */
  lemma WithStylesSets(raw: Table, mapping: Mapping, out: Table, now: string, parse: Value -> Option<string>,
                       picks: seq<Value>, i: nat)
    requires WellFormed(raw) && Distinct(Targets(mapping)) && Projected(raw, mapping, out)
    requires QuantityField in Targets(mapping) && UpdatedAtField in Targets(mapping) && Fallback(mapping)
    requires |picks| == |raw.rows|
    requires i < |WithStyles(raw, mapping, out, now, parse, picks).rows|
    ensures var r := WithStyles(raw, mapping, out, now, parse, picks);
      && QuantityField in r.rows[i] && UpdatedAtField in r.rows[i]
      && if AnyPresent(raw, mapping) && i < |raw.rows| then
           && r.rows[i][QuantityField] == Int(NumberOrZero(SourceCell(raw, i, SourceOf(mapping, QuantityField))))
           && r.rows[i][UpdatedAtField] == StampOrNow(SourceCell(raw, i, SourceOf(mapping, UpdatedAtField)), now, parse)
         else
           r.rows[i][QuantityField] == Missing && r.rows[i][UpdatedAtField] == Missing
  {
    if AnyPresent(raw, mapping) {
      CoercionsSet(raw, mapping, out, now, parse, i);
    }
  }

  /** After the fallback the sheet has the output columns, one row per uploaded row, and the picked styles as `category`. */
  lemma WithStylesShape(raw: Table, mapping: Mapping, out: Table, now: string, parse: Value -> Option<string>,
                        picks: seq<Value>)
    requires WellFormed(raw) && Projected(raw, mapping, out)
    requires QuantityField in Targets(mapping) && UpdatedAtField in Targets(mapping) && Fallback(mapping)
    requires |picks| == |raw.rows|
    ensures var r := WithStyles(raw, mapping, out, now, parse, picks);
      && WellFormed(r) && r.columns == OutputColumns(mapping) && |r.rows| == |raw.rows|
      && forall i :: 0 <= i < |r.rows| ==> CategoryField in r.rows[i] && r.rows[i][CategoryField] == picks[i]
  {
  }

  /** With the category fallback, the sheet with the picked styles as `category` is the normalised sheet. */
  lemma NormalizedWithFallback(raw: Table, mapping: Mapping, styleCols: seq<string>, now: string,
                               parse: Value -> Option<string>, out: Table, picks: seq<Value>)
    requires WellFormed(raw) && Distinct(Targets(mapping)) && Projected(raw, mapping, out)
    requires QuantityField in Targets(mapping) && UpdatedAtField in Targets(mapping) && Fallback(mapping)
    requires |picks| == |raw.rows|
    requires forall i :: 0 <= i < |raw.rows| ==> picks[i] == StyleCell(FirstStyle(raw.rows[i], styleCols))
    ensures Normalized(raw, mapping, styleCols, now, parse, WithStyles(raw, mapping, out, now, parse, picks))
  {
    var r := WithStyles(raw, mapping, out, now, parse, picks);
    WithStylesShape(raw, mapping, out, now, parse, picks);
    forall i: nat, k: nat | i < |r.rows| && k < |mapping| && Copied(mapping, mapping[k].0)
      ensures mapping[k].0 in r.rows[i] && Agrees(r.rows[i][mapping[k].0], raw, i, mapping[k].1)
    {
      WithStylesKeeps(raw, mapping, out, now, parse, picks, i, k);
    }
    forall i: nat | i < |r.rows|
      ensures QuantityField in r.rows[i] && UpdatedAtField in r.rows[i]
      ensures if AnyPresent(raw, mapping) && i < |raw.rows| then
            && r.rows[i][QuantityField] == Int(NumberOrZero(SourceCell(raw, i, SourceOf(mapping, QuantityField))))
            && r.rows[i][UpdatedAtField] == StampOrNow(SourceCell(raw, i, SourceOf(mapping, UpdatedAtField)), now, parse)
          else
            r.rows[i][QuantityField] == Missing && r.rows[i][UpdatedAtField] == Missing
    {
      WithStylesSets(raw, mapping, out, now, parse, picks, i);
    }
  }

  /**
   * Converts an uploaded sheet to the catalog schema under a mapping:
   * projects the mapped columns, makes `quantity` an integer (unreadable or
   * missing: 0) and `updated_at` a timestamp (unreadable or missing: `now`),
   * and, when `category` is unmapped, takes each row's category from the
   * style columns. A mapping without `quantity` or `updated_at` fails with
   * that key, as the frame lookup does.
   */
  method NormalizeUpload(raw: Table, mapping: Mapping, styleCols: seq<string>, now: string,
                         parse: Value -> Option<string>) returns (res: Result<Table, string>)
    requires WellFormed(raw) && Distinct(Targets(mapping))
    ensures res.Err? <==> QuantityField !in Targets(mapping) || UpdatedAtField !in Targets(mapping)
    ensures res.Err? ==> res.error == if QuantityField !in Targets(mapping) then QuantityField else UpdatedAtField
    ensures res.Ok? ==> Normalized(raw, mapping, styleCols, now, parse, res.value)
  {
    var out, indexed := Project(raw, mapping);
    if QuantityField !in out.columns {
      return Err(QuantityField);
    }
    var quantities := Quantities(out);
    var out1 := WithColumn(out, QuantityField, quantities);
    if UpdatedAtField !in out1.columns {
      return Err(UpdatedAtField);
    }
    var stamps := Stamps(out1, now, parse);
    var out2 := WithColumn(out1, UpdatedAtField, stamps);
    assert out2 == Coercions(out, now, parse);
    if SourceOf(mapping, CategoryField).None? {
      var picks := StyleCategories(raw, styleCols);
      var out3 := WithColumn(Filled(out2, indexed, |raw.rows|), CategoryField, picks);
      assert out3 == WithStyles(raw, mapping, out, now, parse, picks);
      NormalizedWithFallback(raw, mapping, styleCols, now, parse, out, picks);
      res := Ok(out3);
    } else {
      NormalizedWithoutFallback(raw, mapping, styleCols, now, parse, out);
      res := Ok(out2);
    }
  }
}
