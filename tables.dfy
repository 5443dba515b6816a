/** A pandas DataFrame as the core uses it: ordered column labels and rows of cells. */
module Tables {
  import opened Values

  /** One row: a cell per column label. */
  type Row = map<string, Value>

  datatype Table = Table(columns: seq<string>, rows: seq<Row>)

  predicate Distinct(xs: seq<string>) {
    forall i, j :: 0 <= i < j < |xs| ==> xs[i] != xs[j]
  }

  /** Column labels are distinct and every row has a cell for exactly those labels. */
  ghost predicate WellFormed(t: Table) {
    && Distinct(t.columns)
    && forall i, c :: 0 <= i < |t.rows| ==> (c in t.rows[i] <==> c in t.columns)
  }

  /** A table with the given columns and no rows (`pd.DataFrame(columns=cols)`). */
  function Empty(cols: seq<string>): (t: Table)
    requires Distinct(cols)
    ensures WellFormed(t) && t.rows == [] && t.columns == cols
  {
    Table(cols, [])
  }

  /** The cells of column `c`, top to bottom (`df[c]`). */
  function Column(t: Table, c: string): (vs: seq<Value>)
    requires WellFormed(t) && c in t.columns
    ensures |vs| == |t.rows|
    ensures forall i :: 0 <= i < |vs| ==> vs[i] == t.rows[i][c]
  {
    seq(|t.rows|, i requires 0 <= i < |t.rows| && WellFormed(t) && c in t.columns => t.rows[i][c])
  }

  /** `n` copies of `v`: what a scalar assignment to a column broadcasts. */
  function Repeat(n: nat, v: Value): (vs: seq<Value>)
    ensures |vs| == n && forall i :: 0 <= i < n ==> vs[i] == v
  {
    seq(n, _ => v)
  }

  /**
   * `df[c] = vs`: column `c` takes the given cells row by row, and is appended
   * as the last column when the table did not have it. Other cells are kept.
   */
  function WithColumn(t: Table, c: string, vs: seq<Value>): (r: Table)
    requires |vs| == |t.rows|
    ensures r.columns == if c in t.columns then t.columns else t.columns + [c]
    ensures WellFormed(t) ==> WellFormed(r)
    ensures |r.rows| == |t.rows|
    ensures forall i :: 0 <= i < |r.rows| ==> c in r.rows[i] && r.rows[i][c] == vs[i]
    ensures forall i, d :: 0 <= i < |r.rows| && d in t.rows[i] && d != c ==>
      d in r.rows[i] && r.rows[i][d] == t.rows[i][d]
  {
    var r := Table(if c in t.columns then t.columns else t.columns + [c],
                   seq(|t.rows|, i requires 0 <= i < |t.rows| && |vs| == |t.rows| => t.rows[i][c := vs[i]]));
    r
  }

  /**
   * `df[cols]`: the listed columns only, in the listed order; every listed
   * column must exist (pandas raises `KeyError` otherwise).
   */
  function Select(t: Table, cols: seq<string>): (r: Table)
    requires WellFormed(t) && Distinct(cols)
    requires forall c :: c in cols ==> c in t.columns
    ensures WellFormed(r) && r.columns == cols && |r.rows| == |t.rows|
    ensures forall i, c :: 0 <= i < |r.rows| && c in cols ==> r.rows[i][c] == t.rows[i][c]
  {
    Table(cols, seq(|t.rows|, i requires 0 <= i < |t.rows| =>
      map c | c in cols && c in t.rows[i] :: t.rows[i][c]))
  }
}
