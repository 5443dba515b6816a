/** Cell values of the application's pandas tables, with the Python and pandas
    conversions the core applies to them. */
module Values {
  import opened Wrappers
  import opened Strings

  /**
   * One cell: Python's `None`, pandas' missing marker `NaN` (what an empty
   * spreadsheet cell reads back as), text, an integer, a boolean, or a
   * timestamp, carried as the text `str()` gives for it.
   */
  datatype Value = Null | Missing | Str(text: string) | Int(n: int) | Bool(b: bool) | Stamp(when: string)

  /** `str(v)`. */
  function Render(v: Value): string {
    match v
    case Null => "None"
    case Missing => "nan"
    case Str(s) => s
    case Int(n) => IntToString(n)
    case Bool(b) => if b then "True" else "False"
    case Stamp(w) => w
  }

  /** `pd.isna(v)`. */
  predicate IsNa(v: Value) {
    v.Null? || v.Missing?
  }

  /**
   * `pd.to_numeric(v, errors="coerce")` followed by `fillna(0)` and `astype(int)`:
   * integers stay, booleans count as 1 and 0, decimal text is read and truncated
   * toward zero, and everything else (null, unparsable text, timestamps) is 0.
   * Unlike `float()`, pandas' parser reads ASCII digits only, so text holding a
   * full-width digit is unparsable here.
   */
  function NumberOrZero(v: Value): (n: int)
    ensures IsNa(v) || v.Stamp? ==> n == 0
    ensures v.Int? ==> n == v.n
    ensures v.Str? && (HasWideDigit(v.text) || TruncatedDecimal(v.text).None?) ==> n == 0
    ensures v.Str? && v.text != [] && AsciiDigits(v.text) ==> n == DecimalValue(v.text)
  {
    match v
    case Int(n) => n
    case Bool(b) => if b then 1 else 0
    case Str(s) =>
      if HasWideDigit(s) then 0
      else
        assert AsciiDigits(s) ==> AllDigits(s);
        (match TruncatedDecimal(s) case Some(n) => n case None => 0)
    case _ => 0
  }

  /**
   * `pd.to_datetime(v, errors="coerce")` followed by `fillna(now)`. Date parsing
   * is the parameter `parse`, which yields the parsed timestamp's text or `None`
   * for a value it cannot read; a null value is never parsed.
   */
  function StampOrNow(v: Value, now: string, parse: Value -> Option<string>): (r: Value)
    ensures r.Stamp?
    ensures IsNa(v) || parse(v).None? ==> r == Stamp(now)
    ensures !IsNa(v) && parse(v).Some? ==> r == Stamp(parse(v).value)
  {
    if IsNa(v) then Stamp(now)
    else match parse(v)
      case Some(t) => Stamp(t)
      case None => Stamp(now)
  }

  /** A parser that reads a timestamp back as itself, as `pd.to_datetime` does. */
  ghost predicate KeepsStamps(parse: Value -> Option<string>) {
    forall w :: parse(Stamp(w)) == Some(w)
  }

  /** Coercing an already coerced value changes nothing, whatever "now" is then. */
  lemma StampOrNowStable(v: Value, now: string, later: string, parse: Value -> Option<string>)
    requires KeepsStamps(parse)
    ensures StampOrNow(StampOrNow(v, now, parse), later, parse) == StampOrNow(v, now, parse)
  {
  }
}
