/**
 * The pure helpers of the data-management page: member-name normalisation,
 * meeting labels and their sort key, the meeting-number input, and the
 * checks on the entry form.
 */
module MainView {
  import opened Wrappers
  import opened Strings
  import opened Values

  // ---------------------------------------------------------------------------
  // Member names
  // ---------------------------------------------------------------------------

  /**
   * What the model asks of the NFKC compatibility folding, taken here one
   * character at a time: folding twice is folding once, the plain space stays
   * a space, and whitespace and other characters are never folded into each
   * other.
   */
  ghost predicate IsFolding(fold: char -> char) {
    && fold(' ') == ' '
    && (forall c :: fold(fold(c)) == fold(c))
    && (forall c :: IsSpace(fold(c)) <==> IsSpace(c))
  }

  /** One folding that meets these demands: full-width ASCII to ASCII, and the ideographic space to a space. */
  function WidthFold(c: char): (r: char)
    ensures '\U{FF01}' <= c <= '\U{FF5E}' ==> '!' <= r <= '~'
  {
    if '\U{FF01}' <= c <= '\U{FF5E}' then (c as int - 0xFEE0) as char
    else if c == '\U{3000}' then ' '
    else c
  }

  lemma WidthFoldIsFolding()
    ensures IsFolding(WidthFold)
  {
    forall c ensures WidthFold(WidthFold(c)) == WidthFold(c) && (IsSpace(WidthFold(c)) <==> IsSpace(c)) {
      if '\U{FF01}' <= c <= '\U{FF5E}' {
        assert '!' <= WidthFold(c) <= '~';
      }
    }
  }

  /** `unicodedata.normalize("NFKC", s)` with the folding `fold`. */
  function Fold(fold: char -> char, s: string): (r: string)
    ensures |r| == |s| && forall i :: 0 <= i < |s| ==> r[i] == fold(s[i])
  {
    seq(|s|, i requires 0 <= i < |s| => fold(s[i]))
  }

  /**
   * `normalize_member_name`: empty text is returned as it is; other text is
   * folded, trimmed, and each run of whitespace in it becomes one space.
   */
  function NormalizeMemberName(s: string, fold: char -> char): (r: string)
    ensures s == [] ==> r == []
    ensures r == [] || (!IsSpace(r[0]) && !IsSpace(r[|r| - 1]))
    ensures PlainSpaces(r) && NoSpaceRuns(r)
    ensures NonSpace(r) == NonSpace(Fold(fold, s))
  {
    if s == [] then s
    else
      CollapseSpacesKeepsText(Strip(Fold(fold, s)));
      CollapseSpaces(Strip(Fold(fold, s)))
  }

  /** A name normalises to nothing exactly when it is all whitespace. */
  lemma NormalizeMemberNameEmpty(s: string, fold: char -> char)
    requires IsFolding(fold)
    ensures NormalizeMemberName(s, fold) == [] <==> AllSpace(s)
  {
    if s != [] {
      var f := Fold(fold, s);
      assert AllSpace(f) <==> AllSpace(s) by {
        assert forall i :: 0 <= i < |s| ==> (IsSpace(f[i]) <==> IsSpace(s[i]));
      }
    }
  }

  /** Normalising a normalised name changes nothing. */
  lemma NormalizeMemberNameIdempotent(s: string, fold: char -> char)
    requires IsFolding(fold)
    ensures NormalizeMemberName(NormalizeMemberName(s, fold), fold) == NormalizeMemberName(s, fold)
  {
    var r := NormalizeMemberName(s, fold);
    if r != [] {
      var fixed := c => fold(c) == c;
      var f := Fold(fold, s);
      assert forall i :: 0 <= i < |f| ==> fixed(f[i]);
      StripKeeps(f, fixed);
      CollapseKeeps(Strip(f), fixed);
      assert Fold(fold, r) == r;
      CollapseSpacesFixed(r);
    }
  }

  // ---------------------------------------------------------------------------
  // Meeting labels
  // ---------------------------------------------------------------------------

  /** The label of records not yet assigned to a meeting ("awaiting approval"). */
  const PendingLabel := "登録承認待ち"

  /** The ordinal label "第n回" ("the n-th meeting"). */
  function Ordinal(n: string): string {
    "第" + n + "回"
  }

  /**
   * `meeting_label`: the meeting cell as displayed. Blank, `nan` and `None`
   * show as pending; text holding both 第 and 回 shows as it is; a number
   * shows as its ordinal; anything else shows as it is.
   */
  function MeetingLabel(v: Value): string {
    LabelOfText(Strip(Render(v)))
  }

  /** The label for the trimmed text `s` of a meeting cell. */
  function LabelOfText(s: string): string {
    if s == "" || s == "nan" || s == "None" then PendingLabel
    else if Contains(s, "第") && Contains(s, "回") then s
    else match TruncatedDecimal(s)
      case Some(n) => Ordinal(IntToString(n))
      case None => s
  }

  lemma {:induction false} ContainsSuffix(p: string, n: string)
    ensures Contains(p + n, n)
    decreases |p|
  {
    if p == [] {
      assert p + n == n;
    } else {
      assert (p + n)[1..] == p[1..] + n;
      ContainsSuffix(p[1..], n);
    }
  }

  lemma {:induction false} NotContainsChar(s: string, c: char)
    requires forall i :: 0 <= i < |s| ==> s[i] != c
    ensures !Contains(s, [c])
    decreases |s|
  {
    if s != [] {
      assert s[0] != c;
      NotContainsChar(s[1..], c);
    }
  }

  /** An ordinal label is its own label. */
  lemma LabelOfOrdinal(n: string)
    ensures Strip(Ordinal(n)) == Ordinal(n)
    ensures LabelOfText(Ordinal(n)) == Ordinal(n)
    ensures Ordinal(n) != PendingLabel
  {
    var o := Ordinal(n);
    assert o[0] == '第' && o[|o| - 1] == '回';
    assert "第" <= o;
    ContainsSuffix("第" + n, "回");
  }

  /** The pending label is its own label. */
  lemma LabelOfPending()
    ensures Strip(PendingLabel) == PendingLabel
    ensures LabelOfText(PendingLabel) == PendingLabel
  {
    var p := PendingLabel;
    assert !IsSpace(p[0]) && !IsSpace(p[|p| - 1]);
    NotContainsChar(p, '第');
    assert forall i :: 0 <= i < |p| ==> !IsDigit(p[i]);
  }

  /** A number written in digits is labelled as its ordinal. */
  lemma LabelOfDigits(d: string)
    requires d != [] && AllDigits(d)
    ensures Strip(d) == d
    ensures LabelOfText(d) == Ordinal(IntToString(DecimalValue(d)))
  {
    assert !IsSpace(d[0]) && !IsSpace(d[|d| - 1]);
    NotContainsChar(d, '第');
    assert d != "nan" && d != "None" by { assert IsDigit(d[0]); }
  }

  lemma LabelOfTextPending(s: string)
    ensures LabelOfText(s) == PendingLabel <==> s == "" || s == "nan" || s == "None" || s == PendingLabel
  {
    if s == PendingLabel {
      LabelOfPending();
    } else if !(s == "" || s == "nan" || s == "None") && !(Contains(s, "第") && Contains(s, "回")) && TruncatedDecimal(s).Some? {
      LabelOfOrdinal(IntToString(TruncatedDecimal(s).value));
    }
  }

  /** A meeting cell displays as pending exactly when its trimmed text is blank, `nan`, `None` or the pending label itself. */
  lemma MeetingLabelPending(v: Value)
    ensures var s := Strip(Render(v));
      MeetingLabel(v) == PendingLabel <==> s == "" || s == "nan" || s == "None" || s == PendingLabel
  {
    LabelOfTextPending(Strip(Render(v)));
  }

  /** A stored meeting number shows as its ordinal. */
  lemma MeetingLabelOfNumber(n: nat)
    ensures MeetingLabel(Str(NatToString(n))) == Ordinal(NatToString(n))
  {
    LabelOfDigits(NatToString(n));
    DecimalValueOfNatToString(n);
  }

  /** Labelling the trimmed text of a label gives the label back. */
  lemma LabelOfTextFixed(s: string)
    requires Strip(s) == s
    ensures LabelOfText(Strip(LabelOfText(s))) == LabelOfText(s)
  {
    if s == "" || s == "nan" || s == "None" {
      LabelOfPending();
    } else if TruncatedDecimal(s).Some? && !(Contains(s, "第") && Contains(s, "回")) {
      LabelOfOrdinal(IntToString(TruncatedDecimal(s).value));
    }
  }

  /** Labelling a label changes nothing: the display text is a fixed point. */
  lemma MeetingLabelIdempotent(v: Value)
    ensures MeetingLabel(Str(MeetingLabel(v))) == MeetingLabel(v)
  {
    var s := Strip(Render(v));
    StripIdempotent(Render(v));
    LabelOfTextFixed(s);
  }

  // ---------------------------------------------------------------------------
  // Ordering the meeting labels
  // ---------------------------------------------------------------------------

  /** The number given to labels without any digit, which puts them after the numbered ones. */
  const NoNumber := 1000000000

  /** `_sort_meeting_key`: pending first, then by the first number in the label. */
  function MeetingSortKey(x: string): (int, int) {
    if x == PendingLabel then (0, 0)
    else (1, match FirstDigitRun(x) case Some(d) => DecimalValue(d) case None => NoNumber)
  }

  /** Python's `<` on the key tuples. */
  predicate KeyBefore(a: (int, int), b: (int, int)) {
    a.0 < b.0 || (a.0 == b.0 && a.1 < b.1)
  }

  /** The pending label sorts before every other label. */
  lemma PendingSortsFirst(x: string)
    requires x != PendingLabel
    ensures KeyBefore(MeetingSortKey(PendingLabel), MeetingSortKey(x))
  {
  }

  /** The first number in the label "第n回" is n. */
  lemma FirstDigitRunOfOrdinal(n: nat)
    ensures FirstDigitRun(Ordinal(NatToString(n))) == Some(NatToString(n))
  {
    var d := NatToString(n);
    assert Ordinal(d) == "第" + (d + "回");
    assert !HasDigit("第");
    FirstDigitRunSkipsPrefix("第", d + "回");
    assert !HasDigit("回");
    FirstDigitRunIgnoresSuffix(d, "回");
  }

  /** The key of the label "第n回" is its number, so "第2回" sorts before "第10回". */
  lemma OrdinalSortKey(n: nat)
    ensures MeetingSortKey(Ordinal(NatToString(n))) == (1, n)
  {
    FirstDigitRunOfOrdinal(n);
    LabelOfOrdinal(NatToString(n));
    DecimalValueOfNatToString(n);
  }

  /** Ordinal labels sort by their numbers, not as text. */
  lemma OrdinalsSortByNumber(n: nat, m: nat)
    ensures KeyBefore(MeetingSortKey(Ordinal(NatToString(n))), MeetingSortKey(Ordinal(NatToString(m)))) <==> n < m
  {
    OrdinalSortKey(n);
    OrdinalSortKey(m);
  }

  /** A label without digits sorts after every label whose first number is below the sentinel. */
  lemma UnnumberedSortLast(x: string, y: string)
    requires x != PendingLabel && !HasDigit(x)
    requires y != PendingLabel && HasDigit(y) && DecimalValue(FirstDigitRun(y).value) < NoNumber
    ensures KeyBefore(MeetingSortKey(y), MeetingSortKey(x))
  {
  }

  // ---------------------------------------------------------------------------
  // The meeting-number input
  // ---------------------------------------------------------------------------

  /** `s or ""` for the text input. */
  function InputText(s: Option<string>): string {
    if s.Some? then s.value else ""
  }

  /**
   * `normalize_meeting`: nothing when clearing is asked for or the input is
   * blank or has no digit; otherwise the first number in the input, written
   * in decimal without leading zeros.
   */
  function NormalizeMeeting(s: Option<string>, clear: bool): (r: Option<string>)
    ensures r.None? <==> clear || !HasDigit(InputText(s))
    ensures r.Some? ==> r.value != [] && AsciiDigits(r.value) && (r.value[0] == '0' ==> r.value == "0")
    ensures r.Some? ==> DecimalValue(r.value) == DecimalValue(FirstDigitRun(InputText(s)).value)
  {
    if clear then None
    else
      var t := Strip(InputText(s));
      StripKeepsFirstDigitRun(InputText(s));
      if t == [] then None
      else match FirstDigitRun(t)
        case Some(d) =>
          DecimalValueOfNatToString(DecimalValue(d));
          Some(NatToString(DecimalValue(d)))
        case None => None
  }

  lemma NatToStringFixed(n: nat)
    ensures Strip(NatToString(n)) == NatToString(n)
    ensures FirstDigitRun(NatToString(n)) == Some(NatToString(n))
  {
    var d := NatToString(n);
    assert !IsSpace(d[0]) && !IsSpace(d[|d| - 1]);
  }

  /** Normalising a normalised meeting number gives it back. */
  lemma NormalizeMeetingIdempotent(s: Option<string>)
    ensures var r := NormalizeMeeting(s, false);
      r.Some? ==> NormalizeMeeting(r, false) == r
  {
    var r := NormalizeMeeting(s, false);
    if r.Some? {
      var d := FirstDigitRun(Strip(InputText(s))).value;
      StripKeepsFirstDigitRun(InputText(s));
      NatToStringFixed(DecimalValue(d));
      DecimalValueOfNatToString(DecimalValue(d));
    }
  }

  /** A meeting number stored from the input shows as its ordinal label and sorts by its value. */
  lemma AssignedMeetingDisplay(s: Option<string>)
    ensures var r := NormalizeMeeting(s, false);
      r.Some? ==> MeetingLabel(Str(r.value)) == Ordinal(r.value) &&
                  MeetingSortKey(Ordinal(r.value)) == (1, DecimalValue(r.value))
  {
    var r := NormalizeMeeting(s, false);
    if r.Some? {
      var d := FirstDigitRun(Strip(InputText(s))).value;
      StripKeepsFirstDigitRun(InputText(s));
      MeetingLabelOfNumber(DecimalValue(d));
      OrdinalSortKey(DecimalValue(d));
      DecimalValueOfNatToString(DecimalValue(d));
    }
  }

  /**
   * A meeting number typed with full-width digits, as a Japanese input method
   * types it, is stored as its ASCII digits, and a label holding full-width
   * digits sorts by their value.
   */
  lemma FullWidthMeetingNumber()
    ensures NormalizeMeeting(Some("\U{FF18}"), false) == Some("8")
    ensures MeetingSortKey("第\U{FF11}\U{FF12}回") == (1, 12)
  {
    assert FirstDigitRun("\U{FF18}") == Some("\U{FF18}");
    assert DecimalValue("\U{FF18}") == 8;
    var x := "第\U{FF11}\U{FF12}回";
    var y := x[1..];
    assert y == "\U{FF11}\U{FF12}回" && !IsDigit(x[0]);
    assert y[1..] == "\U{FF12}回" && y[1..][1..] == "回";
    assert LeadingDigits(y[1..][1..]) == [];
    assert LeadingDigits(y[1..]) == "\U{FF12}";
    assert LeadingDigits(y) == "\U{FF11}\U{FF12}";
    assert FirstDigitRun(x) == Some("\U{FF11}\U{FF12}");
    assert DecimalValue("\U{FF11}\U{FF12}") == 12 by {
      assert "\U{FF11}\U{FF12}"[..1] == "\U{FF11}";
    }
  }

  // ---------------------------------------------------------------------------
  // The entry form
  // ---------------------------------------------------------------------------

  /**
   * `re.fullmatch(r"[0-9]+(\.[0-9]+)?", s)`, as the matcher goes: the longest
   * run of leading digits, which must be ASCII, then either the end or a dot
   * and ASCII digits to the end.
   */
  predicate RatioText(s: string) {
    var w := LeadingDigits(s);
    w != [] && AsciiDigits(w) && (|w| == |s| || (s[|w|] == '.' && |s| > |w| + 1 && AsciiDigits(s[|w| + 1..])))
  }

  /** The language of the pattern: ASCII digits, or ASCII digits, a dot and ASCII digits. */
  predicate DecimalLiteral(s: string) {
    || (s != [] && AsciiDigits(s))
    || exists k :: 0 < k < |s| - 1 && s[k] == '.' && AsciiDigits(s[..k]) && AsciiDigits(s[k + 1..])
  }

  /** The greedy matcher accepts exactly the language of the pattern. */
  lemma RatioTextIsDecimalLiteral(s: string)
    ensures RatioText(s) <==> DecimalLiteral(s)
  {
    var w := LeadingDigits(s);
    if RatioText(s) && |w| < |s| {
      var k := |w|;
      assert s[..k] == w;
    }
    if s != [] && AsciiDigits(s) {
      assert AllDigits(s);
    } else if DecimalLiteral(s) {
      var k :| 0 < k < |s| - 1 && s[k] == '.' && AsciiDigits(s[..k]) && AsciiDigits(s[k + 1..]);
      assert AllDigits(s[..k]);
      LeadingDigitsStopsAt(s, k);
    }
  }

  lemma {:induction false} LeadingDigitsStopsAt(s: string, k: nat)
    requires k < |s| && !IsDigit(s[k]) && AllDigits(s[..k])
    ensures LeadingDigits(s) == s[..k]
    decreases k
  {
    if k > 0 {
      assert s[1..][..k - 1] == s[..k][1..];
      LeadingDigitsStopsAt(s[1..], k - 1);
      assert IsDigit(s[..k][0]);
      assert s[..k] == [s[0]] + s[1..][..k - 1];
    }
  }

  /** The form's text fields. */
  datatype EntryForm = EntryForm(
    member: string, brand: string, brewery: string, region: string,
    category: string, ratio: string, note: string)

  /** The fields as the submit handler tidies them: every field trimmed, and the member name normalised. */
  function Tidied(f: EntryForm, fold: char -> char): (t: EntryForm)
    ensures t.brand == Strip(f.brand) && t.ratio == Strip(f.ratio)
    ensures Strip(t.member) == t.member
  {
    EntryForm(NormalizeMemberName(f.member, fold), Strip(f.brand), Strip(f.brewery),
              Strip(f.region), Strip(f.category), Strip(f.ratio), Strip(f.note))
  }

  /**
   * Every field of a tidied form is already stripped, so the handler's
   * second `strip()` of each field, when it builds the new record and
   * counts the member name, changes nothing.
   */
  lemma TidiedIsStripped(f: EntryForm, fold: char -> char)
    ensures var t := Tidied(f, fold);
      && Strip(t.member) == t.member && Strip(t.brand) == t.brand && Strip(t.brewery) == t.brewery
      && Strip(t.region) == t.region && Strip(t.category) == t.category
      && Strip(t.ratio) == t.ratio && Strip(t.note) == t.note
  {
    StripIdempotent(f.brand);
    StripIdempotent(f.brewery);
    StripIdempotent(f.region);
    StripIdempotent(f.category);
    StripIdempotent(f.ratio);
    StripIdempotent(f.note);
  }

  /** Why a submission is refused. */
  datatype EntryError = MissingRequired | BadPolishRatio

  /**
   * The refusals of the submit handler: the member name or the brand is
   * empty after tidying, or a polishing ratio is given that is not digits
   * with an optional decimal part.
   */
  function EntryErrors(f: EntryForm, fold: char -> char): (errs: set<EntryError>)
    ensures BadPolishRatio in errs <==> !AllSpace(f.ratio) && !DecimalLiteral(Strip(f.ratio))
  {
    var t := Tidied(f, fold);
    RatioTextIsDecimalLiteral(t.ratio);
    (if Strip(t.member) == [] || Strip(t.brand) == [] then {MissingRequired} else {}) +
    (if t.ratio != [] && !RatioText(t.ratio) then {BadPolishRatio} else {})
  }

  /** A submission lacks a required field exactly when the member name or the brand is all whitespace. */
  lemma MissingRequiredIffBlank(f: EntryForm, fold: char -> char)
    requires IsFolding(fold)
    ensures MissingRequired in EntryErrors(f, fold) <==> AllSpace(f.member) || AllSpace(f.brand)
  {
    NormalizeMemberNameEmpty(f.member, fold);
    var n := NormalizeMemberName(f.member, fold);
    assert Strip(n) == n;
  }
}
