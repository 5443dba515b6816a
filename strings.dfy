/**
 * Text helpers with Python's meaning: `str.isspace`, `str.strip()`,
 * `re.sub(r"\s+", " ", s)`, `re.search(r"\d+", s)`, `str(n)` for integers,
 * `int(float(s))` on decimal literals, `str.lower()` on ASCII letters,
 * the substring test `needle in hay` and string ordering.
 */
module Strings {
  import opened Wrappers

  /** Python's `str.isspace()`, which is also the set the regex class `\s` matches. */
  predicate IsSpace(c: char) {
    || c == ' '
    || ('\t' <= c <= '\r')
    || ('\U{1C}' <= c <= '\U{1F}')
    || c == '\U{85}' || c == '\U{A0}' || c == '\U{1680}'
    || ('\U{2000}' <= c <= '\U{200A}')
    || c == '\U{2028}' || c == '\U{2029}' || c == '\U{202F}' || c == '\U{205F}'
    || c == '\U{3000}'
  }

  predicate AllSpace(s: string) {
    forall i :: 0 <= i < |s| ==> IsSpace(s[i])
  }

  /** `s.lstrip()`: what is left of `s` after its leading whitespace. */
  function TrimLeft(s: string): (r: string)
    ensures |r| <= |s|
  {
    if s != [] && IsSpace(s[0]) then TrimLeft(s[1..]) else s
  }

  /**
   * `lstrip` removes a prefix made of whitespace only, and what is left does
   * not start with whitespace; it shortens a string that starts with whitespace.
   */
  lemma {:induction false} TrimLeftShape(s: string)
    ensures |TrimLeft(s)| <= |s| && TrimLeft(s) == s[|s| - |TrimLeft(s)|..]
    ensures forall i :: 0 <= i < |s| - |TrimLeft(s)| ==> IsSpace(s[i])
    ensures TrimLeft(s) == [] || !IsSpace(TrimLeft(s)[0])
    ensures s != [] && IsSpace(s[0]) ==> |TrimLeft(s)| < |s|
    decreases |s|
  {
    if s != [] && IsSpace(s[0]) {
      TrimLeftShape(s[1..]);
      var r := TrimLeft(s[1..]);
      assert forall i :: 1 <= i < |s| - |r| ==> s[i] == s[1..][i - 1];
    }
  }

  /** `s.rstrip()`: what is left of `s` before its trailing whitespace. */
  function TrimRight(s: string): (r: string)
    ensures |r| <= |s|
  {
    if s != [] && IsSpace(s[|s| - 1]) then TrimRight(s[..|s| - 1]) else s
  }

  /** `rstrip` removes a suffix made of whitespace only, and what is left does not end with whitespace. */
  lemma {:induction false} TrimRightShape(s: string)
    ensures |TrimRight(s)| <= |s| && TrimRight(s) == s[..|TrimRight(s)|]
    ensures forall i :: |TrimRight(s)| <= i < |s| ==> IsSpace(s[i])
    ensures TrimRight(s) == [] || !IsSpace(TrimRight(s)[|TrimRight(s)| - 1])
    decreases |s|
  {
    if s != [] && IsSpace(s[|s| - 1]) {
      TrimRightShape(s[..|s| - 1]);
      var r := TrimRight(s[..|s| - 1]);
      assert forall i :: |r| <= i < |s| - 1 ==> s[i] == s[..|s| - 1][i];
    }
  }

  /** The characters of `s` that are not whitespace, in order. */
  function NonSpace(s: string): string
    decreases |s|
  {
    if s == [] then [] else (if IsSpace(s[0]) then [] else [s[0]]) + NonSpace(s[1..])
  }

  lemma {:induction false} NonSpaceAppend(a: string, b: string)
    ensures NonSpace(a + b) == NonSpace(a) + NonSpace(b)
    decreases |a|
  {
    if a == [] {
      assert a + b == b;
    } else {
      assert (a + b)[0] == a[0];
      assert (a + b)[1..] == a[1..] + b;
      NonSpaceAppend(a[1..], b);
    }
  }

  lemma {:induction false} TrimLeftNonSpace(s: string)
    ensures NonSpace(TrimLeft(s)) == NonSpace(s)
    decreases |s|
  {
    if s != [] && IsSpace(s[0]) {
      TrimLeftNonSpace(s[1..]);
    }
  }

  lemma {:induction false} TrimRightNonSpace(s: string)
    ensures NonSpace(TrimRight(s)) == NonSpace(s)
    decreases |s|
  {
    if s != [] && IsSpace(s[|s| - 1]) {
      var init := s[..|s| - 1];
      TrimRightNonSpace(init);
      assert s == init + [s[|s| - 1]];
      NonSpaceAppend(init, [s[|s| - 1]]);
      assert NonSpace([s[|s| - 1]]) == [] by { assert [s[|s| - 1]][1..] == []; }
    }
  }

  /**
   * Trimming the front of `a + x`: when `a` is all whitespace it goes, and
   * what is left of `x` is trimmed; otherwise only `a` loses its front.
   */
  lemma {:induction false} TrimLeftAppend(a: string, x: string)
    ensures TrimLeft(a + x) == if AllSpace(a) then TrimLeft(x) else TrimLeft(a) + x
    decreases |a|
  {
    if a == [] {
      assert a + x == x;
    } else {
      assert (a + x)[0] == a[0];
      if IsSpace(a[0]) {
        assert (a + x)[1..] == a[1..] + x;
        TrimLeftAppend(a[1..], x);
        assert AllSpace(a) <==> AllSpace(a[1..]) by {
          assert forall i :: 1 <= i < |a| ==> a[i] == a[1..][i - 1];
        }
      }
    }
  }

  /** `s.strip()`: no whitespace at either end, nothing but outer whitespace removed. */
  function Strip(s: string): (r: string)
    ensures |r| <= |s|
    ensures r == [] || (!IsSpace(r[0]) && !IsSpace(r[|r| - 1]))
    ensures r == [] <==> AllSpace(s)
    ensures s == [] || (!IsSpace(s[0]) && !IsSpace(s[|s| - 1])) ==> r == s
    ensures NonSpace(r) == NonSpace(s)
  {
    var l := TrimLeft(s);
    var r := TrimRight(l);
    var k := |s| - |l|;
    TrimLeftShape(s);
    TrimRightShape(l);
    TrimLeftNonSpace(s);
    TrimRightNonSpace(l);
    assert r == [] ==> l == [];
    assert l != [] ==> l[0] == s[k];
    r
  }

  /** Any property every character of `s` has, every character of `Strip(s)` has. */
  lemma StripKeeps(s: string, p: char -> bool)
    requires forall i :: 0 <= i < |s| ==> p(s[i])
    ensures forall i :: 0 <= i < |Strip(s)| ==> p(Strip(s)[i])
  {
    var l := TrimLeft(s);
    var r := TrimRight(l);
    TrimLeftShape(s);
    TrimRightShape(l);
    assert forall i :: 0 <= i < |r| ==> r[i] == s[|s| - |l| + i];
  }

  lemma StripIdempotent(s: string)
    ensures Strip(Strip(s)) == Strip(s)
  {
  }

  /** Every character of `s` that is whitespace is the plain space. */
  predicate PlainSpaces(s: string) {
    forall i :: 0 <= i < |s| && IsSpace(s[i]) ==> s[i] == ' '
  }

  /** No two whitespace characters are adjacent in `s`. */
  predicate NoSpaceRuns(s: string) {
    forall i :: 0 <= i < |s| - 1 && IsSpace(s[i]) ==> !IsSpace(s[i + 1])
  }

  /** `re.sub(r"\s+", " ", s)`: every maximal run of whitespace becomes one space. */
  function CollapseSpaces(s: string): (r: string)
    ensures r == [] <==> s == []
    ensures PlainSpaces(r) && NoSpaceRuns(r)
    ensures s != [] ==> (IsSpace(r[0]) <==> IsSpace(s[0]))
    ensures s != [] ==> (IsSpace(r[|r| - 1]) <==> IsSpace(s[|s| - 1]))
    decreases |s|
  {
    if s == [] then []
    else if IsSpace(s[0]) then
      var t := TrimLeft(s);
      TrimLeftShape(s);
      assert t != [] ==> t[|t| - 1] == s[|s| - 1];
      " " + CollapseSpaces(t)
    else
      [s[0]] + CollapseSpaces(s[1..])
  }

  /** Collapsing keeps every non-whitespace character, in order, and adds none. */
  lemma {:induction false} CollapseSpacesKeepsText(s: string)
    ensures NonSpace(CollapseSpaces(s)) == NonSpace(s)
    decreases |s|
  {
    if s != [] {
      var r := CollapseSpaces(s);
      if IsSpace(s[0]) {
        var t := TrimLeft(s);
        TrimLeftShape(s);
        TrimLeftNonSpace(s);
        CollapseSpacesKeepsText(t);
        CollapseSpacesLeadingRun(s);
        assert r[0] == ' ' && r[1..] == CollapseSpaces(t);
      } else {
        CollapseSpacesKeepsText(s[1..]);
        CollapseSpacesLeadingChar(s);
        assert r[0] == s[0] && r[1..] == CollapseSpaces(s[1..]);
      }
    }
  }

  /** Regrouping the pieces of a collapsed string, with every piece named. */
  lemma JoinRegroups(whole: string, head: string, rest: string, x: string, y: string, xs: string)
    requires whole == head + rest && rest == x + " " + y && xs == head + x
    ensures whole == xs + " " + y
  {
  }

  /** Collapsing a string that starts with whitespace: one space, then the rest collapsed. */
  lemma CollapseSpacesLeadingRun(s: string)
    requires s != [] && IsSpace(s[0])
    ensures CollapseSpaces(s) == " " + CollapseSpaces(TrimLeft(s))
  {
  }

  /** Collapsing a string that starts with a non-space character keeps it. */
  lemma CollapseSpacesLeadingChar(s: string)
    requires s != [] && !IsSpace(s[0])
    ensures CollapseSpaces(s) == [s[0]] + CollapseSpaces(s[1..])
  {
  }

  /** Where the run comes first: one space, then the text after it collapsed. */
  lemma CollapseSplitsAtStart(w: string, b: string)
    requires w != [] && AllSpace(w)
    requires b == [] || !IsSpace(b[0])
    ensures CollapseSpaces(w + b) == " " + CollapseSpaces(b)
  {
    TrimLeftAppend(w, b);
    assert (w + b)[0] == w[0];
    CollapseSpacesLeadingRun(w + b);
  }

  /** The inductive step past leading whitespace of `a`. */
  lemma CollapseSplitsSpaceStep(a: string, w: string, b: string)
    requires a != [] && IsSpace(a[0]) && !IsSpace(a[|a| - 1])
    requires CollapseSpaces(TrimLeft(a) + w + b) == CollapseSpaces(TrimLeft(a)) + " " + CollapseSpaces(b)
    ensures CollapseSpaces(a + w + b) == CollapseSpaces(a) + " " + CollapseSpaces(b)
  {
    var t := TrimLeft(a);
    assert !AllSpace(a);
    CollapseAppendRun(a, w, b);
    CollapseSpacesLeadingRun(a);
    JoinRegroups(CollapseSpaces(a + w + b), " ", CollapseSpaces(t + w + b),
                 CollapseSpaces(t), CollapseSpaces(b), CollapseSpaces(a));
  }

  /** Unfolding the collapse of `a + w + b` once, past a leading non-space character of `a`. */
  lemma CollapseAppendChar(a: string, w: string, b: string)
    requires a != [] && !IsSpace(a[0])
    ensures CollapseSpaces(a + w + b) == [a[0]] + CollapseSpaces(a[1..] + w + b)
  {
    var s := a + w + b;
    assert s[0] == a[0] && s[1..] == a[1..] + w + b;
    CollapseSpacesLeadingChar(s);
  }

  /** Unfolding the collapse of `a + w + b` once, past leading whitespace of a non-blank `a`. */
  lemma CollapseAppendRun(a: string, w: string, b: string)
    requires a != [] && IsSpace(a[0]) && !AllSpace(a)
    ensures CollapseSpaces(a + w + b) == " " + CollapseSpaces(TrimLeft(a) + w + b)
  {
    var s := a + w + b;
    TrimLeftAppend(a, w + b);
    assert s == a + (w + b) && TrimLeft(a) + (w + b) == TrimLeft(a) + w + b;
    assert s[0] == a[0];
    CollapseSpacesLeadingRun(s);
  }

  /** The inductive step past a leading non-space character of `a`. */
  lemma CollapseSplitsCharStep(a: string, w: string, b: string)
    requires a != [] && !IsSpace(a[0])
    requires CollapseSpaces(a[1..] + w + b) == CollapseSpaces(a[1..]) + " " + CollapseSpaces(b)
    ensures CollapseSpaces(a + w + b) == CollapseSpaces(a) + " " + CollapseSpaces(b)
  {
    CollapseAppendChar(a, w, b);
    CollapseSpacesLeadingChar(a);
    JoinRegroups(CollapseSpaces(a + w + b), [a[0]], CollapseSpaces(a[1..] + w + b),
                 CollapseSpaces(a[1..]), CollapseSpaces(b), CollapseSpaces(a));
  }

  /**
   * A whitespace run between two words becomes exactly one space, and the
   * text on either side is collapsed on its own.
   */
  lemma {:induction false} CollapseSpacesSplits(a: string, w: string, b: string)
    requires w != [] && AllSpace(w)
    requires a == [] || !IsSpace(a[|a| - 1])
    requires b == [] || !IsSpace(b[0])
    ensures CollapseSpaces(a + w + b) == CollapseSpaces(a) + " " + CollapseSpaces(b)
    decreases |a|
  {
    if a == [] {
      assert a + w + b == w + b;
      CollapseSplitsAtStart(w, b);
    } else if IsSpace(a[0]) {
      var t := TrimLeft(a);
      TrimLeftShape(a);
      assert t != [] && t[|t| - 1] == a[|a| - 1];
      CollapseSpacesSplits(t, w, b);
      CollapseSplitsSpaceStep(a, w, b);
    } else {
      assert a[1..] == [] || a[1..][|a[1..]| - 1] == a[|a| - 1];
      CollapseSpacesSplits(a[1..], w, b);
      CollapseSplitsCharStep(a, w, b);
    }
  }

  /** Any property the plain space and every character of `s` have, every
      character of `CollapseSpaces(s)` has. */
  lemma {:induction false} CollapseKeeps(s: string, p: char -> bool)
    requires p(' ')
    requires forall i :: 0 <= i < |s| ==> p(s[i])
    ensures forall i :: 0 <= i < |CollapseSpaces(s)| ==> p(CollapseSpaces(s)[i])
    decreases |s|
  {
    if s != [] {
      if IsSpace(s[0]) {
        var t := TrimLeft(s);
        TrimLeftShape(s);
        assert forall i :: 0 <= i < |t| ==> t[i] == s[|s| - |t| + i];
        CollapseKeeps(t, p);
      } else {
        assert forall i :: 0 <= i < |s[1..]| ==> s[1..][i] == s[i + 1];
        CollapseKeeps(s[1..], p);
      }
    }
  }

  /** The tail of a collapsed string is collapsed. */
  lemma CollapsedTail(s: string)
    requires s != [] && PlainSpaces(s) && NoSpaceRuns(s)
    ensures PlainSpaces(s[1..]) && NoSpaceRuns(s[1..])
  {
    assert forall i :: 0 <= i < |s| - 1 ==> s[1..][i] == s[i + 1];
  }

  /** A collapsed string starting with whitespace loses exactly that one character to `lstrip`. */
  lemma TrimLeftOfCollapsed(s: string)
    requires s != [] && IsSpace(s[0]) && NoSpaceRuns(s)
    ensures TrimLeft(s) == s[1..]
  {
    TrimLeftShape(s[1..]);
    assert |s| > 1 ==> !IsSpace(s[1..][0]);
  }

  /** A string already in collapsed form is left as it is. */
  lemma {:induction false} CollapseSpacesFixed(s: string)
    requires PlainSpaces(s) && NoSpaceRuns(s)
    ensures CollapseSpaces(s) == s
    decreases |s|
  {
    if s != [] {
      CollapsedTail(s);
      CollapseSpacesFixed(s[1..]);
      if IsSpace(s[0]) {
        TrimLeftOfCollapsed(s);
        assert s == " " + s[1..];
      } else {
        assert s == [s[0]] + s[1..];
      }
    }
  }

  /** `[0-9]`: an ASCII digit. */
  predicate IsAsciiDigit(c: char) {
    '0' <= c <= '9'
  }

  /** A full-width digit, U+FF10 to U+FF19, as a Japanese input method types it. */
  predicate IsWideDigit(c: char) {
    '\U{FF10}' <= c <= '\U{FF19}'
  }

  /** A decimal digit as `\d`, `int()` and `float()` accept it: ASCII or full-width. */
  predicate IsDigit(c: char) {
    IsAsciiDigit(c) || IsWideDigit(c)
  }

  predicate AsciiDigits(s: string) {
    forall i :: 0 <= i < |s| ==> IsAsciiDigit(s[i])
  }

  predicate HasWideDigit(s: string) {
    exists i :: 0 <= i < |s| && IsWideDigit(s[i])
  }

  predicate AllDigits(s: string) {
    forall i :: 0 <= i < |s| ==> IsDigit(s[i])
  }

  predicate HasDigit(s: string) {
    exists i :: 0 <= i < |s| && IsDigit(s[i])
  }

  /** The longest prefix of `s` made of digits. */
  function LeadingDigits(s: string): (r: string)
    ensures |r| <= |s| && r == s[..|r|] && AllDigits(r)
    ensures |r| < |s| ==> !IsDigit(s[|r|])
    ensures AllDigits(s) ==> r == s
  {
    if s != [] && IsDigit(s[0]) then [s[0]] + LeadingDigits(s[1..]) else []
  }

  /** What `re.search(r"\d+", s)` finds: the first maximal run of digits, if any. */
  function FirstDigitRun(s: string): (r: Option<string>)
    ensures r.None? <==> !HasDigit(s)
    ensures r.Some? ==> r.value != [] && AllDigits(r.value)
  {
    if s == [] then None
    else if IsDigit(s[0]) then Some(LeadingDigits(s))
    else
      var r := FirstDigitRun(s[1..]);
      assert HasDigit(s) ==> HasDigit(s[1..]) by {
        if HasDigit(s) {
          var i :| 0 <= i < |s| && IsDigit(s[i]);
          assert s[1..][i - 1] == s[i];
        }
      }
      assert HasDigit(s[1..]) ==> HasDigit(s) by {
        if HasDigit(s[1..]) {
          var i :| 0 <= i < |s[1..]| && IsDigit(s[1..][i]);
          assert s[i + 1] == s[1..][i];
        }
      }
      r
  }

  lemma {:induction false} FirstDigitRunSkipsPrefix(p: string, x: string)
    requires !HasDigit(p)
    ensures FirstDigitRun(p + x) == FirstDigitRun(x)
    decreases |p|
  {
    if p == [] {
      assert p + x == x;
    } else {
      assert !IsDigit(p[0]);
      assert (p + x)[1..] == p[1..] + x;
      assert !HasDigit(p[1..]) by {
        forall i | 0 <= i < |p[1..]| ensures !IsDigit(p[1..][i]) {
          assert p[1..][i] == p[i + 1];
        }
      }
      FirstDigitRunSkipsPrefix(p[1..], x);
    }
  }

  lemma {:induction false} LeadingDigitsIgnoresSuffix(x: string, q: string)
    requires !HasDigit(q)
    ensures LeadingDigits(x + q) == LeadingDigits(x)
    decreases |x|
  {
    if x == [] {
      assert x + q == q;
      assert q != [] ==> !IsDigit(q[0]);
    } else {
      assert (x + q)[0] == x[0];
      assert (x + q)[1..] == x[1..] + q;
      LeadingDigitsIgnoresSuffix(x[1..], q);
    }
  }

  lemma {:induction false} FirstDigitRunIgnoresSuffix(x: string, q: string)
    requires !HasDigit(q)
    ensures FirstDigitRun(x + q) == FirstDigitRun(x)
    decreases |x|
  {
    if x == [] {
      assert x + q == q;
    } else {
      assert (x + q)[0] == x[0];
      assert (x + q)[1..] == x[1..] + q;
      if IsDigit(x[0]) {
        LeadingDigitsIgnoresSuffix(x, q);
      } else {
        FirstDigitRunIgnoresSuffix(x[1..], q);
      }
    }
  }

  lemma NoDigitInSpaces(s: string)
    requires AllSpace(s)
    ensures !HasDigit(s)
  {
  }

  lemma TrimLeftKeepsFirstDigitRun(s: string)
    ensures FirstDigitRun(TrimLeft(s)) == FirstDigitRun(s)
  {
    var l := TrimLeft(s);
    TrimLeftShape(s);
    var p := s[..|s| - |l|];
    assert s == p + l;
    assert forall i :: 0 <= i < |p| ==> p[i] == s[i];
    NoDigitInSpaces(p);
    FirstDigitRunSkipsPrefix(p, l);
  }

  lemma TrimRightKeepsFirstDigitRun(s: string)
    ensures FirstDigitRun(TrimRight(s)) == FirstDigitRun(s)
  {
    var r := TrimRight(s);
    TrimRightShape(s);
    var q := s[|r|..];
    assert s == r + q;
    assert AllSpace(q) by {
      forall i | 0 <= i < |q| ensures IsSpace(q[i]) {
        assert q[i] == s[|r| + i];
      }
    }
    NoDigitInSpaces(q);
    FirstDigitRunIgnoresSuffix(r, q);
  }

  /** Stripping whitespace never changes the first run of digits. */
  lemma StripKeepsFirstDigitRun(s: string)
    ensures FirstDigitRun(Strip(s)) == FirstDigitRun(s)
  {
    TrimLeftKeepsFirstDigitRun(s);
    TrimRightKeepsFirstDigitRun(TrimLeft(s));
  }

  function DigitChar(d: nat): (c: char)
    requires d < 10
    ensures IsAsciiDigit(c) && IsDigit(c)
  {
    ('0' as int + d) as char
  }

  function DigitValue(c: char): (d: nat)
    requires IsDigit(c)
    ensures d < 10
  {
    if IsAsciiDigit(c) then c as int - '0' as int else c as int - 0xFF10
  }

  /** `str(n)` for a non-negative integer: canonical decimal, no leading zero. */
  function NatToString(n: nat): (r: string)
    ensures r != [] && AllDigits(r) && AsciiDigits(r)
    ensures r[0] == '0' <==> n == 0
    ensures n == 0 ==> r == "0"
  {
    if n < 10 then [DigitChar(n)] else NatToString(n / 10) + [DigitChar(n % 10)]
  }

  /** `str(n)` for any integer. */
  function IntToString(n: int): string {
    if n < 0 then "-" + NatToString(-n) else NatToString(n)
  }

  /** `int(d)` for a string of digits. */
  function DecimalValue(d: string): nat
    requires AllDigits(d)
  {
    if d == [] then 0 else 10 * DecimalValue(d[..|d| - 1]) + DigitValue(d[|d| - 1])
  }

  /** Rendering a number and reading it back gives the number. */
  lemma {:induction false} DecimalValueOfNatToString(n: nat)
    ensures DecimalValue(NatToString(n)) == n
    decreases n
  {
    if n >= 10 {
      var s := NatToString(n);
      assert s[..|s| - 1] == NatToString(n / 10);
      DecimalValueOfNatToString(n / 10);
    }
  }

  /**
   * `int(float(s))` when `s` is one of the decimal literals `float` accepts:
   * an optional sign, then digits with an optional `.` and fraction, or a `.`
   * and fraction digits. The fraction is dropped, truncating toward zero.
   * Any other string makes `float` or `int` raise: `None`.
   */
  function TruncatedDecimal(s: string): (r: Option<int>)
    ensures AllDigits(s) && s != [] ==> r == Some(DecimalValue(s))
    ensures r.Some? ==> HasDigit(s)
  {
    var signed := s != [] && (s[0] == '-' || s[0] == '+');
    var body := if signed then s[1..] else s;
    var whole := LeadingDigits(body);
    var rest := body[|whole|..];
    var fraction := rest != [] && rest[0] == '.' && AllDigits(rest[1..]);
    if (whole != [] && (rest == [] || fraction)) || (whole == [] && fraction && |rest| >= 2) then
      assert HasDigit(s) by {
        var k := if signed then 1 else 0;
        if whole != [] {
          assert IsDigit(s[k]) by { assert body[0] == whole[0]; }
        } else {
          assert IsDigit(s[k + 1]) by { assert body[1] == rest[1]; }
        }
      }
      var v: int := DecimalValue(whole);
      Some(if signed && s[0] == '-' then -v else v)
    else None
  }

  function LowerChar(c: char): char {
    if 'A' <= c <= 'Z' then (c as int + 32) as char else c
  }

  /** `s.lower()`, folding the ASCII letters. */
  function Lower(s: string): (r: string)
    ensures |r| == |s|
  {
    seq(|s|, i requires 0 <= i < |s| => LowerChar(s[i]))
  }

  /** Text without ASCII capitals is its own lower-case form. */
  lemma LowerKeeps(s: string)
    requires forall i :: 0 <= i < |s| ==> !('A' <= s[i] <= 'Z')
    ensures Lower(s) == s
  {
  }

  /** Python's `needle in hay` on strings. */
  predicate Contains(hay: string, needle: string)
    decreases |hay|
  {
    needle <= hay || (hay != [] && Contains(hay[1..], needle))
  }

  /** Python's `a <= b` on strings: lexicographic by code point. */
  predicate StrLe(a: string, b: string)
    decreases |a|
  {
    a == [] || (b != [] && (a[0] < b[0] || (a[0] == b[0] && StrLe(a[1..], b[1..]))))
  }

  lemma {:induction false} StrLeTotal(a: string, b: string)
    ensures StrLe(a, b) || StrLe(b, a)
    decreases |a|
  {
    if a != [] && b != [] && a[0] == b[0] {
      StrLeTotal(a[1..], b[1..]);
    }
  }

  lemma {:induction false} StrLeAntisymmetric(a: string, b: string)
    requires StrLe(a, b) && StrLe(b, a)
    ensures a == b
    decreases |a|
  {
    if a != [] && b != [] {
      StrLeAntisymmetric(a[1..], b[1..]);
      assert a == [a[0]] + a[1..] && b == [b[0]] + b[1..];
    }
  }

  lemma {:induction false} StrLeTransitive(a: string, b: string, c: string)
    requires StrLe(a, b) && StrLe(b, c)
    ensures StrLe(a, c)
    decreases |a|
  {
    if a != [] && a[0] == b[0] && b[0] == c[0] {
      StrLeTransitive(a[1..], b[1..], c[1..]);
    }
  }
}
