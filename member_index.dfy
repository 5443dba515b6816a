/**
 * The member-name frequency index: how often each member name has been chosen
 * on the entry form, used to offer the most frequent names first.
 */
module MemberIndex {
  import opened Strings
  import opened Values
  import opened Tables
  import opened Config

  /** A `Counter` of member names. */
  type Counts = map<string, nat>

  /** `counter[name]`, which is 0 for a name never counted. */
  function CountOf(c: Counts, name: string): nat {
    if name in c then c[name] else 0
  }

  /** `Counter(xs)`: each distinct element with its number of occurrences. */
  function Tally(xs: seq<string>): (m: Counts)
    ensures forall k :: k in m <==> k in xs
    ensures forall k :: CountOf(m, k) == multiset(xs)[k]
    ensures m == map[] <==> xs == []
    decreases |xs|
  {
    if xs == [] then map[]
    else
      var init := xs[..|xs| - 1];
      var last := xs[|xs| - 1];
      assert xs == init + [last];
      var m := Tally(init);
      m[last := CountOf(m, last) + 1]
  }

  /** A member-name cell yields the name `x`: it is not null and its trimmed text is `x`. */
  predicate Yields(v: Value, x: string) {
    !IsNa(v) && Strip(Render(v)) == x
  }

  /** How many cells yield the name `x`. */
  function Occurrences(cells: seq<Value>, x: string): nat {
    if cells == [] then 0 else (if Yields(cells[0], x) then 1 else 0) + Occurrences(cells[1..], x)
  }

  /**
   * The names seeding reads from a member-name column: null cells dropped,
   * the rest rendered as text and trimmed, and blank results dropped, in row
   * order.
   */
  function SeedNames(cells: seq<Value>): (names: seq<string>)
    ensures |names| <= |cells|
    ensures forall x :: x in names ==> x != [] && Strip(x) == x
    ensures forall x :: x != [] ==> multiset(names)[x] == Occurrences(cells, x)
  {
    if cells == [] then []
    else
      var v := cells[0];
      var rest := SeedNames(cells[1..]);
      if IsNa(v) || Strip(Render(v)) == [] then rest else [Strip(Render(v))] + rest
  }

  /**
   * What seeding makes of the counter `c` given the catalog `t`: unchanged when
   * `c` already holds a name, when `t` has no member-name column or when that
   * column yields no name; otherwise each name's number of occurrences.
   */
  function Seeded(c: Counts, t: Table): Counts
    requires WellFormed(t)
  {
    if c != map[] || MemberField !in t.columns then c
    else
      var names := SeedNames(Column(t, MemberField));
      if names == [] then c else Tally(names)
  }

  /** Seeding a counter that already holds a name leaves it as it is. */
  lemma SeededKeepsNonEmpty(c: Counts, t: Table)
    requires WellFormed(t) && c != map[]
    ensures Seeded(c, t) == c
  {
  }

  /**
   * Seeding an empty counter from a member-name column that yields names
   * counts each name's occurrences after trimming, and nothing else.
   */
  lemma SeededCounts(t: Table)
    requires WellFormed(t) && MemberField in t.columns
    requires SeedNames(Column(t, MemberField)) != []
    ensures var names := SeedNames(Column(t, MemberField));
      forall k :: CountOf(Seeded(map[], t), k) == multiset(names)[k]
  {
  }

  /** Seeding twice from the same catalog is the same as seeding once. */
  lemma SeedTwice(c: Counts, t: Table)
    requires WellFormed(t)
    ensures Seeded(Seeded(c, t), t) == Seeded(c, t)
  {
    var once := Seeded(c, t);
    if c == map[] && MemberField in t.columns {
      var names := SeedNames(Column(t, MemberField));
      if names != [] {
        assert once == Tally(names) && once != map[];
        SeededKeepsNonEmpty(once, t);
      }
    }
  }

  /** `[x for x in names if x and str(x).strip()]`: blank names removed, order kept. */
  function Cleaned(names: seq<string>): (r: seq<string>)
    ensures forall x :: multiset(r)[x] == if Strip(x) != [] then multiset(names)[x] else 0
  {
    if names == [] then []
    else
      var rest := Cleaned(names[1..]);
      assert names == [names[0]] + names[1..];
      if Strip(names[0]) != [] then [names[0]] + rest else rest
  }

  /** `a` sorts no later than `b` under the key `(-count, name)`. */
  predicate RankBefore(c: Counts, a: string, b: string) {
    CountOf(c, a) > CountOf(c, b) || (CountOf(c, a) == CountOf(c, b) && StrLe(a, b))
  }

  predicate Ranked(c: Counts, s: seq<string>) {
    forall i, j :: 0 <= i < j < |s| ==> RankBefore(c, s[i], s[j])
  }

  lemma RankBeforeTotal(c: Counts, a: string, b: string)
    ensures RankBefore(c, a, b) || RankBefore(c, b, a)
  {
    StrLeTotal(a, b);
  }

  lemma RankBeforeTransitive(c: Counts, a: string, b: string, d: string)
    requires RankBefore(c, a, b) && RankBefore(c, b, d)
    ensures RankBefore(c, a, d)
  {
    if CountOf(c, a) == CountOf(c, b) == CountOf(c, d) {
      StrLeTransitive(a, b, d);
    }
  }

  lemma RankBeforeAntisymmetric(c: Counts, a: string, b: string)
    requires RankBefore(c, a, b) && RankBefore(c, b, a)
    ensures a == b
  {
    StrLeAntisymmetric(a, b);
  }

  /** Inserts `x` before the first element it ranks before. */
  function Insert(c: Counts, x: string, s: seq<string>): (r: seq<string>)
    ensures multiset(r) == multiset(s) + multiset{x}
  {
    if s == [] then [x]
    else if RankBefore(c, x, s[0]) then [x] + s
    else
      assert s == [s[0]] + s[1..];
      [s[0]] + Insert(c, x, s[1..])
  }

  /** Putting in front an element that ranks before the head keeps a sequence ranked. */
  lemma RankedCons(c: Counts, x: string, s: seq<string>)
    requires Ranked(c, s) && s != [] && RankBefore(c, x, s[0])
    ensures Ranked(c, [x] + s)
  {
    var r := [x] + s;
    forall i, j | 0 <= i < j < |r| ensures RankBefore(c, r[i], r[j]) {
      if i == 0 {
        if j > 1 {
          RankBeforeTransitive(c, x, s[0], s[j - 1]);
        }
      } else {
        assert r[i] == s[i - 1] && r[j] == s[j - 1];
      }
    }
  }

  /** Putting the head back in front of a ranked arrangement of the rest of the elements keeps it ranked. */
  lemma RankedBehindHead(c: Counts, h: string, s: seq<string>, rest: seq<string>, x: string)
    requires Ranked(c, [h] + s) && Ranked(c, rest) && RankBefore(c, h, x)
    requires multiset(rest) == multiset(s) + multiset{x}
    ensures Ranked(c, [h] + rest)
  {
    var r := [h] + rest;
    forall i, j | 0 <= i < j < |r| ensures RankBefore(c, r[i], r[j]) {
      if i == 0 {
        var y := rest[j - 1];
        assert y in multiset(rest);
        if y != x {
          assert multiset(rest)[y] == multiset(s)[y] + multiset{x}[y];
          assert y in multiset(s);
          var k :| 0 <= k < |s| && s[k] == y;
          assert ([h] + s)[0] == h && ([h] + s)[k + 1] == y;
        }
      } else {
        assert r[i] == rest[i - 1] && r[j] == rest[j - 1];
        assert RankBefore(c, rest[i - 1], rest[j - 1]);
      }
    }
  }

  /** Inserting into a ranked sequence keeps it ranked. */
  lemma {:induction false} InsertRanked(c: Counts, x: string, s: seq<string>)
    requires Ranked(c, s)
    ensures Ranked(c, Insert(c, x, s))
    decreases |s|
  {
    if s != [] {
      if RankBefore(c, x, s[0]) {
        RankedCons(c, x, s);
      } else {
        RankBeforeTotal(c, x, s[0]);
        RankedTail(c, s);
        InsertRanked(c, x, s[1..]);
        assert s == [s[0]] + s[1..];
        RankedBehindHead(c, s[0], s[1..], Insert(c, x, s[1..]), x);
      }
    }
  }

  /** Sorts by the key `(-count, name)`, by insertion. */
  function SortRanked(c: Counts, s: seq<string>): (r: seq<string>)
    ensures Ranked(c, r) && multiset(r) == multiset(s)
  {
    if s == [] then []
    else
      assert s == [s[0]] + s[1..];
      var sorted := SortRanked(c, s[1..]);
      InsertRanked(c, s[0], sorted);
      Insert(c, s[0], sorted)
  }

  /**
   * The member names offered on the form: blank names dropped, the rest
   * ordered by how often they were chosen, most frequent first, ties broken
   * by name.
   */
  function SortMembersByFrequency(c: Counts, names: seq<string>): (r: seq<string>)
    ensures Ranked(c, r)
    ensures forall x :: multiset(r)[x] == if Strip(x) != [] then multiset(names)[x] else 0
  {
    SortRanked(c, Cleaned(names))
  }

  /** The tail of a ranked sequence is ranked, and holds the rest of its elements. */
  lemma RankedTail(c: Counts, s: seq<string>)
    requires Ranked(c, s) && s != []
    ensures Ranked(c, s[1..]) && multiset(s[1..]) == multiset(s) - multiset{s[0]}
  {
    assert s == [s[0]] + s[1..];
    assert forall k :: 0 <= k < |s| - 1 ==> s[1..][k] == s[k + 1];
  }

  /** Two ranked arrangements of the same names start with the same name. */
  lemma RankedHeads(c: Counts, a: seq<string>, b: seq<string>)
    requires Ranked(c, a) && Ranked(c, b) && multiset(a) == multiset(b) && a != []
    ensures b != [] && a[0] == b[0]
  {
    assert a[0] in multiset(b);
    assert b[0] in multiset(a);
    var i :| 0 <= i < |b| && b[i] == a[0];
    var j :| 0 <= j < |a| && a[j] == b[0];
    assert RankBefore(c, a[0], b[0]) by {
      if j == 0 { StrLeTotal(a[0], a[0]); }
    }
    assert RankBefore(c, b[0], a[0]) by {
      if i == 0 { StrLeTotal(b[0], b[0]); }
    }
    RankBeforeAntisymmetric(c, a[0], b[0]);
  }

  /**
   * A ranked arrangement of a multiset of names is unique, so the ranking
   * does not depend on the sorting algorithm or on the input order.
   */
  lemma {:induction false} RankedUnique(c: Counts, a: seq<string>, b: seq<string>)
    requires Ranked(c, a) && Ranked(c, b) && multiset(a) == multiset(b)
    ensures a == b
    decreases |a|
  {
    if a != [] {
      RankedHeads(c, a, b);
      RankedTail(c, a);
      RankedTail(c, b);
      RankedUnique(c, a[1..], b[1..]);
      assert a == [a[0]] + a[1..] && b == [b[0]] + b[1..];
    } else {
      assert |multiset(b)| == 0;
    }
  }

  /**
   * `for k, v in base.items(): counter[k] += v`: adds every count of `base`
   * into `c`, key by key.
   */
  method AddCounts(c: Counts, base: Counts) returns (r: Counts)
    ensures r.Keys == c.Keys + base.Keys
    ensures forall k :: CountOf(r, k) == CountOf(c, k) + CountOf(base, k)
  {
    r := c;
    var pending := base.Keys;
    while pending != {}
      invariant pending <= base.Keys
      invariant r.Keys == c.Keys + (base.Keys - pending)
      invariant forall k :: CountOf(r, k) == CountOf(c, k) + if k in pending then 0 else CountOf(base, k)
      decreases pending
    {
      var k :| k in pending;
      r := r[k := CountOf(r, k) + base[k]];
      pending := pending - {k};
    }
  }

  lemma SameCounts(a: Counts, b: Counts)
    requires a.Keys == b.Keys && forall k :: CountOf(a, k) == CountOf(b, k)
    ensures a == b
  {
    assert forall k :: k in a ==> a[k] == CountOf(a, k) == CountOf(b, k) == b[k];
  }

  /** The frequency history of member names. */
  class MemberHistory {
    /** The persisted counter; an absent history file reads as the empty counter. */
    var counts: Counts

    constructor(initial: Counts)
      ensures counts == initial
    {
      counts := initial;
    }

    /** Counts one more choice of `name`; every other count stays. */
    method Bump(name: string)
      modifies this
      ensures counts == old(counts)[name := CountOf(old(counts), name) + 1]
      ensures CountOf(counts, name) == CountOf(old(counts), name) + 1
      ensures forall k :: k != name ==> CountOf(counts, k) == CountOf(old(counts), k)
    {
      counts := counts[name := CountOf(counts, name) + 1];
    }

    /**
     * Initialises an empty counter from the member names already in the
     * catalog; does nothing when the counter already holds a name.
     */
    method Seed(t: Table)
      requires WellFormed(t)
      modifies this
      ensures counts == Seeded(old(counts), t)
    {
      if counts != map[] {
        return;
      }
      if MemberField !in t.columns {
        return;
      }
      var names := SeedNames(Column(t, MemberField));
      if names == [] {
        return;
      }
      var base := Tally(names);
      var c := AddCounts(map[], base);
      SameCounts(c, base);
      counts := c;
    }
  }
}
