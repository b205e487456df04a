/** The generated page body: records grouped by year, the years in display
    order, each group a reversed ordered list whose numbers continue one
    count-down across all groups, and the method that builds it line by line.
    Line numbers in the comments below refer to scripts/bib_to_html.py. */
module Listing {

  import opened PyStr
  import opened Latex
  import opened Sorting
  import opened Entries

  const Undated: string := "Undated"

  /** Line 126: the grouping key, `entry.get('year', 'Undated')`. */
  function YearOf(e: Entry): string {
    Get(e, "year", Undated)
  }

  predicate Distinct<T(==)>(s: seq<T>) {
    forall i, j :: 0 <= i < j < |s| ==> s[i] != s[j]
  }

  // ---------------------------------------------------------------- grouping

  /** The keys of `grouped_by_year` in insertion order: every year once, in the
      order of its first record. */
  function YearsOf(es: seq<Entry>): seq<string> {
    if es == [] then []
    else
      var ys := YearsOf(es[..|es| - 1]);
      var y := YearOf(es[|es| - 1]);
      if y in ys then ys else ys + [y]
  }

  /** `grouped_by_year[y]`: the records of year `y`, in input order. */
  function InYear(es: seq<Entry>, y: string): seq<Entry> {
    if es == [] then []
    else InYear(es[..|es| - 1], y) + (if YearOf(es[|es| - 1]) == y then [es[|es| - 1]] else [])
  }

  lemma LastSplit(es: seq<Entry>)
    requires es != []
    ensures es == es[..|es| - 1] + [es[|es| - 1]]
  {
  }

  /** A group holds exactly the records of its year. */
  lemma {:induction false} InYearMembers(es: seq<Entry>, y: string, e: Entry)
    ensures e in InYear(es, y) <==> e in es && YearOf(e) == y
  {
    if es != [] {
      var p := es[..|es| - 1];
      InYearMembers(p, y, e);
      LastSplit(es);
    }
  }

  /** A year is a key exactly when some record has it. */
  lemma {:induction false} YearsOfMembers(es: seq<Entry>, y: string)
    ensures y in YearsOf(es) <==> InYear(es, y) != []
  {
    if es != [] {
      YearsOfMembers(es[..|es| - 1], y);
    }
  }

  /** No year is a key twice. */
  lemma {:induction false} YearsOfDistinct(es: seq<Entry>)
    ensures Distinct(YearsOf(es))
  {
    if es != [] {
      YearsOfDistinct(es[..|es| - 1]);
    }
  }

  /** `sum(len(v) for v in ...)` over the groups of `ys`. */
  function SumSizes(es: seq<Entry>, ys: seq<string>): nat {
    if ys == [] then 0 else SumSizes(es, ys[..|ys| - 1]) + |InYear(es, ys[|ys| - 1])|
  }

  /** Adding a record grows every group of its year by one. */
  lemma {:induction false} SumSizesStep(p: seq<Entry>, e: Entry, ys: seq<string>)
    ensures SumSizes(p + [e], ys) == SumSizes(p, ys) + multiset(ys)[YearOf(e)]
  {
    var es := p + [e];
    assert es[..|es| - 1] == p && es[|es| - 1] == e;
    if ys != [] {
      var q := ys[..|ys| - 1];
      var y := ys[|ys| - 1];
      SumSizesStep(p, e, q);
      assert |InYear(es, y)| == |InYear(p, y)| + (if YearOf(e) == y then 1 else 0);
      assert ys == q + [y];
      assert multiset(ys)[YearOf(e)] == multiset(q)[YearOf(e)] + (if YearOf(e) == y then 1 else 0);
    }
  }

  lemma {:induction false} DistinctOnce<T>(s: seq<T>, x: T)
    requires Distinct(s) && x in s
    ensures multiset(s)[x] == 1
  {
    var q := s[..|s| - 1];
    assert s == q + [s[|s| - 1]];
    assert Distinct(q);
    if x == s[|s| - 1] {
      assert x !in q;
    } else {
      DistinctOnce(q, x);
    }
  }

  /** Every record is counted in exactly one group: the group sizes add up to
      the number of records. */
  lemma {:induction false} GroupSizesTotal(es: seq<Entry>)
    ensures SumSizes(es, YearsOf(es)) == |es|
  {
    if es != [] {
      var p := es[..|es| - 1];
      var e := es[|es| - 1];
      var y := YearOf(e);
      LastSplit(es);
      GroupSizesTotal(p);
      SumSizesStep(p, e, YearsOf(p));
      if y in YearsOf(p) {
        YearsOfDistinct(p);
        DistinctOnce(YearsOf(p), y);
      } else {
        YearsOfMembers(p, y);
        var ys := YearsOf(p) + [y];
        assert ys[..|ys| - 1] == YearsOf(p);
        assert InYear(es, y) == InYear(p, y) + [e];
      }
    }
  }

  lemma {:induction false} SumSizesConcat(es: seq<Entry>, a: seq<string>, b: seq<string>)
    ensures SumSizes(es, a + b) == SumSizes(es, a) + SumSizes(es, b)
  {
    if b == [] {
      assert a + b == a;
    } else {
      var c := b[..|b| - 1];
      SumSizesConcat(es, a, c);
      assert (a + b)[..|a + b| - 1] == a + c;
    }
  }

  /** The total does not depend on the order of the years. */
  lemma {:induction false} SumSizesPermutation(es: seq<Entry>, a: seq<string>, b: seq<string>)
    requires multiset(a) == multiset(b)
    ensures SumSizes(es, a) == SumSizes(es, b)
    decreases |a|
  {
    if a != [] {
      var q := a[..|a| - 1];
      var z := a[|a| - 1];
      assert a == q + [z];
      assert z in multiset(b);
      var j :| 0 <= j < |b| && b[j] == z;
      var rest := b[..j] + b[j + 1..];
      RemoveAt(es, b, j);
      SumSizesPermutation(es, q, rest);
    }
  }

  /** Taking one year out of the list takes its group out of the total. */
  lemma RemoveAt(es: seq<Entry>, b: seq<string>, j: nat)
    requires j < |b|
    ensures multiset(b[..j] + b[j + 1..]) == multiset(b) - multiset{b[j]}
    ensures SumSizes(es, b) == SumSizes(es, b[..j] + b[j + 1..]) + |InYear(es, b[j])|
  {
    var front, rest := b[..j], b[j + 1..];
    var c := [b[j]] + rest;
    assert b == front + c;
    assert c[0] == b[j] && c[1..] == rest;
    assert multiset(b) == multiset(front) + multiset{b[j]} + multiset(rest);
    SumSizesConcat(es, front, c);
    SumSizesFront(es, c);
    SumSizesConcat(es, front, rest);
  }

  // ---------------------------------------------------------------- order of years

  /** `_year_sort_key`: `(0, -int(y))` for a year `int` accepts, `(1, y)` otherwise. */
  datatype YearKey = Numeric(value: nat) | Label(text: string)

  function KeyOf(y: string): YearKey {
    if IsDigits(y) then Numeric(DigitsValue(y)) else Label(y)
  }

  /** Tuple order on the keys: numeric years first, larger values earlier; then
      the other labels in string order. */
  predicate KeyLess(a: YearKey, b: YearKey) {
    match (a, b)
    case (Numeric(m), Numeric(n)) => m > n
    case (Numeric(_), Label(_)) => true
    case (Label(_), Numeric(_)) => false
    case (Label(s), Label(t)) => LexLess(s, t)
  }

  predicate YearLess(a: string, b: string) {
    KeyLess(KeyOf(a), KeyOf(b))
  }

  /** A year written by `str` from a number is numeric with that value; two such
      years sort larger first, and both sort before any label that is not a
      number, such as `Undated`. */
  lemma NumericYears(m: nat, n: nat, other: string)
    requires !IsDigits(other)
    ensures KeyOf(NatToString(n)) == Numeric(n)
    ensures YearLess(NatToString(m), NatToString(n)) <==> m > n
    ensures YearLess(NatToString(n), other) && !YearLess(other, NatToString(n))
  {
  }

  /** Neither `a < b` nor `b < c` rules out `a < c` on strings. */
  lemma LexNotLess(a: string, b: string, c: string)
    requires !LexLess(a, b) && !LexLess(b, c)
    ensures !LexLess(a, c)
  {
    if a != b && b != c {
      LexLessTotal(a, b);
      LexLessTotal(b, c);
      LexLessTransitive(c, b, a);
      LexAsymmetric(c, a);
    }
  }

  lemma LexAsymmetric(x: string, y: string)
    requires LexLess(x, y)
    ensures !LexLess(y, x)
  {
    LexLessIrreflexive(x);
    if LexLess(y, x) {
      LexLessTransitive(x, y, x);
    }
  }

  lemma KeyOrder()
    ensures StrictWeakOrder(KeyLess)
  {
    forall a: YearKey ensures !KeyLess(a, a) {
      if a.Label? { LexLessIrreflexive(a.text); }
    }
    forall a: YearKey, b: YearKey, c: YearKey | KeyLess(a, b) && KeyLess(b, c) ensures KeyLess(a, c) {
      if a.Label? && b.Label? && c.Label? { LexLessTransitive(a.text, b.text, c.text); }
    }
    forall a: YearKey, b: YearKey, c: YearKey | !KeyLess(a, b) && !KeyLess(b, c) ensures !KeyLess(a, c) {
      if a.Label? && b.Label? && c.Label? { LexNotLess(a.text, b.text, c.text); }
    }
  }

  /** The year order is a strict weak order, so `sorted` is well defined on it. */
  lemma YearOrder()
    ensures StrictWeakOrder(YearLess)
  {
    KeyOrder();
    forall a: string, b: string, c: string | YearLess(a, b) && YearLess(b, c) ensures YearLess(a, c) {
      assert KeyLess(KeyOf(a), KeyOf(b)) && KeyLess(KeyOf(b), KeyOf(c));
    }
    forall a: string, b: string, c: string | !YearLess(a, b) && !YearLess(b, c) ensures !YearLess(a, c) {
      assert !KeyLess(KeyOf(a), KeyOf(b)) && !KeyLess(KeyOf(b), KeyOf(c));
    }
  }

  /** `sorted(..., key=_year_sort_key)` on a list of years. */
  function SortYears(ys: seq<string>): (r: seq<string>)
    ensures multiset(r) == multiset(ys)
    ensures Sorted(r, YearLess)
  {
    YearOrder();
    Sort(ys, YearLess)
  }

  /** Line 134: the keys of the grouping, sorted. */
  function SortedYears(es: seq<Entry>): (ys: seq<string>) {
    SortYears(YearsOf(es))
  }

  /** The years shown are exactly the years of the records, each once. */
  lemma SortedYearsMembers(es: seq<Entry>, y: string)
    ensures y in SortedYears(es) <==> InYear(es, y) != []
    ensures multiset(SortedYears(es))[y] <= 1
  {
    var ys := YearsOf(es);
    assert y in SortedYears(es) <==> y in multiset(SortedYears(es));
    YearsOfMembers(es, y);
    YearsOfDistinct(es);
    if y in ys { DistinctOnce(ys, y); }
  }

  lemma SortedYearsDistinct(es: seq<Entry>)
    ensures Distinct(SortedYears(es))
  {
    var s := SortedYears(es);
    forall i, j | 0 <= i < j < |s| ensures s[i] != s[j] {
      CountedTwice(s, i, j);
      SortedYearsMembers(es, s[i]);
    }
  }

  /** Two equal elements at two positions count twice. */
  lemma CountedTwice<T>(s: seq<T>, i: nat, j: nat)
    requires i < j < |s|
    ensures s[i] == s[j] ==> multiset(s)[s[i]] >= 2
  {
    assert s == s[..j] + [s[j]] + s[j + 1..];
    assert s[i] in s[..j];
    assert multiset(s) == multiset(s[..j]) + multiset{s[j]} + multiset(s[j + 1..]);
  }

  /** Years `int` accepts come first, larger values earlier; the other years
      follow in string order. */
  lemma SortedYearsOrder(es: seq<Entry>)
    ensures var s := SortedYears(es);
            forall i, j :: 0 <= i < j < |s| ==>
              && (IsDigits(s[j]) ==> IsDigits(s[i]))
              && (IsDigits(s[i]) && IsDigits(s[j]) ==> DigitsValue(s[i]) >= DigitsValue(s[j]))
              && (!IsDigits(s[i]) && !IsDigits(s[j]) ==> !LexLess(s[j], s[i]))
  {
    var s := SortedYears(es);
    forall i, j | 0 <= i < j < |s| ensures !YearLess(s[j], s[i]) {
    }
  }

  // ---------------------------------------------------------------- order within a year

  /** Line 145: `key=lambda x: x.get('author', '')`. */
  predicate AuthorLess(a: Entry, b: Entry) {
    LexLess(Get(a, "author", ""), Get(b, "author", ""))
  }

  lemma AuthorOrder()
    ensures StrictWeakOrder(AuthorLess)
  {
    forall a: Entry ensures !AuthorLess(a, a) {
      LexLessIrreflexive(Get(a, "author", ""));
    }
    forall a: Entry, b: Entry, c: Entry | AuthorLess(a, b) && AuthorLess(b, c) ensures AuthorLess(a, c) {
      LexLessTransitive(Get(a, "author", ""), Get(b, "author", ""), Get(c, "author", ""));
    }
    forall a: Entry, b: Entry, c: Entry | !AuthorLess(a, b) && !AuthorLess(b, c) ensures !AuthorLess(a, c) {
      LexNotLess(Get(a, "author", ""), Get(b, "author", ""), Get(c, "author", ""));
    }
  }

  /** `sorted(papers, key=lambda x: x.get('author', ''))`. */
  function SortByAuthor(papers: seq<Entry>): (r: seq<Entry>)
    ensures multiset(r) == multiset(papers)
    ensures |r| == |papers|
    ensures Sorted(r, AuthorLess)
  {
    AuthorOrder();
    Sort(papers, AuthorLess)
  }

  /** The papers of one year, sorted by the raw author field. */
  function Papers(es: seq<Entry>, y: string): (papers: seq<Entry>)
    ensures |papers| == |InYear(es, y)|
  {
    SortByAuthor(InYear(es, y))
  }

  /** A year's papers are its records, sorted by the raw author field (a missing
      author sorting as the empty string). */
  lemma PapersOrder(es: seq<Entry>, y: string)
    ensures multiset(Papers(es, y)) == multiset(InYear(es, y))
    ensures var p := Papers(es, y);
            forall i, j :: 0 <= i < j < |p| ==> !LexLess(Get(p[j], "author", ""), Get(p[i], "author", ""))
  {
    var p := Papers(es, y);
    forall i, j | 0 <= i < j < |p| ensures !AuthorLess(p[j], p[i]) {
    }
  }

  // ---------------------------------------------------------------- numbering plan

  /** One `<h3>`/`<ol>` block: its year, the `start` it is given and its papers. */
  datatype Group = Group(year: string, start: int, papers: seq<Entry>)

  /** The loop at lines 140-193 with the counter as an accumulator: each group
      shows the papers `papersOf` gives its year and starts at the counter,
      which then drops by the group's size. */
  function PlanGroups(years: seq<string>, start: int, papersOf: string -> seq<Entry>): (plan: seq<Group>)
    ensures |plan| == |years|
    decreases |years|
  {
    if years == [] then []
    else
      var papers := papersOf(years[0]);
      [Group(years[0], start, papers)] + PlanGroups(years[1..], start - |papers|, papersOf)
  }

  /** Line 145 as a function value: the papers the page shows under a year. */
  function PapersOf(es: seq<Entry>): string -> seq<Entry> {
    y => Papers(es, y)
  }

  /** The plan of the page: the counter starts at the number of records. */
  function Plan(es: seq<Entry>): seq<Group> {
    PlanGroups(SortedYears(es), |es|, PapersOf(es))
  }

  /** The number of papers under `years`, counted from the front. */
  function Total(years: seq<string>, papersOf: string -> seq<Entry>): nat {
    if years == [] then 0 else |papersOf(years[0])| + Total(years[1..], papersOf)
  }

  /** Group `i` shows year `i` with its papers and starts at the initial counter
      minus the papers of the groups before it. */
  lemma {:induction false} PlanAt(years: seq<string>, start: int, papersOf: string -> seq<Entry>, i: nat)
    requires i < |years|
    ensures PlanGroups(years, start, papersOf)[i] ==
              Group(years[i], start - Total(years[..i], papersOf), papersOf(years[i]))
    decreases i
  {
    if i == 0 {
      assert years[..0] == [];
    } else {
      PlanAt(years[1..], start - |papersOf(years[0])|, papersOf, i - 1);
      assert years[..i][1..] == years[1..][..i - 1];
    }
  }

  /** On the page, the papers counted by `Total` are the groups' records. */
  lemma {:induction false} TotalIsSumSizes(es: seq<Entry>, years: seq<string>)
    ensures Total(years, PapersOf(es)) == SumSizes(es, years)
    decreases |years|
  {
    if years != [] {
      TotalIsSumSizes(es, years[1..]);
      SumSizesFront(es, years);
    }
  }

  /** Group `i` of the page shows the `i`-th year with that year's papers, and
      its list starts at the number of records minus the records of the groups
      before it. */
  lemma PlanStarts(es: seq<Entry>)
    ensures var plan := Plan(es);
            var years := SortedYears(es);
            forall i :: 0 <= i < |plan| ==>
              plan[i] == Group(years[i], |es| - SumSizes(es, years[..i]), Papers(es, years[i]))
  {
    var years := SortedYears(es);
    forall i | 0 <= i < |years|
      ensures Plan(es)[i] == Group(years[i], |es| - SumSizes(es, years[..i]), Papers(es, years[i]))
    {
      PlanAt(years, |es|, PapersOf(es), i);
      TotalIsSumSizes(es, years[..i]);
    }
  }

  /** The sizes summed from the front. */
  lemma SumSizesFront(es: seq<Entry>, ys: seq<string>)
    requires ys != []
    ensures SumSizes(es, ys) == |InYear(es, ys[0])| + SumSizes(es, ys[1..])
  {
    SumSizesConcat(es, [ys[0]], ys[1..]);
    assert [ys[0]] + ys[1..] == ys;
    assert [ys[0]][..0] == [];
  }

  /** `current_number` ends at zero: the groups together hold every record. */
  lemma CounterEndsAtZero(es: seq<Entry>)
    ensures |es| - SumSizes(es, SortedYears(es)) == 0
  {
    GroupSizesTotal(es);
    SumSizesPermutation(es, YearsOf(es), SortedYears(es));
  }

  /** `c, c - 1, ..., c - m + 1`: the numbers a reversed list starting at `c`
      gives its `m` items. */
  function Countdown(c: int, m: nat): (r: seq<int>)
    ensures |r| == m
    decreases m
  {
    if m == 0 then [] else [c] + Countdown(c - 1, m - 1)
  }

  lemma {:induction false} CountdownValues(c: int, m: nat)
    ensures forall i :: 0 <= i < m ==> Countdown(c, m)[i] == c - i
    decreases m
  {
    if m > 0 {
      CountdownValues(c - 1, m - 1);
    }
  }

  lemma {:induction false} CountdownConcat(c: int, m: nat, n: nat)
    ensures Countdown(c, m) + Countdown(c - m, n) == Countdown(c, m + n)
    decreases m
  {
    if m > 0 {
      CountdownConcat(c - 1, m - 1, n);
    }
  }

  /** The number every paper shows, in page order. */
  function Numbers(plan: seq<Group>): seq<int> {
    if plan == [] then [] else Countdown(plan[0].start, |plan[0].papers|) + Numbers(plan[1..])
  }

  /** The groups' numbers run on: together they count down from the first
      start, once per paper. */
  lemma {:induction false} NumbersOfPlan(years: seq<string>, start: int, papersOf: string -> seq<Entry>)
    ensures Numbers(PlanGroups(years, start, papersOf)) == Countdown(start, Total(years, papersOf))
    decreases |years|
  {
    if years != [] {
      var n := |papersOf(years[0])|;
      NumbersOfPlan(years[1..], start - n, papersOf);
      CountdownConcat(start, n, Total(years[1..], papersOf));
    }
  }

  /** Numbering covers 1..N exactly once: the papers on the page, read top to
      bottom, show N, N - 1, ..., 1. */
  lemma PageNumbering(es: seq<Entry>)
    ensures var ns := Numbers(Plan(es));
            |ns| == |es| && forall i :: 0 <= i < |ns| ==> ns[i] == |es| - i
  {
    NumbersOfPlan(SortedYears(es), |es|, PapersOf(es));
    TotalIsSumSizes(es, SortedYears(es));
    CounterEndsAtZero(es);
    CountdownValues(|es|, |es|);
  }

  // ---------------------------------------------------------------- rendering

  const HeaderOpen: string := "<h3 class=\"year-header\">"
  const HeaderClose: string := "</h3>"
  const ListOpenStart: string := "<ol class=\"publication-list\" reversed start=\""
  const ListOpenEnd: string := "\">"

  function YearHeader(year: string): string {
    HeaderOpen + year + HeaderClose
  }

  function ListOpen(start: int): string {
    ListOpenStart + IntToString(start) + ListOpenEnd
  }

  const ListClose: string := "</ol>"

  /** Line 190 as a function value: how the page renders one record. */
  function LineOf(nfc: Normalizer): Entry -> string {
    e => EntryLine(e, nfc)
  }

  /** One line per paper, in order. */
  function EntryLines(papers: seq<Entry>, line: Entry -> string): (lines: seq<string>)
    ensures |lines| == |papers|
  {
    if papers == [] then []
    else EntryLines(papers[..|papers| - 1], line) + [line(papers[|papers| - 1])]
  }

  /** Lines 141-192 for one group. */
  function GroupLines(g: Group, line: Entry -> string): (lines: seq<string>)
    ensures |lines| == |g.papers| + 3
  {
    [YearHeader(g.year), ListOpen(g.start)] + EntryLines(g.papers, line) + [ListClose]
  }

  function RenderPlan(plan: seq<Group>, line: Entry -> string): seq<string> {
    if plan == [] then [] else GroupLines(plan[0], line) + RenderPlan(plan[1..], line)
  }

  /** `html_lines` once every group is rendered. */
  function PageLines(es: seq<Entry>, nfc: Normalizer): seq<string> {
    RenderPlan(Plan(es), LineOf(nfc))
  }

  /** Every record gets a line, and each group adds a header, an opening and a
      closing tag. */
  lemma {:induction false} RenderedLineCount(plan: seq<Group>, line: Entry -> string)
    ensures |RenderPlan(plan, line)| == |Numbers(plan)| + 3 * |plan|
  {
    if plan != [] {
      RenderedLineCount(plan[1..], line);
    }
  }

  // ---------------------------------------------------------------- the loops

  /** Lines 124-126: `grouped_by_year` as a map with its keys in insertion order. */
  method GroupByYear(entries: seq<Entry>) returns (grouped: map<string, seq<Entry>>, years: seq<string>)
    ensures years == YearsOf(entries)
    ensures forall y :: y in grouped <==> y in years
    ensures forall y :: y in grouped ==> grouped[y] == InYear(entries, y)
  {
    grouped := map[];
    years := [];
    var i := 0;
    while i < |entries|
      invariant 0 <= i <= |entries|
      invariant years == YearsOf(entries[..i])
      invariant forall y :: y in grouped <==> y in years
      invariant forall y :: y in grouped ==> grouped[y] == InYear(entries[..i], y)
    {
      var e := entries[i];
      var y := YearOf(e);
      assert entries[..i + 1] == entries[..i] + [e];
      assert entries[..i + 1][..i] == entries[..i];
      if y in grouped {
        grouped := grouped[y := grouped[y] + [e]];
      } else {
        YearsOfMembers(entries[..i], y);
        grouped := grouped[y := [e]];
        years := years + [y];
      }
      i := i + 1;
    }
    assert entries[..i] == entries;
  }

  /** Line 138: the number of records over all groups. */
  method CountRecords(entries: seq<Entry>, grouped: map<string, seq<Entry>>, years: seq<string>) returns (total: nat)
    requires years == YearsOf(entries)
    requires forall y :: y in years ==> y in grouped && grouped[y] == InYear(entries, y)
    ensures total == |entries|
  {
    total := 0;
    var k := 0;
    while k < |years|
      invariant 0 <= k <= |years|
      invariant total == SumSizes(entries, years[..k])
    {
      assert years[..k + 1][..k] == years[..k];
      total := total + |grouped[years[k]]|;
      k := k + 1;
    }
    assert years[..k] == years;
    GroupSizesTotal(entries);
  }

  /** Lines 147-190: one line per paper, in order. */
  method RenderEntries(papers: seq<Entry>, line: Entry -> string) returns (lines: seq<string>)
    ensures lines == EntryLines(papers, line)
  {
    lines := [];
    var j := 0;
    while j < |papers|
      invariant 0 <= j <= |papers|
      invariant lines == EntryLines(papers[..j], line)
    {
      assert papers[..j + 1][..j] == papers[..j];
      lines := lines + [line(papers[j])];
      j := j + 1;
    }
    assert papers[..j] == papers;
  }

  /** Lines 140-193: for each year in order, the header, the list opening at
      the counter, the year's entry lines and the closing tag; the counter then
      drops by the size of the group. */
  method RenderGroups(sorted: seq<string>, grouped: map<string, seq<Entry>>, total: int,
                      papersOf: string -> seq<Entry>, line: Entry -> string) returns (lines: seq<string>)
    requires forall y :: y in sorted ==> y in grouped && SortByAuthor(grouped[y]) == papersOf(y)
    ensures lines == RenderPlan(PlanGroups(sorted, total, papersOf), line)
  {
    lines := [];
    var current := total;
    var g := 0;
    assert sorted[g..] == sorted;
    while g < |sorted|
      invariant 0 <= g <= |sorted|
      invariant lines + RenderPlan(PlanGroups(sorted[g..], current, papersOf), line)
                == RenderPlan(PlanGroups(sorted, total, papersOf), line)
    {
      var year := sorted[g];
      var papers := SortByAuthor(grouped[year]);
      assert papers == papersOf(year);
      var entryLines := RenderEntries(papers, line);
      var block := [YearHeader(year), ListOpen(current)] + entryLines + [ListClose];
      assert block == GroupLines(Group(year, current, papers), line);
      PlanStep(sorted, g, current, papersOf, line, lines, papers);
      lines := lines + block;
      current := current - |papers|;
      g := g + 1;
    }
    assert sorted[g..] == [];
    assert lines + [] == lines;
  }

  /** Lines 124-196: group the records, order the years, total the groups,
      render the groups with the list starts counting down from the total, and
      join the lines. */
  method GenerateContent(entries: seq<Entry>, nfc: Normalizer) returns (content: string)
    ensures content == JoinWith(PageLines(entries, nfc), "\n")
  {
    var grouped, years := GroupByYear(entries);
    var sorted := SortYears(years);
    var total := CountRecords(entries, grouped, years);
    forall y | y in sorted
      ensures y in grouped && SortByAuthor(grouped[y]) == PapersOf(entries)(y)
    {
      assert y in multiset(years);
    }
    var lines := RenderGroups(sorted, grouped, total, PapersOf(entries), LineOf(nfc));
    content := JoinWith(lines, "\n");
  }

  /** One turn of the loop over the years renders the next group of the plan. */
  lemma PlanStep(years: seq<string>, g: nat, current: int, papersOf: string -> seq<Entry>, line: Entry -> string,
                 lines: seq<string>, papers: seq<Entry>)
    requires g < |years| && papers == papersOf(years[g])
    ensures lines + RenderPlan(PlanGroups(years[g..], current, papersOf), line) ==
              (lines + GroupLines(Group(years[g], current, papers), line))
              + RenderPlan(PlanGroups(years[g + 1..], current - |papers|, papersOf), line)
  {
    var rest := years[g..];
    assert rest[0] == years[g] && rest[1..] == years[g + 1..];
    var head := Group(years[g], current, papers);
    var tail := PlanGroups(years[g + 1..], current - |papers|, papersOf);
    var plan := PlanGroups(rest, current, papersOf);
    assert plan == [head] + tail;
    assert plan[0] == head && plan[1..] == tail;
    assert RenderPlan(plan, line) == GroupLines(head, line) + RenderPlan(tail, line);
  }
}
