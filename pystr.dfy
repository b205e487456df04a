/** The handful of Python `str` operations the publication generator relies on,
    each written as an explicit scanner over `seq<char>`. */
module PyStr {

  datatype Option<T> = None | Some(value: T)

  /** The characters CPython treats as whitespace: `str.isspace()`, `str.strip()`
      with no argument, and the regular-expression class `\s` for `str` patterns. */
  const WhiteSpace: set<char> := {
    ' ', '\t', '\n', '\U{0B}', '\U{0C}', '\r', '\U{1C}', '\U{1D}', '\U{1E}', '\U{1F}',
    '\U{85}', '\U{A0}', '\U{1680}',
    '\U{2000}', '\U{2001}', '\U{2002}', '\U{2003}', '\U{2004}', '\U{2005}', '\U{2006}',
    '\U{2007}', '\U{2008}', '\U{2009}', '\U{200A}',
    '\U{2028}', '\U{2029}', '\U{202F}', '\U{205F}', '\U{3000}'
  }

  predicate IsSpace(c: char) {
    c in WhiteSpace
  }

  predicate StartsWith(s: string, prefix: string) {
    |prefix| <= |s| && s[..|prefix|] == prefix
  }

  /** `pat` occurs nowhere in `s`. */
  predicate NoOccurrence(s: string, pat: string) {
    forall i :: 0 <= i < |s| ==> !StartsWith(s[i..], pat)
  }

  /** No two consecutive characters of `s` are both `c`. */
  predicate NoPair(s: string, c: char) {
    forall i :: 0 <= i < |s| - 1 ==> !(s[i] == c && s[i + 1] == c)
  }

  // ---------------------------------------------------------------- strip

  /** `s.lstrip(chars)`: drop the leading characters satisfying `drop`. */
  function LStrip(s: string, drop: char -> bool): (r: string)
    ensures |r| <= |s|
    ensures r == [] || !drop(r[0])
  {
    if s != [] && drop(s[0]) then LStrip(s[1..], drop) else s
  }

  /** What `LStrip` keeps is a suffix of `s`. */
  lemma {:induction false} LStripSuffix(s: string, drop: char -> bool)
    ensures LStrip(s, drop) == s[|s| - |LStrip(s, drop)|..]
  {
    if s != [] && drop(s[0]) {
      LStripSuffix(s[1..], drop);
    }
  }

  /** Everything `LStrip` drops satisfies `drop`. */
  lemma {:induction false} LStripDropped(s: string, drop: char -> bool)
    ensures forall i :: 0 <= i < |s| - |LStrip(s, drop)| ==> drop(s[i])
  {
    if s != [] && drop(s[0]) {
      LStripDropped(s[1..], drop);
      forall i | 1 <= i < |s| - |LStrip(s, drop)| ensures drop(s[i]) {
        assert s[i] == s[1..][i - 1];
      }
    }
  }

  /** `s.rstrip(chars)`: drop the trailing characters satisfying `drop`. */
  function RStrip(s: string, drop: char -> bool): (r: string)
    ensures |r| <= |s|
    ensures r == [] || !drop(r[|r| - 1])
  {
    if s != [] && drop(s[|s| - 1]) then RStrip(s[..|s| - 1], drop) else s
  }

  /** What `RStrip` keeps is a prefix of `s`. */
  lemma {:induction false} RStripPrefix(s: string, drop: char -> bool)
    ensures RStrip(s, drop) == s[..|RStrip(s, drop)|]
  {
    if s != [] && drop(s[|s| - 1]) {
      RStripPrefix(s[..|s| - 1], drop);
    }
  }

  /** Everything `RStrip` drops satisfies `drop`. */
  lemma {:induction false} RStripDropped(s: string, drop: char -> bool)
    ensures forall i :: |RStrip(s, drop)| <= i < |s| ==> drop(s[i])
  {
    if s != [] && drop(s[|s| - 1]) {
      RStripDropped(s[..|s| - 1], drop);
      forall i | |RStrip(s, drop)| <= i < |s| - 1 ensures drop(s[i]) {
        assert s[i] == s[..|s| - 1][i];
      }
    }
  }

  /** `s.strip(chars)`: the window of `s` left after dropping both ends. */
  function Strip(s: string, drop: char -> bool): (r: string)
    ensures r == [] || (!drop(r[0]) && !drop(r[|r| - 1]))
    ensures (s == [] || (!drop(s[0]) && !drop(s[|s| - 1]))) ==> r == s
  {
    var l := LStrip(s, drop);
    assert s != [] && !drop(s[0]) ==> l == s;
    RStripPrefix(l, drop);
    RStrip(l, drop)
  }

  /** `strip` leaves a contiguous window of `s` and drops only characters
      satisfying `drop` on either side of it. */
  lemma StripWindow(s: string, drop: char -> bool)
    ensures var r := Strip(s, drop);
            var a := |s| - |LStrip(s, drop)|;
            && a + |r| <= |s| && r == s[a..a + |r|]
            && (forall i :: 0 <= i < a ==> drop(s[i]))
            && (forall i :: a + |r| <= i < |s| ==> drop(s[i]))
  {
    var l := LStrip(s, drop);
    var a := |s| - |l|;
    LStripSuffix(s, drop);
    RStripPrefix(l, drop);
    LStripDropped(s, drop);
    RStripDropped(l, drop);
    forall i | a + |RStrip(l, drop)| <= i < |s| ensures drop(s[i]) {
      assert s[i] == l[i - a];
    }
  }

  /** `strip` gives the empty string exactly when every character is dropped. */
  lemma StripEmpty(s: string, drop: char -> bool)
    ensures Strip(s, drop) == [] <==> forall i :: 0 <= i < |s| ==> drop(s[i])
  {
    StripWindow(s, drop);
  }

  /** The no-argument `strip()`. */
  function Trim(s: string): string {
    Strip(s, IsSpace)
  }

  // ---------------------------------------------------------------- replace

  /** `s.replace(pat, rep)` (also `re.sub` with a literal pattern): scan left to
      right, replacing each non-overlapping occurrence of `pat`. */
  function ReplaceAll(s: string, pat: string, rep: string): string
    requires pat != []
    decreases |s|
  {
    if s == [] then []
    else if StartsWith(s, pat) then rep + ReplaceAll(s[|pat|..], pat, rep)
    else [s[0]] + ReplaceAll(s[1..], pat, rep)
  }

  /** Where `pat` does not occur, replacing it changes nothing. */
  lemma {:induction false} ReplaceAllNoMatch(s: string, pat: string, rep: string)
    requires pat != [] && NoOccurrence(s, pat)
    ensures ReplaceAll(s, pat, rep) == s
    decreases |s|
  {
    if s != [] {
      assert s[0..] == s;
      assert NoOccurrence(s[1..], pat) by {
        forall i | 0 <= i < |s| - 1 ensures s[1..][i..] == s[i + 1..] { }
      }
      ReplaceAllNoMatch(s[1..], pat, rep);
    }
  }

  /** A prefix that cannot start `pat` passes through untouched. */
  lemma {:induction false} ReplaceAllSkipsPrefix(a: string, t: string, pat: string, rep: string)
    requires pat != [] && pat[0] !in a
    ensures ReplaceAll(a + t, pat, rep) == a + ReplaceAll(t, pat, rep)
    decreases |a|
  {
    var u := a + t;
    if a != [] {
      assert u[0] == a[0] && a[0] != pat[0];
      assert !StartsWith(u, pat);
      assert u[1..] == a[1..] + t;
      calc {
        ReplaceAll(u, pat, rep);
        [u[0]] + ReplaceAll(u[1..], pat, rep);
        { ReplaceAllSkipsPrefix(a[1..], t, pat, rep); }
        [a[0]] + (a[1..] + ReplaceAll(t, pat, rep));
        a + ReplaceAll(t, pat, rep);
      }
    } else {
      assert u == t;
    }
  }

  /** A prefix at none of whose positions `pat` starts (in the whole text, so
      also not straddling into what follows) passes through untouched. */
  lemma {:induction false} ReplaceAllSkipsClean(a: string, t: string, pat: string, rep: string)
    requires pat != []
    requires forall i :: 0 <= i < |a| ==> !StartsWith((a + t)[i..], pat)
    ensures ReplaceAll(a + t, pat, rep) == a + ReplaceAll(t, pat, rep)
    decreases |a|
  {
    var u := a + t;
    if a != [] {
      assert u[0..] == u;
      assert u[1..] == a[1..] + t;
      forall i | 0 <= i < |a[1..]| ensures !StartsWith((a[1..] + t)[i..], pat) {
        assert (a[1..] + t)[i..] == u[i + 1..];
      }
      ReplaceAllSkipsClean(a[1..], t, pat, rep);
      assert ReplaceAll(u, pat, rep) == [a[0]] + (a[1..] + ReplaceAll(t, pat, rep));
    } else {
      assert u == t;
    }
  }

  /** An occurrence at the front is replaced and scanning resumes after it. */
  lemma ReplaceAllAtMatch(t: string, pat: string, rep: string)
    requires pat != []
    ensures ReplaceAll(pat + t, pat, rep) == rep + ReplaceAll(t, pat, rep)
  {
    assert (pat + t)[..|pat|] == pat;
    assert (pat + t)[|pat|..] == t;
  }

  /** Replacing never introduces a character that is in neither `s` nor `rep`. */
  lemma {:induction false} ReplaceAllNoNewChar(s: string, pat: string, rep: string, c: char)
    requires pat != [] && c !in s && c !in rep
    ensures c !in ReplaceAll(s, pat, rep)
    decreases |s|
  {
    if s != [] {
      if StartsWith(s, pat) {
        ReplaceAllNoNewChar(s[|pat|..], pat, rep, c);
      } else {
        ReplaceAllNoNewChar(s[1..], pat, rep, c);
      }
    }
  }

  /** The first character of a replacement result comes from `s` or from `rep`. */
  lemma ReplaceAllHead(s: string, pat: string, rep: string)
    requires pat != [] && rep != []
    ensures var r := ReplaceAll(s, pat, rep);
            (r == [] <==> s == []) && (r != [] ==> r[0] == (if StartsWith(s, pat) then rep[0] else s[0]))
  {
  }

  /** If every `cc` pair of `s` is the start of an occurrence of `pat`, and the
      replacement holds no `c`, then no `cc` pair survives the replacement. */
  lemma {:induction false} ReplaceAllNoPair(s: string, pat: string, rep: string, c: char)
    requires pat != [] && rep != [] && c !in rep
    requires forall i :: 0 <= i < |s| - 1 && s[i] == c && s[i + 1] == c ==> StartsWith(s[i..], pat)
    ensures NoPair(ReplaceAll(s, pat, rep), c)
    decreases |s|
  {
    if s == [] {
    } else if StartsWith(s, pat) {
      var t := s[|pat|..];
      forall i | 0 <= i < |t| - 1 && t[i] == c && t[i + 1] == c ensures StartsWith(t[i..], pat) {
        assert t[i..] == s[i + |pat|..];
      }
      ReplaceAllNoPair(t, pat, rep, c);
      ReplaceAllHead(t, pat, rep);
      var r := ReplaceAll(t, pat, rep);
      assert ReplaceAll(s, pat, rep) == rep + r;
      forall i | 0 <= i < |rep + r| - 1 ensures !((rep + r)[i] == c && (rep + r)[i + 1] == c) {
        if i < |rep| { assert (rep + r)[i] == rep[i]; }
        else { assert (rep + r)[i] == r[i - |rep|] && (rep + r)[i + 1] == r[i - |rep| + 1]; }
      }
    } else {
      var t := s[1..];
      forall i | 0 <= i < |t| - 1 && t[i] == c && t[i + 1] == c ensures StartsWith(t[i..], pat) {
        assert t[i..] == s[i + 1..];
      }
      ReplaceAllNoPair(t, pat, rep, c);
      ReplaceAllHead(t, pat, rep);
      var r := ReplaceAll(t, pat, rep);
      assert ReplaceAll(s, pat, rep) == [s[0]] + r;
      assert s[0..] == s;
      assert |s| > 1 ==> !(s[0] == c && s[1] == c);
      assert r != [] && !StartsWith(t, pat) ==> r[0] == s[1];
      forall i | 0 <= i < |[s[0]] + r| - 1 ensures !(([s[0]] + r)[i] == c && ([s[0]] + r)[i + 1] == c) {
        if i > 0 { assert ([s[0]] + r)[i] == r[i - 1] && ([s[0]] + r)[i + 1] == r[i]; }
      }
    }
  }

  /** A `cc`-free string stays `cc`-free under a replacement holding no `c`. */
  lemma ReplaceAllKeepsNoPair(s: string, pat: string, rep: string, c: char)
    requires pat != [] && rep != [] && c !in rep && NoPair(s, c)
    ensures NoPair(ReplaceAll(s, pat, rep), c)
  {
    ReplaceAllNoPair(s, pat, rep, c);
  }

  /** Applies `(pattern, replacement)` pairs in table order, as a fold of `replace`. */
  function ReplaceTable(s: string, table: seq<(string, string)>): string
    requires forall k :: 0 <= k < |table| ==> table[k].0 != []
    decreases |table|
  {
    if table == [] then s
    else ReplaceTable(ReplaceAll(s, table[0].0, table[0].1), table[1..])
  }

  /** `s.replace(c, '')` deletes exactly the occurrences of `c`. */
  lemma {:induction false} ReplaceAllDeletesChar(s: string, c: char)
    ensures forall d :: d in ReplaceAll(s, [c], []) <==> d in s && d != c
    decreases |s|
  {
    if s != [] {
      ReplaceAllDeletesChar(s[1..], c);
      assert s == [s[0]] + s[1..];
      if s[0] == c {
        assert StartsWith(s, [c]);
        assert ReplaceAll(s, [c], []) == ReplaceAll(s[1..], [c], []);
      } else {
        assert !StartsWith(s, [c]);
      }
    }
  }

  /** A table of replacements never introduces a character that is in neither
      `s` nor any replacement text. */
  lemma {:induction false} ReplaceTableNoNewChar(s: string, table: seq<(string, string)>, c: char)
    requires forall k :: 0 <= k < |table| ==> table[k].0 != [] && c !in table[k].1
    requires c !in s
    ensures c !in ReplaceTable(s, table)
    decreases |table|
  {
    if table != [] {
      ReplaceAllNoNewChar(s, table[0].0, table[0].1, c);
      ReplaceTableNoNewChar(ReplaceAll(s, table[0].0, table[0].1), table[1..], c);
    }
  }

  /** Leading table entries whose patterns do not occur are skipped. */
  lemma {:induction false} ReplaceTableSkip(s: string, table: seq<(string, string)>, n: nat)
    requires n <= |table|
    requires forall k :: 0 <= k < |table| ==> table[k].0 != []
    requires forall k :: 0 <= k < n ==> NoOccurrence(s, table[k].0)
    ensures ReplaceTable(s, table) == ReplaceTable(s, table[n..])
    decreases n
  {
    if n > 0 {
      ReplaceAllNoMatch(s, table[0].0, table[0].1);
      ReplaceTableSkip(s, table[1..], n - 1);
      assert table[1..][n - 1..] == table[n..];
    }
  }

  /** Where no pattern of the table occurs, the table changes nothing. */
  lemma ReplaceTableNoMatch(s: string, table: seq<(string, string)>)
    requires forall k :: 0 <= k < |table| ==> table[k].0 != [] && NoOccurrence(s, table[k].0)
    ensures ReplaceTable(s, table) == s
  {
    ReplaceTableSkip(s, table, |table|);
    assert table[|table|..] == [];
  }

  /** A string whose first character is not the first character of `pat` does not start with it. */
  lemma FirstCharMismatch(s: string, pat: string)
    requires pat != [] && (s == [] || s[0] != pat[0])
    ensures !StartsWith(s, pat)
  {
    if |pat| <= |s| { assert s[..|pat|][0] == s[0]; }
  }

  /** A pattern whose first character is absent from `s` occurs nowhere in it. */
  lemma AbsentHeadNoOccurrence(s: string, pat: string)
    requires pat != [] && pat[0] !in s
    ensures NoOccurrence(s, pat)
  {
    forall i | 0 <= i < |s| ensures !StartsWith(s[i..], pat) {
      FirstCharMismatch(s[i..], pat);
    }
  }

  // ---------------------------------------------------------------- split / join

  /** `p.split(",", 1)` when `p` holds a comma: the text before the first comma and the rest. */
  function SplitFirst(p: string, sep: char): (parts: (string, string))
    requires sep in p
    ensures p == parts.0 + [sep] + parts.1
    ensures sep !in parts.0
  {
    if p[0] == sep then ([], p[1..])
    else
      var rest := SplitFirst(p[1..], sep);
      assert p == [p[0]] + p[1..];
      ([p[0]] + rest.0, rest.1)
  }

  /** `sep.join(parts)`. */
  function JoinWith(parts: seq<string>, sep: string): (r: string)
    ensures |parts| == 1 ==> r == parts[0]
    ensures parts == [] ==> r == []
  {
    if parts == [] then []
    else if |parts| == 1 then parts[0]
    else parts[0] + sep + JoinWith(parts[1..], sep)
  }

  /** A character in neither the separator nor any part is not in the join. */
  lemma {:induction false} JoinWithAvoids(parts: seq<string>, sep: string, c: char)
    requires c !in sep && forall k :: 0 <= k < |parts| ==> c !in parts[k]
    ensures c !in JoinWith(parts, sep)
  {
    if |parts| > 1 {
      JoinWithAvoids(parts[1..], sep, c);
    }
  }

  // ---------------------------------------------------------------- case, order, numbers

  function LowerAscii(c: char): char {
    if 'A' <= c <= 'Z' then (c as int + 32) as char else c
  }

  /** `s.lower() == lit` for a lower-case ASCII literal `lit`. No character outside
      ASCII lower-cases to a single ASCII letter other than the Kelvin sign (to `k`),
      so comparing through `LowerAscii` decides the same question for the
      literals used here. */
  predicate EqualsIgnoreCase(s: string, lit: string) {
    |s| == |lit| && forall i :: 0 <= i < |s| ==> LowerAscii(s[i]) == lit[i]
  }

  /** `s.lower().startswith(lit)` for a lower-case ASCII literal `lit`. */
  predicate StartsWithIgnoreCase(s: string, lit: string) {
    |lit| <= |s| && EqualsIgnoreCase(s[..|lit|], lit)
  }

  /** Python's `a < b` on `str`: code point by code point, a proper prefix first. */
  predicate LexLess(a: string, b: string) {
    if a == [] then b != []
    else if b == [] then false
    else if a[0] != b[0] then a[0] < b[0]
    else LexLess(a[1..], b[1..])
  }

  lemma {:induction false} LexLessIrreflexive(a: string)
    ensures !LexLess(a, a)
  {
    if a != [] { LexLessIrreflexive(a[1..]); }
  }

  lemma {:induction false} LexLessTransitive(a: string, b: string, c: string)
    requires LexLess(a, b) && LexLess(b, c)
    ensures LexLess(a, c)
  {
    if a != [] && b != [] && c != [] && a[0] == b[0] && b[0] == c[0] {
      LexLessTransitive(a[1..], b[1..], c[1..]);
    }
  }

  /** Distinct strings are always ordered one way or the other. */
  lemma {:induction false} LexLessTotal(a: string, b: string)
    requires a != b
    ensures LexLess(a, b) || LexLess(b, a)
  {
    if a != [] && b != [] && a[0] == b[0] {
      assert a == [a[0]] + a[1..] && b == [b[0]] + b[1..];
      LexLessTotal(a[1..], b[1..]);
    }
  }

  predicate IsDigit(c: char) { '0' <= c <= '9' }

  /** What `int(y)` accepts, simplified to a non-empty run of ASCII digits. */
  predicate IsDigits(s: string) {
    s != [] && forall i :: 0 <= i < |s| ==> IsDigit(s[i])
  }

  /** The decimal value of a run of digits (leading zeros allowed, as `int` allows). */
  function DigitsValue(s: string): nat
    requires forall i :: 0 <= i < |s| ==> IsDigit(s[i])
  {
    assert s != [] ==> IsDigit(s[|s| - 1]);
    if s == [] then 0
    else DigitsValue(s[..|s| - 1]) * 10 + (s[|s| - 1] as int - '0' as int)
  }

  /** `str(n)` for a natural number. */
  function NatToString(n: nat): (r: string)
    ensures IsDigits(r)
    ensures DigitsValue(r) == n
    ensures r[0] == '0' ==> r == "0"
  {
    if n < 10 then [('0' as int + n) as char]
    else
      var r := NatToString(n / 10) + [('0' as int + n % 10) as char];
      assert r[..|r| - 1] == NatToString(n / 10);
      r
  }

  /** `str(i)` for any integer. */
  function IntToString(i: int): (r: string)
    ensures i >= 0 ==> IsDigits(r) && DigitsValue(r) == i
    ensures i < 0 ==> |r| > 1 && r[0] == '-' && IsDigits(r[1..]) && DigitsValue(r[1..]) == -i
  {
    if i < 0 then "-" + NatToString(-i) else NatToString(i)
  }
}
