/** `format_authors`: turns a raw BibTeX author list into the comma-separated,
    HTML-escaped display string. Line numbers in the comments below refer to
    scripts/bib_to_html.py. */
module Authors {
  import opened PyStr
  import opened Latex
  import HtmlEscape

  const NoAuthor: string := "No author specified"

  // ---------------------------------------------------------------- splitting on `and`

  /** The number of whitespace characters in `s` from position `i` on. */
  function SpaceRun(s: string, i: nat): (n: nat)
    requires i <= |s|
    ensures i + n <= |s|
    ensures i + n == |s| || !IsSpace(s[i + n])
    decreases |s| - i
  {
    if i < |s| && IsSpace(s[i]) then 1 + SpaceRun(s, i + 1) else 0
  }

  /** Everything the run counts is whitespace, so the run is the longest one. */
  lemma {:induction false} SpaceRunSpaces(s: string, i: nat)
    requires i <= |s|
    ensures forall j :: i <= j < i + SpaceRun(s, i) ==> IsSpace(s[j])
    decreases |s| - i
  {
    if i < |s| && IsSpace(s[i]) {
      SpaceRunSpaces(s, i + 1);
    }
  }

  /** `s[j..j + 3]` is `and` in any letter case. */
  predicate AndAt(s: string, j: nat) {
    j + 3 <= |s| && LowerAscii(s[j]) == 'a' && LowerAscii(s[j + 1]) == 'n' && LowerAscii(s[j + 2]) == 'd'
  }

  /** The length of the match of `\s+and\s+` (case-insensitive, greedy) at
      position `i` of `s`, if it matches there. */
  function SeparatorAt(s: string, i: nat): (r: Option<nat>)
    requires i <= |s|
    ensures r.Some? ==> 0 < r.value <= |s| - i
  {
    var k := SpaceRun(s, i);
    if k == 0 || !AndAt(s, i + k) then None
    else
      var m := SpaceRun(s, i + k + 3);
      if m == 0 then None else Some(k + 3 + m)
  }

  /** A separator is found when whitespace, `and` and whitespace follow each other. */
  lemma SeparatorFromParts(s: string, i: nat)
    requires i <= |s| && SpaceRun(s, i) > 0 && AndAt(s, i + SpaceRun(s, i))
    requires SpaceRun(s, i + SpaceRun(s, i) + 3) > 0
    ensures SeparatorAt(s, i) == Some(SpaceRun(s, i) + 3 + SpaceRun(s, i + SpaceRun(s, i) + 3))
  {
  }

  /** No separator match starts anywhere in `p`. */
  predicate NoSeparator(p: string) {
    forall i :: 0 <= i < |p| ==> SeparatorAt(p, i).None?
  }

  /** A whitespace run in `p + q` is the run in `p`, continued into `q` when it
      reaches the end of `p`. */
  lemma {:induction false} SpaceRunAppend(p: string, q: string, i: nat)
    requires i <= |p|
    ensures SpaceRun(p + q, i) == SpaceRun(p, i) + (if i + SpaceRun(p, i) == |p| then SpaceRun(q, 0) else 0)
    decreases |p| - i
  {
    var pq := p + q;
    if i < |p| {
      assert pq[i] == p[i];
      if IsSpace(p[i]) {
        SpaceRunAppend(p, q, i + 1);
      }
    } else {
      SpaceRunShift(p, q, 0);
    }
  }

  /** A whitespace run inside `q` is the same in `p + q`. */
  lemma {:induction false} SpaceRunShift(p: string, q: string, i: nat)
    requires i <= |q|
    ensures SpaceRun(p + q, |p| + i) == SpaceRun(q, i)
    decreases |q| - i
  {
    var pq := p + q;
    if i < |q| {
      assert pq[|p| + i] == q[i];
      if IsSpace(q[i]) {
        SpaceRunShift(p, q, i + 1);
      }
    }
  }

  /** A separator match inside `q` is the same in `p + q`. */
  lemma AndShift(p: string, q: string, j: nat)
    requires j <= |q|
    ensures AndAt(p + q, |p| + j) == AndAt(q, j)
  {
    if j + 3 <= |q| {
      var pq := p + q;
      assert pq[|p| + j] == q[j] && pq[|p| + j + 1] == q[j + 1] && pq[|p| + j + 2] == q[j + 2];
    }
  }

  lemma SeparatorShift(p: string, q: string, i: nat)
    requires i <= |q|
    ensures SeparatorAt(p + q, |p| + i) == SeparatorAt(q, i)
  {
    SpaceRunShift(p, q, i);
    var k := SpaceRun(q, i);
    AndShift(p, q, i + k);
    if k > 0 && AndAt(q, i + k) {
      SpaceRunShift(p, q, i + k + 3);
    }
  }

  /** A separator found in `p` is still found when text follows `p`. */
  lemma SeparatorExtends(p: string, q: string, i: nat)
    requires i <= |p| && SeparatorAt(p, i).Some?
    ensures SeparatorAt(p + q, i).Some?
  {
    var pq := p + q;
    SpaceRunAppend(p, q, i);
    var k := SpaceRun(p, i);
    SpaceRunAppend(p, q, i + k + 3);
  }

  /** Putting a character that starts no separator before a part that holds
      none gives a part that holds none. */
  lemma ExtendFirstPart(s: string, r0: string)
    requires s != [] && SeparatorAt(s, 0).None? && StartsWith(s[1..], r0) && NoSeparator(r0)
    ensures StartsWith(s, [s[0]] + r0)
    ensures NoSeparator([s[0]] + r0)
  {
    var first := [s[0]] + r0;
    assert s[..|first|] == first by {
      assert s[1..][..|r0|] == r0;
    }
    forall i | 0 <= i < |first| ensures SeparatorAt(first, i).None? {
      if i == 0 {
        assert first + s[|first|..] == s;
        if SeparatorAt(first, 0).Some? {
          SeparatorExtends(first, s[|first|..], 0);
        }
      } else {
        SeparatorShift([s[0]], r0, i - 1);
      }
    }
  }

  /** `re.split(r"\s+and\s+", s, flags=re.IGNORECASE)`: scanning left to right,
      the text between separator matches. */
  function SplitAnd(s: string): (parts: seq<string>)
    ensures |parts| >= 1
    ensures StartsWith(s, parts[0])
    decreases |s|
  {
    if s == [] then [[]]
    else match SeparatorAt(s, 0)
      case Some(n) => [[]] + SplitAnd(s[n..])
      case None =>
        var rest := SplitAnd(s[1..]);
        assert s[..|rest[0]| + 1] == [s[0]] + rest[0] by {
          assert s[1..][..|rest[0]|] == rest[0];
        }
        [[s[0]] + rest[0]] + rest[1..]
  }

  /** No part holds a separator: the split is as fine as the separators allow. */
  lemma {:induction false} SplitAndNoSeparator(s: string)
    ensures forall k :: 0 <= k < |SplitAnd(s)| ==> NoSeparator(SplitAnd(s)[k])
    decreases |s|
  {
    if s != [] {
      match SeparatorAt(s, 0)
      case Some(n) =>
        SplitAndNoSeparator(s[n..]);
        var parts := SplitAnd(s);
        forall k | 0 <= k < |parts| ensures NoSeparator(parts[k]) {
          if k > 0 { assert parts[k] == SplitAnd(s[n..])[k - 1]; }
        }
      case None =>
        SplitAndNoSeparator(s[1..]);
        var rest := SplitAnd(s[1..]);
        ExtendFirstPart(s, rest[0]);
        var parts := SplitAnd(s);
        forall k | 0 <= k < |parts| ensures NoSeparator(parts[k]) {
          if k > 0 { assert parts[k] == rest[k]; }
        }
    }
  }

  /** The separator texts `re.split` drops, in order. */
  function Separators(s: string): seq<string>
    decreases |s|
  {
    if s == [] then []
    else match SeparatorAt(s, 0)
      case Some(n) => [s[..n]] + Separators(s[n..])
      case None => Separators(s[1..])
  }

  /** Puts the parts back together with the separators between them. */
  function Rejoin(parts: seq<string>, seps: seq<string>): string
    requires |parts| == |seps| + 1
  {
    if seps == [] then parts[0] else parts[0] + seps[0] + Rejoin(parts[1..], seps[1..])
  }

  /** The matched separator text, taken on its own, matches in full. */
  lemma SeparatorIsWhole(s: string, n: nat)
    requires SeparatorAt(s, 0) == Some(n)
    ensures SeparatorAt(s[..n], 0) == Some(n)
  {
    var t := s[..n];
    assert s == t + s[n..];
    SpaceRunAppend(t, s[n..], 0);
    var k := SpaceRun(s, 0);
    assert t[k] == s[k] && t[k + 1] == s[k + 1] && t[k + 2] == s[k + 2];
    assert AndAt(t, k);
    assert SpaceRun(t, 0) == k;
    SpaceRunAppend(t, s[n..], k + 3);
    SeparatorFromParts(t, 0);
  }

  /** Splitting loses nothing: the parts and the separators, interleaved, give
      back the input. */
  lemma {:induction false} SplitRejoin(s: string)
    ensures |SplitAnd(s)| == |Separators(s)| + 1
    ensures Rejoin(SplitAnd(s), Separators(s)) == s
    decreases |s|
  {
    if s != [] {
      match SeparatorAt(s, 0)
      case Some(n) =>
        SplitRejoin(s[n..]);
        RejoinSeparated(s, n);
      case None =>
        SplitRejoin(s[1..]);
        RejoinFirst(s, SplitAnd(s[1..]), Separators(s[1..]));
    }
  }

  lemma RejoinSeparated(s: string, n: nat)
    requires SeparatorAt(s, 0) == Some(n)
    requires |SplitAnd(s[n..])| == |Separators(s[n..])| + 1
    requires Rejoin(SplitAnd(s[n..]), Separators(s[n..])) == s[n..]
    ensures |SplitAnd(s)| == |Separators(s)| + 1
    ensures Rejoin(SplitAnd(s), Separators(s)) == s
  {
    var parts := SplitAnd(s[n..]);
    var seps := Separators(s[n..]);
    assert SplitAnd(s) == [[]] + parts;
    assert Separators(s) == [s[..n]] + seps;
    assert ([[]] + parts)[1..] == parts;
    assert ([s[..n]] + seps)[1..] == seps;
    calc {
      Rejoin(SplitAnd(s), Separators(s));
      [] + s[..n] + Rejoin(parts, seps);
      s[..n] + s[n..];
      s;
    }
  }

  /** Each separator `re.split` drops is a whole `\s+and\s+` match. */
  lemma {:induction false} SeparatorsWhole(s: string)
    ensures forall k :: 0 <= k < |Separators(s)| ==> SeparatorAt(Separators(s)[k], 0) == Some(|Separators(s)[k]|)
    decreases |s|
  {
    if s != [] {
      match SeparatorAt(s, 0)
      case Some(n) =>
        SeparatorsWhole(s[n..]);
        SeparatorIsWhole(s, n);
      case None =>
        SeparatorsWhole(s[1..]);
    }
  }

  lemma RejoinPrepend(c: string, parts: seq<string>, seps: seq<string>)
    requires |parts| == |seps| + 1
    ensures Rejoin([c + parts[0]] + parts[1..], seps) == c + Rejoin(parts, seps)
  {
    var q := [c + parts[0]] + parts[1..];
    assert q[0] == c + parts[0];
    if seps != [] {
      assert q[1..] == parts[1..];
      var tail := seps[0] + Rejoin(parts[1..], seps[1..]);
      assert Rejoin(q, seps) == (c + parts[0]) + tail;
      assert Rejoin(parts, seps) == parts[0] + tail;
      assert (c + parts[0]) + tail == c + (parts[0] + tail);
    }
  }

  lemma RejoinFirst(s: string, rest: seq<string>, seps: seq<string>)
    requires s != [] && |rest| == |seps| + 1 && Rejoin(rest, seps) == s[1..]
    ensures Rejoin([[s[0]] + rest[0]] + rest[1..], seps) == s
  {
    RejoinPrepend([s[0]], rest, seps);
    assert [s[0]] + s[1..] == s;
  }

  /** Text with no separator in its first `|a|` positions stays in the first part. */
  lemma {:induction false} SplitKeepsPrefix(a: string, t: string)
    requires forall i :: 0 <= i < |a| ==> SeparatorAt(a + t, i).None?
    ensures SplitAnd(a + t) == [a + SplitAnd(t)[0]] + SplitAnd(t)[1..]
    decreases |a|
  {
    if a == [] {
      assert a + t == t;
      var r := SplitAnd(t);
      assert a + r[0] == r[0];
      assert r == [r[0]] + r[1..];
    } else {
      var s := a + t;
      var u := a[1..] + t;
      assert s == [a[0]] + u;
      assert s[1..] == u;
      forall i | 0 <= i < |a[1..]| ensures SeparatorAt(u, i).None? {
        SeparatorShift([a[0]], u, i);
      }
      SplitKeepsPrefix(a[1..], t);
      assert SeparatorAt(s, 0).None?;
      var rest := SplitAnd(u);
      assert SplitAnd(s) == [[s[0]] + rest[0]] + rest[1..];
      assert [s[0]] + rest[0] == a + SplitAnd(t)[0] by {
        assert a == [a[0]] + a[1..];
      }
    }
  }

  /** The split is leftmost-first, as `re.split` scans: when no separator match
      starts inside `p` (in the whole input, so none straddles into `t`) and one
      starts where `t` begins, `p` is the first part and the other parts are the
      split of what follows that match. */
  lemma SplitAtLeftmost(p: string, t: string, n: nat)
    requires forall i :: 0 <= i < |p| ==> SeparatorAt(p + t, i).None?
    requires SeparatorAt(t, 0) == Some(n)
    ensures SplitAnd(p + t) == [p] + SplitAnd(t[n..])
  {
    SplitKeepsPrefix(p, t);
    assert SplitAnd(t) == [[]] + SplitAnd(t[n..]);
    assert p + [] == p;
  }

  /** Text without a separator is one part. */
  lemma SplitWhole(s: string)
    requires NoSeparator(s)
    ensures SplitAnd(s) == [s]
  {
    assert s + [] == s;
    SplitKeepsPrefix(s, []);
  }

  /** A position whose character is not whitespace starts no separator. */
  lemma NoSeparatorAtNonSpace(s: string, i: nat)
    requires i < |s| && !IsSpace(s[i])
    ensures SeparatorAt(s, i).None?
  {
  }

  /** A single space not followed by `and` and whitespace starts no separator. */
  lemma NoSeparatorAtSpace(s: string, i: nat)
    requires i + 5 <= |s| && IsSpace(s[i]) && !IsSpace(s[i + 1])
    requires !AndAt(s, i + 1) || !IsSpace(s[i + 4])
    ensures SeparatorAt(s, i).None?
  {
    assert SpaceRun(s, i + 1) == 0;
  }

  /** Before a single space, a separator match that starts inside `a` (which
      does not end in whitespace) already matches in `a + " "`. */
  lemma SeparatorInPrefix(a: string, u: string, i: nat)
    requires a != [] && !IsSpace(a[|a| - 1]) && u != [] && u[0] == ' '
    requires i < |a| && SeparatorAt(a + u, i).Some?
    ensures SeparatorAt(a + [' '], i).Some?
  {
    var s := a + u;
    var w := a + [' '];
    SpaceRunSpaces(a, i);
    SpaceRunAppend(a, u, i);
    SpaceRunAppend(a, [' '], i);
    var k := SpaceRun(a, i);
    var j := i + k;
    assert s[|a|] == ' ' && LowerAscii(' ') == ' ';
    assert j + 3 <= |a|;
    assert w[j] == s[j] && w[j + 1] == s[j + 1] && w[j + 2] == s[j + 2];
    assert IsSpace(s[j + 3]);
    assert w[j + 3] == s[j + 3];
  }

  /** `A and B` splits into `[A, B]` when neither name holds a separator of its
      own and `A` ends, and `B` starts, with a character that is not whitespace.
      The `And` inside `"K. Anderson"` does not split it, for it is not followed
      by whitespace. */
  lemma SplitTwo(a: string, b: string)
    requires a != [] && !IsSpace(a[|a| - 1]) && NoSeparator(a + [' '])
    requires b != [] && !IsSpace(b[0]) && NoSeparator(b)
    ensures SplitAnd(a + " and " + b) == [a, b]
  {
    var t := " and " + b;
    var s := a + t;
    forall i | 0 <= i < |a| ensures SeparatorAt(s, i).None? {
      if SeparatorAt(s, i).Some? {
        SeparatorInPrefix(a, t, i);
      }
    }
    SplitKeepsPrefix(a, t);
    SeparatorOfAnd(b);
    assert t[5..] == b;
    SplitWhole(b);
    assert a + [] == a;
    assert s == a + " and " + b;
  }

  /** `" and "` followed by a name starts with a five-character separator. */
  lemma SeparatorOfAnd(b: string)
    requires b != [] && !IsSpace(b[0])
    ensures SeparatorAt(" and " + b, 0) == Some(5)
    ensures SplitAnd(" and " + b) == [[]] + SplitAnd(b)
  {
    var t := " and " + b;
    assert t[5..] == b;
    assert SpaceRun(t, 1) == 0;
    assert SpaceRun(t, 0) == 1;
    assert t[5] == b[0];
    assert SpaceRun(t, 5) == 0;
    assert SpaceRun(t, 4) == 1;
  }

  // ---------------------------------------------------------------- one name

  /** The characters of `s` that are not whitespace, in order. */
  function NonSpace(s: string): string {
    if s == [] then [] else (if IsSpace(s[0]) then [] else [s[0]]) + NonSpace(s[1..])
  }

  /** `re.sub(r"\s+", " ", s)`: every run of whitespace becomes one space. */
  function CollapseSpaces(s: string): (r: string)
    ensures r == [] <==> s == []
    ensures s != [] ==> r[0] == (if IsSpace(s[0]) then ' ' else s[0])
    ensures NonSpace(r) == NonSpace(s)
    decreases |s|
  {
    if s == [] then []
    else if IsSpace(s[0]) then
      var n := SpaceRun(s, 0);
      var rest := CollapseSpaces(s[n..]);
      SpaceRunSpaces(s, 0);
      NonSpaceOfSpaces(s, n);
      [' '] + rest
    else [s[0]] + CollapseSpaces(s[1..])
  }

  /** A run of whitespace reaching the end of `w` is all of `w`. */
  lemma {:induction false} SpaceRunAll(w: string, i: nat)
    requires i <= |w| && forall j :: i <= j < |w| ==> IsSpace(w[j])
    ensures SpaceRun(w, i) == |w| - i
    decreases |w| - i
  {
    if i < |w| {
      SpaceRunAll(w, i + 1);
    }
  }

  /** A whitespace run before text that does not start with whitespace becomes
      one space. */
  lemma CollapseRun(w: string, y: string)
    requires w != [] && forall j :: 0 <= j < |w| ==> IsSpace(w[j])
    requires y == [] || !IsSpace(y[0])
    ensures CollapseSpaces(w + y) == " " + CollapseSpaces(y)
  {
    var s := w + y;
    SpaceRunAll(w, 0);
    SpaceRunAppend(w, y, 0);
    assert SpaceRun(y, 0) == 0;
    assert s[0] == w[0];
    assert s[|w|..] == y;
  }

  /** Text ending in a character that is not whitespace collapses on its own:
      no run crosses its end. */
  lemma {:induction false} CollapseAppend(x: string, y: string)
    requires x == [] || !IsSpace(x[|x| - 1])
    ensures CollapseSpaces(x + y) == CollapseSpaces(x) + CollapseSpaces(y)
    decreases |x|
  {
    if x == [] {
      assert x + y == y;
    } else if IsSpace(x[0]) {
      var n := SpaceRun(x, 0);
      SpaceRunSpaces(x, 0);
      assert 0 < n < |x|;
      var tail := x[n..];
      assert tail[|tail| - 1] == x[|x| - 1];
      CollapseAppend(tail, y);
      CollapseAppendRun(x, y, n);
    } else {
      var tail := x[1..];
      assert tail == [] || tail[|tail| - 1] == x[|x| - 1];
      CollapseAppend(tail, y);
      CollapseAppendWord(x, y);
    }
  }

  /** The step of `CollapseAppend` for text that starts with a whitespace run
      ending inside `x`. */
  lemma CollapseAppendRun(x: string, y: string, n: nat)
    requires x != [] && IsSpace(x[0]) && n == SpaceRun(x, 0) && n < |x|
    requires CollapseSpaces(x[n..] + y) == CollapseSpaces(x[n..]) + CollapseSpaces(y)
    ensures CollapseSpaces(x + y) == CollapseSpaces(x) + CollapseSpaces(y)
  {
    var s := x + y;
    SpaceRunAppend(x, y, 0);
    assert s[0] == x[0] && SpaceRun(s, 0) == n;
    assert s[n..] == x[n..] + y;
    var a, b := CollapseSpaces(x[n..]), CollapseSpaces(y);
    assert CollapseSpaces(s) == " " + (a + b);
    assert CollapseSpaces(x) == " " + a;
    AppendAssoc(" ", a, b);
  }

  /** The step of `CollapseAppend` for text that starts with a character that
      is not whitespace. */
  lemma CollapseAppendWord(x: string, y: string)
    requires x != [] && !IsSpace(x[0])
    requires CollapseSpaces(x[1..] + y) == CollapseSpaces(x[1..]) + CollapseSpaces(y)
    ensures CollapseSpaces(x + y) == CollapseSpaces(x) + CollapseSpaces(y)
  {
    var s := x + y;
    assert s[0] == x[0] && s[1..] == x[1..] + y;
    var a, b := CollapseSpaces(x[1..]), CollapseSpaces(y);
    assert CollapseSpaces(s) == [x[0]] + (a + b);
    assert CollapseSpaces(x) == [x[0]] + a;
    AppendAssoc([x[0]], a, b);
  }

  lemma AppendAssoc<T>(a: seq<T>, b: seq<T>, c: seq<T>)
    ensures a + (b + c) == (a + b) + c
  {
  }

  /** Words separated by any non-empty run of whitespace stay separated by
      exactly one space: the run is never dropped. */
  lemma CollapseBetweenWords(x: string, w: string, y: string)
    requires x == [] || !IsSpace(x[|x| - 1])
    requires w != [] && forall j :: 0 <= j < |w| ==> IsSpace(w[j])
    requires y == [] || !IsSpace(y[0])
    ensures CollapseSpaces(x + w + y) == CollapseSpaces(x) + " " + CollapseSpaces(y)
  {
    var wy := w + y;
    var cwy := CollapseSpaces(wy);
    assert cwy == " " + CollapseSpaces(y) by {
      CollapseRun(w, y);
    }
    assert CollapseSpaces(x + wy) == CollapseSpaces(x) + cwy by {
      CollapseAppend(x, wy);
    }
    assert x + w + y == x + wy;
  }

  /** Every whitespace character is a single space followed by something that
      is not whitespace. */
  predicate SingleSpaced(r: string) {
    forall i :: 0 <= i < |r| && IsSpace(r[i]) ==> r[i] == ' ' && (i + 1 < |r| ==> !IsSpace(r[i + 1]))
  }

  /** A character that is not whitespace, or a single space before such a
      character, keeps text single-spaced. */
  lemma SingleSpacedCons(c: char, rest: string)
    requires SingleSpaced(rest)
    requires IsSpace(c) ==> c == ' ' && (rest == [] || !IsSpace(rest[0]))
    ensures SingleSpaced([c] + rest)
  {
    var r := [c] + rest;
    forall i | 0 <= i < |r| && IsSpace(r[i]) ensures r[i] == ' ' && (i + 1 < |r| ==> !IsSpace(r[i + 1])) {
      if i > 0 {
        assert r[i] == rest[i - 1];
        assert i + 1 < |r| ==> r[i + 1] == rest[i];
      }
    }
  }

  /** After collapsing, the text is single-spaced. */
  lemma {:induction false} CollapsedRuns(s: string)
    ensures SingleSpaced(CollapseSpaces(s))
    decreases |s|
  {
    if s != [] {
      if IsSpace(s[0]) {
        var n := SpaceRun(s, 0);
        assert n > 0;
        CollapsedRuns(s[n..]);
        assert s[n..] != [] ==> s[n..][0] == s[n];
        SingleSpacedCons(' ', CollapseSpaces(s[n..]));
      } else {
        CollapsedRuns(s[1..]);
        SingleSpacedCons(s[0], CollapseSpaces(s[1..]));
      }
    }
  }

  /** Dropping leading whitespace does not change the non-whitespace characters. */
  lemma {:induction false} NonSpaceOfSpaces(s: string, n: nat)
    requires n <= |s| && forall i :: 0 <= i < n ==> IsSpace(s[i])
    ensures NonSpace(s) == NonSpace(s[n..])
    decreases n
  {
    if n > 0 {
      NonSpaceOfSpaces(s[1..], n - 1);
      assert s[1..][n - 1..] == s[n..];
    }
  }

  /** Reorders `Family, Given` into `Given Family`, splitting at the first comma
      only; a name whose either side is blank is left as it is. */
  function Reorder(p: string): (r: string)
    ensures ',' !in p ==> r == p
    ensures ',' in p && (Trim(SplitFirst(p, ',').0) == [] || Trim(SplitFirst(p, ',').1) == []) ==> r == p
  {
    if ',' in p then
      var (left, right) := SplitFirst(p, ',');
      var l := Trim(left);
      var r := Trim(right);
      if l != [] && r != [] then r + " " + l else p
    else p
  }

  /** `Family, Given` becomes `Given Family`; only the first comma splits, so
      the given part may hold further commas (`"Doe, Jr., John"` becomes
      `"Jr., John Doe"`). */
  lemma ReorderSwaps(family: string, given: string)
    requires ',' !in family
    requires family != [] && !IsSpace(family[0]) && !IsSpace(family[|family| - 1])
    requires given != [] && !IsSpace(given[0]) && !IsSpace(given[|given| - 1])
    ensures Reorder(family + ", " + given) == given + " " + family
  {
    var p := family + ", " + given;
    var rest := " " + given;
    assert p == family + [','] + rest;
    SplitFirstAt(family, rest, ',');
    TrimLeadingSpace(rest);
    assert rest[1..] == given;
    ReorderAt(p, family, rest);
  }

  lemma ReorderAt(p: string, family: string, given: string)
    requires ',' in p && SplitFirst(p, ',') == (family, given)
    requires Trim(family) != [] && Trim(given) != []
    ensures Reorder(p) == Trim(given) + " " + Trim(family)
  {
  }

  lemma {:induction false} SplitFirstAt(a: string, b: string, sep: char)
    requires sep !in a
    ensures sep in a + [sep] + b
    ensures SplitFirst(a + [sep] + b, sep) == (a, b)
    decreases |a|
  {
    var p := a + [sep] + b;
    assert p[|a|] == sep;
    if a != [] {
      assert p[1..] == a[1..] + [sep] + b;
      SplitFirstAt(a[1..], b, sep);
      assert a == [a[0]] + a[1..];
    } else {
      assert p[1..] == b;
    }
  }

  lemma TrimLeadingSpace(s: string)
    requires |s| > 1 && s[0] == ' ' && !IsSpace(s[1]) && !IsSpace(s[|s| - 1])
    ensures Trim(s) == s[1..]
  {
    assert LStrip(s, IsSpace) == LStrip(s[1..], IsSpace) == s[1..];
  }

  /** Lines 101-110 for one non-blank segment: normalise, collapse whitespace,
      trim, then reorder. */
  function NormalizeName(p: string, nfc: Normalizer): string {
    Reorder(Trim(CollapseSpaces(LatexToUnicode(p, nfc))))
  }

  predicate IsBlank(p: string) { Trim(p) == [] }

  /** Every segment is blank. */
  predicate AllBlank(parts: seq<string>) {
    forall k :: 0 <= k < |parts| ==> IsBlank(parts[k])
  }

  /** The loop at lines 97-111: every segment that is not blank, normalised, in order. */
  function NormalizeNames(parts: seq<string>, nfc: Normalizer): (names: seq<string>)
    ensures |names| <= |parts|
  {
    if parts == [] then []
    else
      var p := Trim(parts[0]);
      var rest := NormalizeNames(parts[1..], nfc);
      if p == [] then rest else [NormalizeName(p, nfc)] + rest
  }

  /** No name survives exactly when every segment is blank. */
  lemma {:induction false} NormalizeNamesEmpty(parts: seq<string>, nfc: Normalizer)
    ensures NormalizeNames(parts, nfc) == [] <==> AllBlank(parts)
  {
    if parts != [] {
      NormalizeNamesEmpty(parts[1..], nfc);
      if forall k :: 0 <= k < |parts[1..]| ==> IsBlank(parts[1..][k]) {
        forall k | 1 <= k < |parts| ensures IsBlank(parts[k]) { assert parts[k] == parts[1..][k - 1]; }
      }
    }
  }

  function EscapeAll(names: seq<string>): (r: seq<string>)
    ensures |r| == |names|
  {
    seq(|names|, k requires 0 <= k < |names| => HtmlEscape.Escape(names[k]))
  }

  /** `format_authors(authors_raw)`. The author line holds no raw `<`, `>`,
      `"` or `'`: every name is escaped and the separator is `", "`. */
  function FormatAuthors(raw: string, nfc: Normalizer): (r: string)
    ensures HtmlEscape.Safe(r)
  {
    NoAuthorSafe();
    if raw == [] then NoAuthor
    else
      var names := NormalizeNames(SplitAnd(Trim(raw)), nfc);
      if names == [] then NoAuthor
      else
        JoinEscapedSafe(names);
        JoinWith(EscapeAll(names), ", ")
  }

  /** With no author text, or only blank segments between the `and`s, the
      placeholder is shown. */
  lemma FormatAuthorsPlaceholder(raw: string, nfc: Normalizer)
    requires raw == [] || AllBlank(SplitAnd(Trim(raw)))
    ensures FormatAuthors(raw, nfc) == NoAuthor
  {
    if raw != [] {
      var parts := SplitAnd(Trim(raw));
      NormalizeNamesEmpty(parts, nfc);
    }
  }

  lemma NoAuthorSafe()
    ensures HtmlEscape.Safe(NoAuthor)
  {
  }

  /** Escaped names joined with `", "` hold no raw `<`, `>`, `"` or `'`. */
  lemma JoinEscapedSafe(names: seq<string>)
    ensures HtmlEscape.Safe(JoinWith(EscapeAll(names), ", "))
  {
    var escaped := EscapeAll(names);
    JoinWithAvoids(escaped, ", ", '<');
    JoinWithAvoids(escaped, ", ", '>');
    JoinWithAvoids(escaped, ", ", '"');
    JoinWithAvoids(escaped, ", ", '\'');
  }

  /** A name already in display form: no LaTeX markup, no comma, no HTML-special
      character, single spaces only, and no whitespace at either end. */
  predicate PlainName(p: string) {
    && p != [] && !IsSpace(p[0]) && !IsSpace(p[|p| - 1])
    && (forall i :: 0 <= i < |p| ==>
          p[i] != ',' && p[i] !in "\\{}-`'" && !HtmlEscape.IsHtmlSpecial(p[i]))
    && SingleSpaced(p)
  }

  /** A plain name that NFC leaves alone. */
  predicate Settled(p: string, nfc: Normalizer) {
    PlainName(p) && nfc(p) == p
  }

  predicate AllSettled(parts: seq<string>, nfc: Normalizer) {
    forall k :: 0 <= k < |parts| ==> Settled(parts[k], nfc)
  }

  /** End to end: two plain names joined by `and` come out as the two names
      separated by a comma (given that NFC leaves them alone). */
  lemma FormatTwoNames(a: string, b: string, nfc: Normalizer)
    requires Settled(a, nfc) && Settled(b, nfc)
    requires NoSeparator(a + [' ']) && NoSeparator(b)
    ensures FormatAuthors(a + " and " + b, nfc) == a + ", " + b
  {
    var raw := a + " and " + b;
    TrimTwo(a, b);
    SplitTwo(a, b);
    var parts := [a, b];
    assert AllSettled(parts, nfc);
    PlainNamesUnchanged(parts, nfc);
    EscapeTwo(a, b);
    JoinTwo(a, b, ", ");
  }

  lemma TrimTwo(a: string, b: string)
    requires PlainName(a) && PlainName(b)
    ensures Trim(a + " and " + b) == a + " and " + b
  {
    var raw := a + " and " + b;
    assert raw[0] == a[0] && raw[|raw| - 1] == b[|b| - 1];
  }

  lemma EscapeTwo(a: string, b: string)
    requires PlainName(a) && PlainName(b)
    ensures EscapeAll([a, b]) == [a, b]
  {
    HtmlEscape.EscapePlain(a);
    HtmlEscape.EscapePlain(b);
  }

  lemma JoinTwo(a: string, b: string, sep: string)
    ensures JoinWith([a, b], sep) == a + sep + b
  {
    assert [a, b][1..] == [b];
  }

  /** Every name is settled and holds no separator, even with a space after it. */
  predicate Joinable(names: seq<string>, nfc: Normalizer) {
    names == [] || (Settled(names[0], nfc) && NoSeparator(names[0] + [' ']) && Joinable(names[1..], nfc))
  }

  /** `Joinable` asks exactly that of each name. */
  lemma {:induction false} JoinableEach(names: seq<string>, nfc: Normalizer)
    ensures Joinable(names, nfc) <==>
      AllSettled(names, nfc) && forall k :: 0 <= k < |names| ==> NoSeparator(names[k] + [' '])
    decreases |names|
  {
    if names != [] {
      var rest := names[1..];
      JoinableEach(rest, nfc);
      assert forall k :: 0 <= k < |rest| ==> rest[k] == names[k + 1];
      if AllSettled(names, nfc) && forall k :: 0 <= k < |names| ==> NoSeparator(names[k] + [' ']) {
        assert Settled(names[0], nfc) && NoSeparator(names[0] + [' ']);
      }
      if Joinable(names, nfc) {
        forall k | 0 <= k < |names| ensures Settled(names[k], nfc) && NoSeparator(names[k] + [' ']) {
          if k > 0 {
            assert names[k] == rest[k - 1];
          }
        }
      }
    }
  }

  /** End to end, for any number of plain names: names joined by `and` come out
      as the same names separated by commas (given that NFC leaves them alone
      and no name holds a separator of its own, even with a space after it). */
  lemma FormatManyNames(names: seq<string>, nfc: Normalizer)
    requires names != [] && Joinable(names, nfc)
    ensures FormatAuthors(JoinWith(names, " and "), nfc) == JoinWith(names, ", ")
  {
    JoinedNamesSettle(names, nfc);
  }

  /** Each stage of `FormatAuthors` leaves plain names joined by `" and "` alone. */
  lemma JoinedNamesSettle(names: seq<string>, nfc: Normalizer)
    requires names != [] && Joinable(names, nfc)
    ensures JoinWith(names, " and ") != [] && Trim(JoinWith(names, " and ")) == JoinWith(names, " and ")
    ensures NormalizeNames(SplitAnd(JoinWith(names, " and ")), nfc) == names
    ensures EscapeAll(names) == names
  {
    JoinableEach(names, nfc);
    TrimJoined(names, nfc);
    SplitJoined(names, nfc);
    PlainNamesUnchanged(names, nfc);
    EscapeAllPlain(names, nfc);
  }

  /** Plain names joined by `" and "` have nothing to trim. */
  lemma TrimJoined(names: seq<string>, nfc: Normalizer)
    requires names != [] && AllSettled(names, nfc)
    ensures JoinWith(names, " and ") != []
    ensures Trim(JoinWith(names, " and ")) == JoinWith(names, " and ")
  {
    var raw := JoinWith(names, " and ");
    var first, last := names[0], names[|names| - 1];
    assert Settled(first, nfc) && Settled(last, nfc);
    JoinWithEnds(names, " and ");
    var a, z := raw[0], raw[|raw| - 1];
    assert a == first[0] && z == last[|last| - 1];
    assert !IsSpace(a) && !IsSpace(z);
  }

  /** Plain names are not changed by escaping. */
  lemma EscapeAllPlain(names: seq<string>, nfc: Normalizer)
    requires AllSettled(names, nfc)
    ensures EscapeAll(names) == names
  {
    forall k | 0 <= k < |names| ensures HtmlEscape.Escape(names[k]) == names[k] {
      assert Settled(names[k], nfc);
      HtmlEscape.EscapePlain(names[k]);
    }
  }

  /** Joinable names joined by `" and "` split back into the same names. */
  lemma {:induction false} SplitJoined(names: seq<string>, nfc: Normalizer)
    requires names != [] && Joinable(names, nfc)
    ensures SplitAnd(JoinWith(names, " and ")) == names
    decreases |names|
  {
    var n := names[0];
    assert Settled(n, nfc) && NoSeparator(n + [' ']);
    if |names| == 1 {
      assert NoSeparator(n) by {
        forall i | 0 <= i < |n| ensures SeparatorAt(n, i).None? {
          if SeparatorAt(n, i).Some? {
            SeparatorExtends(n, [' '], i);
          }
        }
      }
      SplitWhole(n);
    } else {
      var rest := names[1..];
      assert Joinable(rest, nfc) && Settled(rest[0], nfc);
      var j := JoinWith(rest, " and ");
      var t := " and " + j;
      assert j != [] && !IsSpace(j[0]) by {
        JoinWithHead(rest, " and ");
      }
      assert n != [] && !IsSpace(n[|n| - 1]);
      forall i | 0 <= i < |n| ensures SeparatorAt(n + t, i).None? {
        if SeparatorAt(n + t, i).Some? {
          SeparatorInPrefix(n, t, i);
        }
      }
      SeparatorOfAnd(j);
      assert t[5..] == j;
      SplitAtLeftmost(n, t, 5);
      assert SplitAnd(j) == rest by {
        SplitJoined(rest, nfc);
      }
      assert JoinWith(names, " and ") == n + t;
      HeadTail(names);
    }
  }

  /** A join starts with its first part when that part is not empty. */
  lemma JoinWithHead(parts: seq<string>, sep: string)
    requires parts != [] && parts[0] != []
    ensures JoinWith(parts, sep) != [] && JoinWith(parts, sep)[0] == parts[0][0]
  {
  }

  /** A join of non-empty parts starts with the first part's first character
      and ends with the last part's last character. */
  lemma {:induction false} JoinWithEnds(parts: seq<string>, sep: string)
    requires parts != [] && forall k :: 0 <= k < |parts| ==> parts[k] != []
    ensures JoinWith(parts, sep) != []
    ensures JoinWith(parts, sep)[0] == parts[0][0]
    ensures JoinWith(parts, sep)[|JoinWith(parts, sep)| - 1] == parts[|parts| - 1][|parts[|parts| - 1]| - 1]
    decreases |parts|
  {
    if |parts| > 1 {
      var rest := parts[1..];
      assert rest[0] == parts[1] && rest[|rest| - 1] == parts[|parts| - 1];
      assert forall k :: 0 <= k < |rest| ==> rest[k] == parts[k + 1];
      JoinWithEnds(rest, sep);
    }
  }

  /** Names already in display form pass through the loop unchanged. */
  lemma {:induction false} PlainNamesUnchanged(parts: seq<string>, nfc: Normalizer)
    requires AllSettled(parts, nfc)
    ensures NormalizeNames(parts, nfc) == parts
  {
    if parts != [] {
      assert Settled(parts[0], nfc);
      PlainNameUnchanged(parts[0], nfc);
      assert AllSettled(parts[1..], nfc) by {
        forall k | 0 <= k < |parts[1..]| ensures Settled(parts[1..][k], nfc) {
          assert parts[1..][k] == parts[k + 1];
        }
      }
      PlainNamesUnchanged(parts[1..], nfc);
      NormalizeNamesKeep(parts, nfc);
    }
  }

  /** A segment with nothing to trim is kept, normalised, in front of the rest. */
  lemma NormalizeNamesKeep(parts: seq<string>, nfc: Normalizer)
    requires parts != [] && parts[0] != [] && Trim(parts[0]) == parts[0]
    requires NormalizeName(parts[0], nfc) == parts[0] && NormalizeNames(parts[1..], nfc) == parts[1..]
    ensures NormalizeNames(parts, nfc) == parts
  {
    assert NormalizeNames(parts, nfc) == [NormalizeName(parts[0], nfc)] + NormalizeNames(parts[1..], nfc);
    HeadTail(parts);
  }

  lemma HeadTail<T>(s: seq<T>)
    requires s != []
    ensures s == [s[0]] + s[1..]
  {
  }

  /** A plain name comes out of the per-name normalisation unchanged. */
  lemma PlainNameUnchanged(p: string, nfc: Normalizer)
    requires Settled(p, nfc)
    ensures Trim(p) == p
    ensures NormalizeName(p, nfc) == p
  {
    RewritePlain(p);
    CollapseSingleSpaces(p);
  }

  /** Text that is already single-spaced is not changed by collapsing. */
  lemma {:induction false} CollapseSingleSpaces(s: string)
    requires SingleSpaced(s)
    ensures CollapseSpaces(s) == s
    decreases |s|
  {
    if s != [] {
      assert SingleSpaced(s[1..]) by {
        forall i | 0 <= i < |s[1..]| && IsSpace(s[1..][i])
          ensures s[1..][i] == ' ' && (i + 1 < |s[1..]| ==> !IsSpace(s[1..][i + 1]))
        {
          assert s[1..][i] == s[i + 1];
        }
      }
      CollapseSingleSpaces(s[1..]);
      if IsSpace(s[0]) {
        assert SpaceRun(s, 0) == 1 by {
          assert |s| > 1 ==> !IsSpace(s[1]);
        }
      }
    }
  }

  /** Collapsing twice is collapsing once. */
  lemma CollapseIdempotent(s: string)
    ensures CollapseSpaces(CollapseSpaces(s)) == CollapseSpaces(s)
  {
    CollapsedRuns(s);
    CollapseSingleSpaces(CollapseSpaces(s));
  }
}
