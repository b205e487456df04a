/** `latex_to_unicode`: rewrites the LaTeX markup found in bibliography fields
    into Unicode text through a fixed pipeline of whole-string rewrites:
    special macros, braced accents, bare accents, brace removal, dash and quote
    digraphs, and finally NFC normalisation. */
module Latex {
  import opened PyStr

  /** `unicodedata.normalize('NFC', ·)`. The Unicode composition tables are not
      part of this model, so the normaliser is a parameter of every operation
      that uses it. */
  type Normalizer = string -> string

  const EmDash: char := '\U{2014}'
  const EnDash: char := '\U{2013}'
  const LeftQuote: char := '\U{201C}'
  const RightQuote: char := '\U{201D}'

  /** The accent codes of the regular-expression class `["'`^~ckHr=.uvdb]`. */
  const AccentClass: string := "\"'`^~ckHr=.uvdb"

  /** `_ACCENT_COMBINING`: accent code to Unicode combining mark. */
  const AccentCombining: map<char, char> := map[
    '"' := '\U{0308}',   // diaeresis
    '\'' := '\U{0301}',  // acute
    '`' := '\U{0300}',   // grave
    '^' := '\U{0302}',   // circumflex
    '~' := '\U{0303}',   // tilde
    'c' := '\U{0327}',   // cedilla
    'k' := '\U{0328}',   // ogonek
    'H' := '\U{030B}',   // double acute
    'r' := '\U{030A}',   // ring above
    '=' := '\U{0304}',   // macron
    '.' := '\U{0307}',   // dot above
    'u' := '\U{0306}',   // breve
    'v' := '\U{030C}',   // caron
    'd' := '\U{0323}',   // dot below
    'b' := '\U{0331}'    // macron below
  ]

  /** `_SPECIAL_MACROS`, in the dictionary's iteration order. */
  const SpecialMacros: seq<(string, string)> := [
    ("\\ss", "\U{00DF}"), ("\\SS", "\U{1E9E}"),
    ("\\ae", "\U{00E6}"), ("\\AE", "\U{00C6}"),
    ("\\oe", "\U{0153}"), ("\\OE", "\U{0152}"),
    ("\\aa", "\U{00E5}"), ("\\AA", "\U{00C5}"),
    ("\\o", "\U{00F8}"), ("\\O", "\U{00D8}"),
    ("\\l", "\U{0142}"), ("\\L", "\U{0141}")
  ]

  /** `_DASH_QUOTES`, applied in list order. */
  const DashQuotes: seq<(string, string)> := [
    ("---", [EmDash]), ("--", [EnDash]), ("``", [LeftQuote]), ("''", [RightQuote])
  ]

  predicate IsAsciiLetter(c: char) { 'A' <= c <= 'Z' || 'a' <= c <= 'z' }

  predicate IsAccentCode(c: char) { c in AccentClass }

  /** No backslash in `s` is followed by an accent code. */
  predicate NoAccentCommand(s: string) {
    forall i :: 0 <= i < |s| - 1 && s[i] == '\\' ==> !IsAccentCode(s[i + 1])
  }

  predicate NoBraces(s: string) { '{' !in s && '}' !in s }

  /** `_accent_braced`: the base letter followed by the accent's combining mark,
      or by nothing when the table has no mark for the code. */
  function AccentReplacement(code: char, base: char): (r: string)
    ensures IsAccentCode(code) ==> r == [base, AccentCombining[code]]
    ensures !IsAccentCode(code) ==> r == [base]
  {
    [base] + (if code in AccentCombining then [AccentCombining[code]] else [])
  }

  /** Stage 1: the special macros, each replaced everywhere, in table order. */
  function ReplaceMacros(s: string): string {
    ReplaceTable(s, SpecialMacros)
  }

  /** `\c{x}` (five characters) with an accent code and an ASCII letter. */
  predicate BracedCommandAt(s: string) {
    |s| >= 5 && s[0] == '\\' && IsAccentCode(s[1]) && s[2] == '{' && IsAsciiLetter(s[3]) && s[4] == '}'
  }

  /** `\cx` (three characters) with an accent code and an ASCII letter. */
  predicate BareCommandAt(s: string) {
    |s| >= 3 && s[0] == '\\' && IsAccentCode(s[1]) && IsAsciiLetter(s[2])
  }

  lemma NoAccentCommandTail(s: string)
    requires s != []
    ensures NoAccentCommand(s) ==> NoAccentCommand(s[1..])
  {
    if NoAccentCommand(s) {
      forall i | 0 <= i < |s[1..]| - 1 && s[1..][i] == '\\' ensures !IsAccentCode(s[1..][i + 1]) {
        assert s[1..][i] == s[i + 1] && s[1..][i + 1] == s[i + 2];
      }
    }
  }

  /** Stage 2: `re.sub` of the braced accent pattern, scanning left to right. */
  function BracedAccents(s: string): (r: string)
    ensures NoAccentCommand(s) ==> r == s
  {
    if s == [] then []
    else if BracedCommandAt(s) then AccentReplacement(s[1], s[3]) + BracedAccents(s[5..])
    else
      NoAccentCommandTail(s);
      [s[0]] + BracedAccents(s[1..])
  }

  /** Stage 3: `re.sub` of the bare accent pattern, scanning left to right. */
  function BareAccents(s: string): (r: string)
    ensures NoAccentCommand(s) ==> r == s
  {
    if s == [] then []
    else if BareCommandAt(s) then AccentReplacement(s[1], s[2]) + BareAccents(s[3..])
    else
      NoAccentCommandTail(s);
      [s[0]] + BareAccents(s[1..])
  }

  /** Stage 4: `s.replace('{', '').replace('}', '')`. */
  function StripBraces(s: string): (r: string)
    ensures NoBraces(r)
    ensures NoBraces(s) ==> r == s
  {
    var t := ReplaceAll(s, "{", "");
    var r := ReplaceAll(t, "}", "");
    ReplaceAllDeletesChar(s, '{');
    ReplaceAllDeletesChar(t, '}');
    assert NoBraces(s) ==> r == s by {
      if NoBraces(s) {
        AbsentHeadNoOccurrence(s, "{");
        ReplaceAllNoMatch(s, "{", "");
        AbsentHeadNoOccurrence(s, "}");
        ReplaceAllNoMatch(s, "}", "");
      }
    }
    r
  }

  /** Removing the braces keeps every other character. */
  lemma StripBracesKeeps(s: string)
    ensures forall c :: c != '{' && c != '}' ==> (c in StripBraces(s) <==> c in s)
  {
    ReplaceAllDeletesChar(s, '{');
    ReplaceAllDeletesChar(ReplaceAll(s, "{", ""), '}');
  }

  /** Stage 5: the dash and quote digraphs, in table order. Text without a
      hyphen, backquote or apostrophe passes unchanged. */
  function ReplaceDashQuotes(s: string): (r: string)
    ensures '-' !in s && '`' !in s && '\'' !in s ==> r == s
  {
    DashQuotesSkip(s);
    ReplaceTable(s, DashQuotes)
  }

  /** Every stage of `latex_to_unicode` before NFC normalisation. */
  function Rewrite(text: string): string {
    ReplaceDashQuotes(StripBraces(BareAccents(BracedAccents(ReplaceMacros(text)))))
  }

  /** `latex_to_unicode(text)`: empty text comes back unchanged; anything else
      goes through every stage and then through NFC. */
  function LatexToUnicode(text: string, nfc: Normalizer): (r: string)
    ensures text == [] ==> r == []
    ensures text != [] ==> r == nfc(Rewrite(text))
  {
    if text == [] then text else nfc(Rewrite(text))
  }

  // ---------------------------------------------------------------- properties

  /** Empty input is returned unchanged, whatever the normaliser. */
  lemma EmptyUnchanged(nfc: Normalizer)
    ensures LatexToUnicode("", nfc) == ""
  {
  }

  /** The dash/quote stage removes no brace-freedom: after it the text still holds
      no `{` or `}`. */
  lemma DashQuotesKeepNoBraces(s: string)
    requires NoBraces(s)
    ensures NoBraces(ReplaceDashQuotes(s))
  {
    ReplaceTableNoNewChar(s, DashQuotes, '{');
    ReplaceTableNoNewChar(s, DashQuotes, '}');
  }

  /** The dash/quote stage is the four replacements in table order. */
  lemma DashQuotesSteps(s: string)
    ensures ReplaceDashQuotes(s)
         == ReplaceAll(ReplaceAll(ReplaceAll(ReplaceAll(s, "---", [EmDash]), "--", [EnDash]), "``", [LeftQuote]), "''", [RightQuote])
  {
    var t := DashQuotes;
    var s1 := ReplaceAll(s, "---", [EmDash]);
    var s2 := ReplaceAll(s1, "--", [EnDash]);
    var s3 := ReplaceAll(s2, "``", [LeftQuote]);
    var s4 := ReplaceAll(s3, "''", [RightQuote]);
    assert t[0] == ("---", [EmDash]);
    assert ReplaceTable(s, t) == ReplaceTable(s1, t[1..]);
    assert t[1..][0] == ("--", [EnDash]);
    assert ReplaceTable(s1, t[1..]) == ReplaceTable(s2, t[2..]) by { assert t[1..][1..] == t[2..]; }
    assert t[2..][0] == ("``", [LeftQuote]);
    assert ReplaceTable(s2, t[2..]) == ReplaceTable(s3, t[3..]) by { assert t[2..][1..] == t[3..]; }
    assert t[3..][0] == ("''", [RightQuote]);
    assert ReplaceTable(s3, t[3..]) == ReplaceTable(s4, []) by { assert t[3..][1..] == []; }
  }

  /** After the dash/quote stage no two hyphens are adjacent: every `--` left
      by the em-dash rule is turned into an en dash, and the quote rules add no
      hyphen. */
  lemma DashQuotesNoDoubleHyphen(s: string)
    ensures NoPair(ReplaceDashQuotes(s), '-')
  {
    var s1 := ReplaceAll(s, "---", [EmDash]);
    var s2 := ReplaceAll(s1, "--", [EnDash]);
    var s3 := ReplaceAll(s2, "``", [LeftQuote]);
    DashQuotesSteps(s);
    forall i | 0 <= i < |s1| - 1 && s1[i] == '-' && s1[i + 1] == '-' ensures StartsWith(s1[i..], "--") {
      assert s1[i..][..2] == "--";
    }
    ReplaceAllNoPair(s1, "--", [EnDash], '-');
    ReplaceAllKeepsNoPair(s2, "``", [LeftQuote], '-');
    ReplaceAllKeepsNoPair(s3, "''", [RightQuote], '-');
  }

  /** `---` becomes a single em dash, not an en dash followed by a hyphen: after
      any text free of hyphens and quote characters, it turns into `—` and the
      rest of the text is rewritten on its own. */
  lemma EmDashBeforeEnDash(a: string, b: string)
    requires '-' !in a && '`' !in a && '\'' !in a
    ensures ReplaceDashQuotes(a + "---" + b) == a + [EmDash] + ReplaceDashQuotes(b)
  {
    var e := [EmDash];
    var ae := a + e;
    assert '-' !in ae && '`' !in ae && '\'' !in ae;
    assert a + "---" + b == a + ("---" + b);
    ReplaceAllSkipsPrefix(a, "---" + b, "---", e);
    ReplaceAllAtMatch(b, "---", e);
    var b1 := ReplaceAll(b, "---", e);
    assert ReplaceAll(a + "---" + b, "---", e) == ae + b1;
    ReplaceAllSkipsPrefix(ae, b1, "--", [EnDash]);
    var b2 := ReplaceAll(b1, "--", [EnDash]);
    ReplaceAllSkipsPrefix(ae, b2, "``", [LeftQuote]);
    var b3 := ReplaceAll(b2, "``", [LeftQuote]);
    ReplaceAllSkipsPrefix(ae, b3, "''", [RightQuote]);
    DashQuotesSteps(a + "---" + b);
    DashQuotesSteps(b);
  }

  /** Every macro is a backslash followed by one of `sSaAoOlL` and at least one more character. */
  lemma MacroPatterns()
    ensures forall k :: 0 <= k < |SpecialMacros| ==>
              |SpecialMacros[k].0| >= 2 && SpecialMacros[k].0[0] == '\\' && SpecialMacros[k].0[1] in "sSaAoOlL"
  {
  }

  /** With no macro head after any backslash, the macro stage changes nothing;
      a backslash at the very end of the text is left alone too. */
  lemma MacrosSkip(s: string)
    requires forall i :: 0 <= i < |s| - 1 && s[i] == '\\' ==> s[i + 1] !in "sSaAoOlL"
    ensures ReplaceMacros(s) == s
  {
    MacroPatterns();
    forall k | 0 <= k < |SpecialMacros| ensures SpecialMacros[k].0 != [] && NoOccurrence(s, SpecialMacros[k].0) {
      MacroAbsent(s, SpecialMacros[k].0);
    }
    ReplaceTableNoMatch(s, SpecialMacros);
  }

  /** A backslash pattern whose second character follows no backslash of `s`
      occurs nowhere in `s`. */
  lemma MacroAbsent(s: string, pat: string)
    requires |pat| >= 2 && pat[0] == '\\' && pat[1] in "sSaAoOlL"
    requires forall i :: 0 <= i < |s| - 1 && s[i] == '\\' ==> s[i + 1] !in "sSaAoOlL"
    ensures NoOccurrence(s, pat)
  {
    forall i | 0 <= i < |s| ensures !StartsWith(s[i..], pat) {
      var t := s[i..];
      if s[i] != '\\' {
        FirstCharMismatch(t, pat);
      } else if |pat| <= |t| {
        assert i < |s| - 1;
        assert t[..|pat|][1] == s[i + 1];
      }
    }
  }

  /** Every macro starts with a backslash, so text without one has none. */
  lemma NoBackslashSkip(s: string)
    ensures '\\' !in s ==> ReplaceMacros(s) == s
  {
    if '\\' !in s {
      MacroPatterns();
      forall k | 0 <= k < |SpecialMacros| ensures SpecialMacros[k].0 != [] && NoOccurrence(s, SpecialMacros[k].0) {
        AbsentHeadNoOccurrence(s, SpecialMacros[k].0);
      }
      ReplaceTableNoMatch(s, SpecialMacros);
    }
  }

  /** Text without any of the dash and quote characters passes the last stage unchanged. */
  lemma DashQuotesSkip(s: string)
    ensures '-' !in s && '`' !in s && '\'' !in s ==> ReplaceTable(s, DashQuotes) == s
  {
    if '-' in s || '`' in s || '\'' in s {
      return;
    }
    forall k | 0 <= k < |DashQuotes| ensures DashQuotes[k].0 != [] && NoOccurrence(s, DashQuotes[k].0) {
      AbsentHeadNoOccurrence(s, DashQuotes[k].0);
    }
    ReplaceTableNoMatch(s, DashQuotes);
  }

  /** The combining marks are neither backslashes, braces, hyphens nor quote characters. */
  lemma MarkText(code: char, x: char)
    requires IsAccentCode(code) && IsAsciiLetter(x)
    ensures var out: string := [x, AccentCombining[code]];
            NoAccentCommand(out) && NoBraces(out) && '-' !in out && '`' !in out && '\'' !in out
  {
    assert AccentCombining[code] in AccentCombining.Values;
    assert forall m :: m in AccentCombining.Values ==> '\U{0300}' <= m <= '\U{0331}';
  }

  /** The pipeline turns `\c{x}` into the letter and its mark. */
  lemma BracedForm(code: char, x: char)
    requires IsAccentCode(code) && IsAsciiLetter(x)
    ensures Rewrite(['\\', code, '{', x, '}']) == [x, AccentCombining[code]]
  {
    var braced: string := ['\\', code, '{', x, '}'];
    MacrosSkip(braced);
    BracedStage(code, x);
    AccentFreeTail(code, x);
  }

  lemma BracedStage(code: char, x: char)
    requires IsAccentCode(code) && IsAsciiLetter(x)
    ensures BracedAccents(['\\', code, '{', x, '}']) == [x, AccentCombining[code]]
  {
    var braced: string := ['\\', code, '{', x, '}'];
    assert BracedCommandAt(braced);
    assert braced[5..] == [];
  }

  /** The letter-and-mark pair passes the bare-accent, brace and dash/quote stages unchanged. */
  lemma AccentFreeTail(code: char, x: char)
    requires IsAccentCode(code) && IsAsciiLetter(x)
    ensures var out: string := [x, AccentCombining[code]];
            ReplaceDashQuotes(StripBraces(BareAccents(out))) == out
  {
    var out: string := [x, AccentCombining[code]];
    MarkText(code, x);
    assert BareAccents(out) == out;
    assert StripBraces(out) == out;
    DashQuotesSkip(out);
  }

  /** The pipeline turns `\cx` into the letter and its mark. */
  lemma BareForm(code: char, x: char)
    requires IsAccentCode(code) && IsAsciiLetter(x)
    ensures Rewrite(['\\', code, x]) == [x, AccentCombining[code]]
  {
    BareMacrosSkip(code, x);
    BareStages(code, x);
    AccentFreeTail(code, x);
  }

  lemma BareMacrosSkip(code: char, x: char)
    requires IsAccentCode(code) && IsAsciiLetter(x)
    ensures ReplaceMacros(['\\', code, x]) == ['\\', code, x]
  {
    MacrosSkip(['\\', code, x]);
  }

  lemma BareStages(code: char, x: char)
    requires IsAccentCode(code) && IsAsciiLetter(x)
    ensures BracedAccents(['\\', code, x]) == ['\\', code, x]
    ensures BareAccents(['\\', code, x]) == [x, AccentCombining[code]]
  {
    var bare: string := ['\\', code, x];
    assert !BracedCommandAt(bare);
    assert NoAccentCommand(bare[1..]);
    assert BracedAccents(bare) == [bare[0]] + BracedAccents(bare[1..]);
    assert BareCommandAt(bare);
    assert bare[3..] == [];
  }

  /** The braced form `\c{x}` and the bare form `\cx` of an accent command give the
      same output: the letter followed by the accent's combining mark, then NFC. */
  lemma BracedAndBareAgree(code: char, x: char, nfc: Normalizer)
    requires IsAccentCode(code) && IsAsciiLetter(x)
    ensures LatexToUnicode(['\\', code, '{', x, '}'], nfc) == nfc([x, AccentCombining[code]])
    ensures LatexToUnicode(['\\', code, x], nfc) == nfc([x, AccentCombining[code]])
  {
    BracedForm(code, x);
    BareForm(code, x);
  }

  /** The accent stages leave every backslash sequence whose code is outside the
      accent class alone. */
  lemma UnknownCodesUntouched(s: string)
    requires NoAccentCommand(s)
    ensures BareAccents(BracedAccents(s)) == s
  {
  }

  /** The accent stages work locally: text before the first backslash is
      copied as it is, and only what follows it is rewritten. */
  lemma AccentsCopyPlainPrefix(a: string, t: string)
    requires '\\' !in a
    ensures BareAccents(BracedAccents(a + t)) == a + BareAccents(BracedAccents(t))
  {
    BracedCopiesPlain(a, t);
    BareCopiesPlain(a, BracedAccents(t));
  }

  lemma {:induction false} BracedCopiesPlain(a: string, t: string)
    requires '\\' !in a
    ensures BracedAccents(a + t) == a + BracedAccents(t)
    decreases |a|
  {
    var s := a + t;
    if a == [] {
      assert s == t;
    } else {
      assert s[0] == a[0] && s[1..] == a[1..] + t;
      assert !BracedCommandAt(s);
      BracedCopiesPlain(a[1..], t);
      var r := BracedAccents(t);
      assert BracedAccents(s) == [a[0]] + (a[1..] + r);
      assert [a[0]] + (a[1..] + r) == ([a[0]] + a[1..]) + r;
      assert [a[0]] + a[1..] == a;
    }
  }

  lemma {:induction false} BareCopiesPlain(a: string, t: string)
    requires '\\' !in a
    ensures BareAccents(a + t) == a + BareAccents(t)
    decreases |a|
  {
    var s := a + t;
    if a == [] {
      assert s == t;
    } else {
      assert s[0] == a[0] && s[1..] == a[1..] + t;
      assert !BareCommandAt(s);
      BareCopiesPlain(a[1..], t);
      var r := BareAccents(t);
      assert BareAccents(s) == [a[0]] + (a[1..] + r);
      assert [a[0]] + (a[1..] + r) == ([a[0]] + a[1..]) + r;
      assert [a[0]] + a[1..] == a;
    }
  }

  /** The table order lets `\oe` win over its prefix `\o`: `\oe` becomes `œ`,
      not `ø` followed by `e`. */
  lemma MacroTableOrder()
    ensures ReplaceMacros("\\oe") == "\U{0153}"
  {
    OeSkipsEarlier();
    OeReplaced();
    LaterMacrosAbsent();
  }

  /** The four entries before `\oe` do not occur in `\oe`. */
  lemma OeSkipsEarlier()
    ensures ReplaceMacros("\\oe") == ReplaceTable("\\oe", SpecialMacros[4..])
  {
    MacroPatterns();
    EarlierMacrosAbsent();
    ReplaceTableSkip("\\oe", SpecialMacros, 4);
  }

  /** The entry for `\oe` rewrites the whole text. */
  lemma OeReplaced()
    ensures ReplaceTable("\\oe", SpecialMacros[4..]) == ReplaceTable("\U{0153}", SpecialMacros[5..])
  {
    var oe := "\\oe";
    var lig := "\U{0153}";
    var t := SpecialMacros;
    MacroPatterns();
    assert t[4] == (oe, lig);
    assert t[4..][1..] == t[5..];
    ReplaceAllAtMatch([], oe, lig);
    assert oe + [] == oe;
  }

  lemma EarlierMacrosAbsent()
    ensures forall k :: 0 <= k < 4 ==> NoOccurrence("\\oe", SpecialMacros[k].0)
  {
    MacroPatterns();
    var oe := "\\oe";
    forall k | 0 <= k < 4 ensures NoOccurrence(oe, SpecialMacros[k].0) {
      var pat := SpecialMacros[k].0;
      assert pat[1] != 'o';
      forall i | 0 <= i < |oe| ensures !StartsWith(oe[i..], pat) {
        if i == 0 && |pat| <= |oe| { assert oe[i..][..|pat|][1] != pat[1]; }
        else if i > 0 { FirstCharMismatch(oe[i..], pat); }
      }
    }
  }

  lemma LaterMacrosAbsent()
    ensures ReplaceTable("\U{0153}", SpecialMacros[5..]) == "\U{0153}"
  {
    MacroPatterns();
    var t := SpecialMacros[5..];
    forall k | 0 <= k < |t| ensures t[k].0 != [] && NoOccurrence("\U{0153}", t[k].0) {
      assert t[k] == SpecialMacros[k + 5];
      AbsentHeadNoOccurrence("\U{0153}", t[k].0);
    }
    ReplaceTableNoMatch("\U{0153}", t);
  }

  /** Plain text (no backslash, brace, hyphen or quote character) is not rewritten. */
  lemma RewritePlain(s: string)
    requires '\\' !in s && NoBraces(s) && '-' !in s && '`' !in s && '\'' !in s
    ensures Rewrite(s) == s
  {
    forall k | 0 <= k < |SpecialMacros| ensures SpecialMacros[k].0 != [] && NoOccurrence(s, SpecialMacros[k].0) {
      MacroPatterns();
      AbsentHeadNoOccurrence(s, SpecialMacros[k].0);
    }
    ReplaceTableNoMatch(s, SpecialMacros);
    assert NoAccentCommand(s);
    DashQuotesSkip(s);
  }

  /** The text handed to NFC holds no `{` or `}` and no two adjacent hyphens. */
  lemma RewriteClean(text: string)
    ensures NoBraces(Rewrite(text))
    ensures NoPair(Rewrite(text), '-')
  {
    DashQuotesKeepNoBraces(StripBraces(BareAccents(BracedAccents(ReplaceMacros(text)))));
    DashQuotesNoDoubleHyphen(StripBraces(BareAccents(BracedAccents(ReplaceMacros(text)))));
  }
}
