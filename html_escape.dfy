/** `html.escape(s, quote=True)`: the five HTML-special characters become
    character references, everything else is copied. */
module HtmlEscape {

  import opened PyStr

  predicate IsHtmlSpecial(c: char) {
    c == '&' || c == '<' || c == '>' || c == '"' || c == '\''
  }

  function EscapeChar(c: char): (r: string)
    ensures r != []
    ensures IsHtmlSpecial(c) ==> r[0] == '&'
    ensures !IsHtmlSpecial(c) ==> r == [c]
  {
    match c
    case '&' => "&amp;"
    case '<' => "&lt;"
    case '>' => "&gt;"
    case '"' => "&quot;"
    case '\'' => "&#x27;"
    case _ => [c]
  }

  /** `s` holds no raw `<`, `>`, `"` or `'`, so it is safe inside an element and
      inside a double-quoted attribute. */
  predicate Safe(s: string) {
    '<' !in s && '>' !in s && '"' !in s && '\'' !in s
  }

  /** The escaped text is safe: every `<`, `>`, `"` and `'` became a reference. */
  function Escape(s: string): (r: string)
    ensures Safe(r)
  {
    if s == [] then []
    else
      EscapeCharSafe(s[0]);
      EscapeChar(s[0]) + Escape(s[1..])
  }

  lemma EscapeCharSafe(c: char)
    ensures Safe(EscapeChar(c))
  {
  }

  /** Text without an HTML-special character is not changed. */
  lemma {:induction false} EscapePlain(s: string)
    requires forall i :: 0 <= i < |s| ==> !IsHtmlSpecial(s[i])
    ensures Escape(s) == s
  {
    if s != [] {
      EscapePlain(s[1..]);
      assert s == [s[0]] + s[1..];
    }
  }

  /** The character reference `s` starts with, among the five `Escape` writes,
      and its length. */
  function ReferenceAt(s: string): (r: Option<(char, nat)>)
    ensures r.Some? ==> 0 < r.value.1 <= |s| && s[0] == '&'
  {
    if StartsWith(s, "&amp;") then Some(('&', 5))
    else if StartsWith(s, "&lt;") then Some(('<', 4))
    else if StartsWith(s, "&gt;") then Some(('>', 4))
    else if StartsWith(s, "&quot;") then Some(('"', 6))
    else if StartsWith(s, "&#x27;") then Some(('\'', 6))
    else None
  }

  /** Decodes exactly the five references `Escape` produces; the inverse of `Escape`. */
  function Unescape(s: string): string
    decreases |s|
  {
    if s == [] then []
    else match ReferenceAt(s)
      case Some((c, n)) => [c] + Unescape(s[n..])
      case None => [s[0]] + Unescape(s[1..])
  }

  lemma ReferenceAtEscape(c: char, t: string)
    ensures ReferenceAt(EscapeChar(c) + t) == if IsHtmlSpecial(c) then Some((c, |EscapeChar(c)|)) else None
  {
    var e := EscapeChar(c);
    var u := e + t;
    assert u[..|e|] == e;
    if c == '<' {
      assert !StartsWith(u, "&amp;") by { assert u[1] == 'l'; }
    } else if c == '>' {
      assert !StartsWith(u, "&amp;") && !StartsWith(u, "&lt;") by { assert u[1] == 'g'; }
    } else if c == '"' {
      assert !StartsWith(u, "&amp;") && !StartsWith(u, "&lt;") && !StartsWith(u, "&gt;") by { assert u[1] == 'q'; }
    } else if c == '\'' {
      assert !StartsWith(u, "&amp;") && !StartsWith(u, "&lt;") && !StartsWith(u, "&gt;") && !StartsWith(u, "&quot;")
        by { assert u[1] == '#'; }
    } else if c != '&' {
      assert u[0] == c;
    }
  }

  lemma UnescapeOne(c: char, t: string)
    ensures Unescape(EscapeChar(c) + t) == [c] + Unescape(t)
  {
    var e := EscapeChar(c);
    var u := e + t;
    ReferenceAtEscape(c, t);
    assert u[|e|..] == t;
  }

  /** Escaping loses nothing: unescaping gives the original text back. */
  lemma {:induction false} UnescapeEscape(s: string)
    ensures Unescape(Escape(s)) == s
  {
    if s != [] {
      UnescapeOne(s[0], Escape(s[1..]));
      UnescapeEscape(s[1..]);
    }
  }
}
