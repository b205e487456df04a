/** One bibliography record turned into one `<li>` line of the publication
    list: the link behind the title, the venue text and the escaped fields.
    Line numbers in the comments below refer to scripts/bib_to_html.py. */
module Entries {

  import opened PyStr
  import opened Latex
  import HtmlEscape
  import Authors

  /** A parsed record: field name to field text, as the BibTeX parser hands it over. */
  type Entry = map<string, string>

  const NoTitle: string := "No title specified"
  const DoiResolver: string := "https://doi.org/"
  const ArxivPrefix: string := "arXiv:"

  /** `entry.get(key, default)`. */
  function Get(e: Entry, key: string, default: string): (r: string)
    ensures key in e ==> r == e[key]
    ensures key !in e ==> r == default
  {
    if key in e then e[key] else default
  }

  /** Python's `a or b` on two strings. */
  function Or(a: string, b: string): (r: string)
    ensures r == [] <==> a == [] && b == []
    ensures a != [] ==> r == a
  {
    if a != [] then a else b
  }

  // ---------------------------------------------------------------- link

  /** Lines 156-163: a non-empty `doi` decides the link (verbatim when it already
      starts with `http` in any case, otherwise behind the DOI resolver); without
      one the link is a non-empty `url`; otherwise there is none. */
  function ResolveLink(e: Entry): (link: Option<string>)
    ensures link.Some? ==> link.value != []
  {
    var url := Get(e, "url", "");
    var doi := Get(e, "doi", "");
    if doi != [] then
      Some(if StartsWithIgnoreCase(doi, "http") then doi else DoiResolver + doi)
    else if url != [] then Some(url)
    else None
  }

  /** A DOI overrides the URL: whatever `url` holds, the link is the same. */
  lemma DoiOverridesUrl(e: Entry, url: string)
    requires Get(e, "doi", "") != []
    ensures ResolveLink(e["url" := url]) == ResolveLink(e)
  {
    assert Get(e["url" := url], "doi", "") == Get(e, "doi", "");
  }

  /** A link built from a DOI holds the DOI at its end and always begins with
      `http` in some case. */
  lemma DoiLink(e: Entry)
    requires Get(e, "doi", "") != []
    ensures var doi := Get(e, "doi", "");
            && ResolveLink(e).Some?
            && (ResolveLink(e).value == doi || ResolveLink(e).value == DoiResolver + doi)
            && StartsWithIgnoreCase(ResolveLink(e).value, "http")
    ensures var doi := Get(e, "doi", "");
            StartsWithIgnoreCase(doi, "http") ==> ResolveLink(e) == Some(doi)
    ensures var doi := Get(e, "doi", "");
            !StartsWithIgnoreCase(doi, "http") ==> ResolveLink(e) == Some(DoiResolver + doi)
  {
    var doi := Get(e, "doi", "");
    var w := DoiResolver + doi;
    assert w[..4] == "http";
  }

  /** Without a DOI, the link is the URL when there is one, and otherwise absent. */
  lemma UrlLink(e: Entry)
    requires Get(e, "doi", "") == []
    ensures ResolveLink(e).Some? <==> Get(e, "url", "") != []
    ensures ResolveLink(e).Some? ==> ResolveLink(e).value == Get(e, "url", "")
  {
  }

  // ---------------------------------------------------------------- title

  const AnchorOpen: string := "<a class=\"pub-title\" href=\""
  const AnchorRest: string := "\" target=\"_blank\" rel=\"noopener noreferrer\">"
  const SpanOpen: string := "<span class=\"pub-title\">"

  /** Lines 174-178: the escaped title inside a link that opens in a new tab,
      or inside a plain span. */
  function TitleHtml(title: string, link: Option<string>): (r: string)
    ensures |r| > |title|
  {
    match link
    case Some(url) => AnchorOpen + HtmlEscape.Escape(url) + AnchorRest + title + "</a>"
    case None => SpanOpen + title + "</span>"
  }

  /** The title is an anchor exactly when there is a link, and a span exactly
      when there is none. */
  lemma TitleKind(title: string, link: Option<string>)
    ensures StartsWith(TitleHtml(title, link), "<a ") <==> link.Some?
    ensures StartsWith(TitleHtml(title, link), "<span ") <==> link.None?
  {
    match link
    case Some(url) => AnchorKind(title, url);
    case None => SpanKind(title);
  }

  lemma AnchorKind(title: string, url: string)
    ensures StartsWith(TitleHtml(title, Some(url)), "<a ")
    ensures !StartsWith(TitleHtml(title, Some(url)), "<span ")
  {
    var rest := HtmlEscape.Escape(url) + AnchorRest + title + "</a>";
    var r := AnchorOpen + rest;
    assert TitleHtml(title, Some(url)) == r;
    assert StartsWith(r, "<a ") by {
      assert AnchorOpen[..3] == "<a ";
      PrefixExtends(AnchorOpen, rest, "<a ");
    }
    assert !StartsWith(r, "<span ") by {
      assert r[1] == AnchorOpen[1] == 'a';
      Mismatch(r, "<span ", 1);
    }
  }

  lemma SpanKind(title: string)
    ensures StartsWith(TitleHtml(title, None), "<span ")
    ensures !StartsWith(TitleHtml(title, None), "<a ")
  {
    var rest := title + "</span>";
    var r := SpanOpen + rest;
    assert TitleHtml(title, None) == r;
    assert SpanOpen[..6] == "<span ";
    PrefixExtends(SpanOpen, rest, "<span ");
    assert r[1] == SpanOpen[1] == 's';
    Mismatch(r, "<a ", 1);
  }

  lemma PrefixExtends(a: string, rest: string, p: string)
    requires StartsWith(a, p)
    ensures StartsWith(a + rest, p)
  {
    assert (a + rest)[..|p|] == a[..|p|];
  }

  lemma Mismatch(s: string, p: string, i: nat)
    requires i < |s| && i < |p| && s[i] != p[i]
    ensures !StartsWith(s, p)
  {
    if |p| <= |s| {
      assert s[..|p|][i] == s[i];
    }
  }

  /** The link inside the `href` attribute can hold no raw `"`, so it cannot
      close the attribute early. */
  lemma HrefQuoted(title: string, url: string)
    ensures var href := HtmlEscape.Escape(url);
            && HtmlEscape.Safe(href)
            && TitleHtml(title, Some(url)) == AnchorOpen + href + AnchorRest + title + "</a>"
  {
  }

  // ---------------------------------------------------------------- venue

  /** The characters `.strip(' ,.')` removes. */
  predicate VenueTrim(c: char) {
    c == ' ' || c == ',' || c == '.'
  }

  /** `journal`, else `booktitle`, else nothing (line 181). */
  function VenueSource(e: Entry): string {
    Or(Get(e, "journal", ""), Get(e, "booktitle", ""))
  }

  /** Line 184: `f"arXiv:{entry.get('eprint')}"`, where a missing `eprint` prints as `None`. */
  function ArxivVenue(e: Entry): string {
    ArxivPrefix + Get(e, "eprint", "None")
  }

  /** The venue before year removal: the normalised source, or the arXiv
      identifier when that is empty and the record comes from arXiv (lines 181-184). */
  function VenueText(e: Entry, nfc: Normalizer): string {
    var v := LatexToUnicode(VenueSource(e), nfc);
    if v == [] && EqualsIgnoreCase(Get(e, "archivePrefix", ""), "arxiv") then ArxivVenue(e) else v
  }

  /** Lines 181-186: the venue with every occurrence of the record's year removed
      and spaces, commas and dots stripped from both ends; not yet escaped. */
  function ResolveVenue(e: Entry, nfc: Normalizer): (venue: string)
    ensures Get(e, "year", "") != [] ==>
              venue == [] || (!VenueTrim(venue[0]) && !VenueTrim(venue[|venue| - 1]))
  {
    WithoutYear(VenueText(e, nfc), Get(e, "year", ""))
  }

  /** Line 186, applied only when both the venue and the year are non-empty. */
  function WithoutYear(v: string, year: string): string {
    if v != [] && year != [] then Strip(ReplaceAll(v, year, ""), VenueTrim) else v
  }

  /** A non-empty journal hides the book title. (It does not hide the arXiv
      fields: a journal such as `{}` normalises to nothing.) */
  lemma JournalFirst(e: Entry, booktitle: string, nfc: Normalizer)
    requires Get(e, "journal", "") != []
    ensures ResolveVenue(e["booktitle" := booktitle], nfc) == ResolveVenue(e, nfc)
  {
    var e' := e["booktitle" := booktitle];
    GetOther(e, "booktitle", booktitle, "journal", "");
    GetOther(e, "booktitle", booktitle, "year", "");
    GetOther(e, "booktitle", booktitle, "archivePrefix", "");
    GetOther(e, "booktitle", booktitle, "eprint", "None");
    assert VenueSource(e') == VenueSource(e);
    SameVenue(e', e, nfc);
  }

  /** Without a journal, the book title stands in for it. */
  lemma BooktitleSecond(e: Entry, nfc: Normalizer)
    requires Get(e, "journal", "") == []
    ensures ResolveVenue(e, nfc) == ResolveVenue(e["journal" := Get(e, "booktitle", "")], nfc)
  {
    var b := Get(e, "booktitle", "");
    var e' := e["journal" := b];
    GetOther(e, "journal", b, "booktitle", "");
    GetOther(e, "journal", b, "year", "");
    GetOther(e, "journal", b, "archivePrefix", "");
    GetOther(e, "journal", b, "eprint", "None");
    assert VenueSource(e') == VenueSource(e);
    SameVenue(e', e, nfc);
  }

  /** The arXiv fields matter only when the journal and book title give no text. */
  lemma ArxivOnlyAsFallback(e: Entry, prefix: string, eprint: string, nfc: Normalizer)
    requires LatexToUnicode(VenueSource(e), nfc) != []
    ensures ResolveVenue(e["archivePrefix" := prefix]["eprint" := eprint], nfc) == ResolveVenue(e, nfc)
  {
    var e1 := e["archivePrefix" := prefix];
    var e' := e1["eprint" := eprint];
    GetOther(e, "archivePrefix", prefix, "journal", "");
    GetOther(e, "archivePrefix", prefix, "booktitle", "");
    GetOther(e, "archivePrefix", prefix, "year", "");
    GetOther(e1, "eprint", eprint, "journal", "");
    GetOther(e1, "eprint", eprint, "booktitle", "");
    GetOther(e1, "eprint", eprint, "year", "");
    assert VenueSource(e') == VenueSource(e);
    VenueTextKept(e', e, nfc);
    assert WithoutYear(VenueText(e', nfc), Get(e', "year", "")) == WithoutYear(VenueText(e, nfc), Get(e, "year", ""));
  }

  /** Setting one field leaves every other field as it was. */
  lemma GetOther(e: Entry, key: string, value: string, other: string, default: string)
    requires key != other
    ensures Get(e[key := value], other, default) == Get(e, other, default)
  {
  }

  /** Records that agree on the venue source and on the fields the fallback
      and the year removal read get the same venue. */
  lemma SameVenue(e: Entry, e': Entry, nfc: Normalizer)
    requires VenueSource(e) == VenueSource(e')
    requires Get(e, "archivePrefix", "") == Get(e', "archivePrefix", "")
    requires Get(e, "eprint", "None") == Get(e', "eprint", "None")
    requires Get(e, "year", "") == Get(e', "year", "")
    ensures ResolveVenue(e, nfc) == ResolveVenue(e', nfc)
  {
    assert ArxivVenue(e) == ArxivVenue(e');
  }

  /** A venue source that normalises to some text is kept whatever the arXiv fields say. */
  lemma VenueTextKept(e: Entry, e': Entry, nfc: Normalizer)
    requires VenueSource(e) == VenueSource(e')
    requires LatexToUnicode(VenueSource(e), nfc) != []
    ensures VenueText(e, nfc) == VenueText(e', nfc)
  {
  }

  /** A record with no venue text that comes from arXiv, any capitalisation of
      `arxiv`, takes `arXiv:` and its identifier (`None` when it has none) as its
      venue text; the year is removed from that text afterwards like from any other. */
  lemma ArxivFallback(e: Entry, nfc: Normalizer)
    requires LatexToUnicode(VenueSource(e), nfc) == []
    requires EqualsIgnoreCase(Get(e, "archivePrefix", ""), "arxiv")
    ensures VenueText(e, nfc) == ArxivPrefix + Get(e, "eprint", "None")
    ensures ResolveVenue(e, nfc) == WithoutYear(ArxivPrefix + Get(e, "eprint", "None"), Get(e, "year", ""))
  {
  }

  /** Without a year the venue text is kept as it is, ends included. */
  lemma VenueWithoutYear(e: Entry, nfc: Normalizer)
    requires Get(e, "year", "") == []
    ensures ResolveVenue(e, nfc) == VenueText(e, nfc)
  {
  }

  /** When the year does not occur in the venue text, removing it only strips
      spaces, commas and dots from the ends. */
  lemma VenueYearAbsent(e: Entry, nfc: Normalizer)
    requires Get(e, "year", "") != []
    requires NoOccurrence(VenueText(e, nfc), Get(e, "year", ""))
    ensures ResolveVenue(e, nfc) == Strip(VenueText(e, nfc), VenueTrim)
  {
    var v := VenueText(e, nfc);
    ReplaceAllNoMatch(v, Get(e, "year", ""), "");
    if v == [] {
      assert Strip(v, VenueTrim) == [];
    }
  }

  /** A venue text that holds the year once, at a place where it is the first
      occurrence and none follows, loses exactly that occurrence; the two sides
      are joined and stripped of spaces, commas and dots at the ends. */
  lemma VenueYearRemoved(e: Entry, nfc: Normalizer, a: string, b: string)
    requires Get(e, "year", "") != []
    requires VenueText(e, nfc) == a + Get(e, "year", "") + b
    requires forall i :: 0 <= i < |a| ==> !StartsWith(VenueText(e, nfc)[i..], Get(e, "year", ""))
    requires NoOccurrence(b, Get(e, "year", ""))
    ensures ResolveVenue(e, nfc) == Strip(a + b, VenueTrim)
  {
    OneYearRemoved(VenueText(e, nfc), Get(e, "year", ""), a, b);
  }

  lemma OneYearRemoved(v: string, year: string, a: string, b: string)
    requires year != [] && v == a + year + b
    requires forall i :: 0 <= i < |a| ==> !StartsWith(v[i..], year)
    requires NoOccurrence(b, year)
    ensures WithoutYear(v, year) == Strip(a + b, VenueTrim)
  {
    var u := year + b;
    assert v == a + u;
    assert ReplaceAll(u, year, "") == b by {
      ReplaceAllAtMatch(b, year, "");
      ReplaceAllNoMatch(b, year, "");
    }
    assert ReplaceAll(v, year, "") == a + b by {
      ReplaceAllSkipsClean(a, u, year, "");
    }
    assert v != [];
  }

  /** The year is removed wherever it occurs, inside an arXiv identifier too:
      eprint `2302.02023` from 2023 is shown as `arXiv:2302.0`. */
  lemma ArxivIdentifierLosesYear(nfc: Normalizer)
    ensures var e := map["archivePrefix" := "arXiv", "eprint" := "2302.02023", "year" := "2023"];
            ResolveVenue(e, nfc) == "arXiv:2302.0"
  {
    var e := map["archivePrefix" := "arXiv", "eprint" := "2302.02023", "year" := "2023"];
    assert VenueSource(e) == [];
    assert EqualsIgnoreCase(Get(e, "archivePrefix", ""), "arxiv") by {
      assert LowerAscii('X') == 'x';
    }
    assert VenueText(e, nfc) == "arXiv:2302.02023";
    IdentifierLosesYear();
  }

  lemma IdentifierLosesYear()
    ensures WithoutYear("arXiv:2302.02023", "2023") == "arXiv:2302.0"
  {
    var v := "arXiv:2302.02023";
    var a := "arXiv:2302.0";
    assert v == a + "2023" + [];
    forall i | 0 <= i < |a| ensures !StartsWith(v[i..], "2023") {
      var t := v[i..];
      if v[i] != '2' {
        FirstCharMismatch(t, "2023");
      } else {
        assert t[..4][1] == v[i + 1] != '0';
      }
    }
    OneYearRemoved(v, "2023", a, []);
    assert Strip(a, VenueTrim) == a;
  }

  // ---------------------------------------------------------------- the line

  /** What one line shows, already escaped where the source escapes it. */
  datatype Fields = Fields(title: string, link: Option<string>, authors: string, venue: string)

  /** Lines 149-187: the author list, the escaped normalised title (placeholders
      for a missing author or title), the link and the escaped venue. */
  function EntryFields(e: Entry, nfc: Normalizer): (f: Fields)
    ensures f.link == ResolveLink(e)
  {
    Fields(
      HtmlEscape.Escape(LatexToUnicode(Get(e, "title", NoTitle), nfc)),
      ResolveLink(e),
      Authors.FormatAuthors(Get(e, "author", Authors.NoAuthor), nfc),
      HtmlEscape.Escape(ResolveVenue(e, nfc)))
  }

  /** Every piece of record text placed in the line is escaped: none holds a raw
      `<`, `>`, `"` or `'`. */
  lemma FieldsEscaped(e: Entry, nfc: Normalizer)
    ensures var f := EntryFields(e, nfc);
            HtmlEscape.Safe(f.title) && HtmlEscape.Safe(f.authors) && HtmlEscape.Safe(f.venue)
  {
  }

  const AuthorsOpen: string := "<div class=\"pub-authors\">"
  const VenueOpen: string := "<div class=\"pub-venue\">"

  /** Line 190. */
  function RenderFields(f: Fields): (line: string)
    ensures StartsWith(line, "<li>")
  {
    "<li>" + TitleHtml(f.title, f.link) + AuthorsOpen + f.authors + "</div>" + VenueOpen + f.venue + "</div></li>"
  }

  function EntryLine(e: Entry, nfc: Normalizer): string {
    RenderFields(EntryFields(e, nfc))
  }
}
