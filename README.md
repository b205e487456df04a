# Publication list generator, modelled in Dafny

`scripts/bib_to_html.py` turns a BibTeX bibliography into the HTML body of a
publications page. It does three things:

- It rewrites LaTeX markup in bibliography fields into Unicode (`latex_to_unicode`).
- It formats author lists (`format_authors`).
- It groups the records by year and emits the page. Each year gets a header
  and a reversed ordered list, and the list numbers count down across the
  whole page.

This project models those three parts and proves what they promise.

Modules:

- `PyStr` (`pystr.dfy`): the Python `str` operations the script relies on,
  each written out as a scanner over `seq<char>`. These are `strip`,
  `replace`, `split`, `join`, `lower` against ASCII literals, string order,
  `int` on years and `str` on integers.
- `HtmlEscape` (`html_escape.dfy`): `html.escape`, with its inverse, and
  the fact that escaped text is safe inside an element and inside a
  double-quoted attribute.
- `Latex` (`latex.dfy`): the tables `_ACCENT_COMBINING`, `_SPECIAL_MACROS`
  and `_DASH_QUOTES`, and `latex_to_unicode`. That function is a pipeline of
  whole-string rewrites: macros, braced accents, bare accents, brace
  removal, dashes and quotes, then NFC.
- `Authors` (`authors.dfy`): `format_authors`. This covers the split on
  `\s+and\s+`, the per-name normalisation and reordering, escaping, and the
  placeholder.
- `Sorting` (`sorting.dfy`): `sorted` with a key, as an insertion sort over
  a strict weak order.
- `Entries` (`entries.dfy`): one record's `<li>` line, with the link, title,
  venue and authors of lines 147-190.
- `Listing` (`listing.dfy`): the orchestration in `main`. This covers
  grouping by year, the year sort key, the per-year author sort, the
  count-down numbering, and the method that builds the page line by line.

A record is a `map<string, string>` from BibTeX field names to values.

## Model

| member | source | states |
|---|---|---|
| Latex.AccentReplacement | scripts/bib_to_html.py:17-34 | An accent code followed by a letter becomes the letter and then the combining mark the table assigns to the code. |
| Latex.BracedAndBareAgree | scripts/bib_to_html.py:68-77 | `\c{x}` and `\cx` both become `x` followed by the combining mark of `c`, before NFC, for every accent code and every ASCII letter. |
| Latex.BracedForm | scripts/bib_to_html.py:74 | The braced command `\c{x}` on its own rewrites to the letter and its combining mark. |
| Latex.BareForm | scripts/bib_to_html.py:77 | The bare command `\cx` on its own rewrites to the letter and its combining mark. |
| Latex.UnknownCodesUntouched | scripts/bib_to_html.py:74-77 | Text that holds no accent command passes both accent substitutions unchanged. |
| Latex.AccentsCopyPlainPrefix | scripts/bib_to_html.py:74-77 | The accent substitutions work locally: text before the first backslash is copied as it is, followed by the rewrite of the rest. |
| Latex.MacroTableOrder | scripts/bib_to_html.py:36-43 | Because the table is applied in order, `\oe` becomes `œ` and not `ø` followed by `e`. |
| Latex.StripBraces | scripts/bib_to_html.py:80 | The result holds no brace, and text without braces is unchanged. |
| Latex.StripBracesKeeps | scripts/bib_to_html.py:80 | Every character other than a brace is in the result exactly when it is in the input. |
| Latex.EmDashBeforeEnDash | scripts/bib_to_html.py:45-47 | `---` becomes an em dash, not an en dash followed by a hyphen. |
| Latex.DashQuotesNoDoubleHyphen | scripts/bib_to_html.py:83-84 | After the digraph stage no two hyphens are adjacent. |
| Latex.ReplaceDashQuotes | scripts/bib_to_html.py:83-84 | Text without a hyphen, backtick or quote passes the digraph stage unchanged. |
| Latex.RewriteClean | scripts/bib_to_html.py:79-84 | Before NFC, the rewritten text of any input holds no brace and no `--`. |
| Latex.RewritePlain | scripts/bib_to_html.py:61-84 | Text without a backslash, brace, hyphen, backtick or quote reaches NFC unchanged. |
| Latex.EmptyUnchanged | scripts/bib_to_html.py:58-59 | Empty text is returned as is. |
| Latex.MacrosSkip | scripts/bib_to_html.py:63-65 | Text in which no backslash is followed by `s`, `a`, `o` or `l` in either case passes the macro table unchanged; a backslash as the last character is allowed (`C:\`). |
| Latex.NoBackslashSkip | scripts/bib_to_html.py:63-65 | Text without a backslash passes the macro table unchanged. |
| Latex.BracedAccents | scripts/bib_to_html.py:74 | Text that holds no accent command passes the braced substitution unchanged. |
| Latex.BareAccents | scripts/bib_to_html.py:77 | Text that holds no accent command passes the bare substitution unchanged. |
| HtmlEscape.Escape | scripts/bib_to_html.py:152 | Escaped text holds no raw `<`, `>`, `"` or `'`. |
| HtmlEscape.UnescapeEscape | scripts/bib_to_html.py:152 | Escaping loses nothing: decoding the five references gives the original text back. |
| HtmlEscape.EscapePlain | scripts/bib_to_html.py:187 | Text without an HTML-special character is not changed by escaping. |
| Authors.SplitRejoin | scripts/bib_to_html.py:95 | The parts of `re.split(r"\s+and\s+", ...)`, joined back with the separators the split removed, give the input back. |
| Authors.SplitAndNoSeparator | scripts/bib_to_html.py:95 | No part contains a separator. |
| Authors.SeparatorsWhole | scripts/bib_to_html.py:95 | Every removed separator is a whole match: whitespace, `and` in any case, whitespace. |
| Authors.SplitTwo | scripts/bib_to_html.py:95 | `a and b` splits into exactly `[a, b]`, given that `a` ends and `b` starts with a non-whitespace character, `a + " "` holds no separator and `b` holds none. |
| Authors.SplitAnd | scripts/bib_to_html.py:95 | The split gives at least one part, and the first part is a prefix of the input. |
| Authors.SplitAtLeftmost | scripts/bib_to_html.py:95 | The split is leftmost-first: text in which no separator starts, followed by a separator match, is the first part, and the remaining parts are the split of what follows the match. |
| Authors.SplitWhole | scripts/bib_to_html.py:95 | Text in which no separator starts is a single part. |
| Authors.CollapseSpaces | scripts/bib_to_html.py:103 | `re.sub(r"\s+", " ", p)` keeps every non-space character in order, keeps emptiness, and a text that starts with whitespace still starts with one space. |
| Authors.CollapsedRuns | scripts/bib_to_html.py:103 | After collapsing, every whitespace character is a single space with no whitespace after it. |
| Authors.CollapseIdempotent | scripts/bib_to_html.py:103 | Collapsing twice is the same as collapsing once. |
| Authors.CollapseRun | scripts/bib_to_html.py:103 | A run of whitespace before text that does not start with whitespace becomes exactly one space. |
| Authors.CollapseAppend | scripts/bib_to_html.py:103 | Text that ends in a non-space character collapses independently of what follows it. |
| Authors.CollapseBetweenWords | scripts/bib_to_html.py:103 | A non-empty whitespace run between two words becomes exactly one space, so words are never joined. |
| Authors.Reorder | scripts/bib_to_html.py:105-110 | A name without a comma is not reordered, and neither is one whose text before or after the first comma is blank once trimmed. |
| Authors.ReorderAt | scripts/bib_to_html.py:105-110 | A name with a comma whose two trimmed sides are both non-blank becomes the trimmed right side, a space, then the trimmed left side. |
| Authors.ReorderSwaps | scripts/bib_to_html.py:104-110 | `Family, Given` becomes `Given Family`. |
| Authors.NormalizeNamesEmpty | scripts/bib_to_html.py:96-111 | The loop keeps no name exactly when every segment is blank. |
| Authors.FormatAuthorsPlaceholder | scripts/bib_to_html.py:92-93 | With no author text, or only blank segments, the result is `No author specified`. |
| Authors.FormatAuthors | scripts/bib_to_html.py:91-113 | The formatted author list never holds a raw `<`, `>`, `"` or `'`, whatever the input. How the names are joined is stated by `Authors.FormatManyNames`. |
| Authors.FormatTwoNames | scripts/bib_to_html.py:91-113 | `A and B` is shown as `A, B`, given two plain names (no markup, comma or HTML-special character, single spaces, non-whitespace ends) that NFC leaves alone, where `A + " "` holds no separator and `B` holds none. |
| Authors.FormatManyNames | scripts/bib_to_html.py:91-113 | Any non-empty list of plain names that NFC leaves alone, joined by ` and `, is shown as the same names joined by `, `, given that no name followed by a space holds a separator. |
| Authors.SplitJoined | scripts/bib_to_html.py:95 | Such names joined by ` and ` split back into exactly the same list. |
| Authors.JoinableEach | scripts/bib_to_html.py:91-113 | The condition on the list in the two rows above holds exactly when every name is plain, NFC leaves it alone, and it holds no separator with a space after it. |
| Authors.PlainNamesUnchanged | scripts/bib_to_html.py:97-111 | Segments that are already normal form pass through the loop unchanged. |
| Authors.CollapseSingleSpaces | scripts/bib_to_html.py:103 | Single-spaced text is not changed by collapsing. |
| Sorting.Sort | scripts/bib_to_html.py:134 | `sorted` returns a permutation of its input in which no element is smaller than an earlier one. |
| Sorting.InsertSorted | scripts/bib_to_html.py:145 | Inserting into a sorted list under a strict weak order keeps it sorted. |
| Entries.ResolveLink | scripts/bib_to_html.py:156-163 | A link, when there is one, is never empty. |
| Entries.DoiOverridesUrl | scripts/bib_to_html.py:157-163 | With a non-empty `doi`, the `url` field has no effect on the link. |
| Entries.DoiLink | scripts/bib_to_html.py:158-163 | With a non-empty `doi`, the link is the DOI itself when it starts with `http` in any case, and `https://doi.org/` followed by the DOI otherwise; either way it starts with `http`. |
| Entries.UrlLink | scripts/bib_to_html.py:156 | Without a `doi`, there is a link exactly when `url` is non-empty, and the link is that `url`. |
| Entries.TitleKind | scripts/bib_to_html.py:174-178 | The title is an `<a ...>` exactly when there is a link and a `<span ...>` exactly when there is none. |
| Entries.HrefQuoted | scripts/bib_to_html.py:175-176 | The `href` value is the escaped link, which cannot close the attribute early. |
| Entries.ResolveVenue | scripts/bib_to_html.py:181-186 | With a year, the venue neither starts nor ends with a space, comma or dot. |
| Entries.JournalFirst | scripts/bib_to_html.py:181 | A non-empty `journal` hides `booktitle`. |
| Entries.BooktitleSecond | scripts/bib_to_html.py:181 | Without a `journal`, `booktitle` is used as if it were the journal. |
| Entries.ArxivOnlyAsFallback | scripts/bib_to_html.py:183-184 | When the journal or booktitle gives a non-empty venue, `archivePrefix` and `eprint` have no effect. |
| Entries.ArxivFallback | scripts/bib_to_html.py:183-186 | With no venue text and an arXiv prefix in any case, the venue text is `arXiv:` followed by the eprint (`None` when it is missing); year removal then applies to it like to any venue. |
| Entries.SameVenue | scripts/bib_to_html.py:181-186 | The venue depends only on the venue source, `archivePrefix`, `eprint` and `year`. |
| Entries.VenueWithoutYear | scripts/bib_to_html.py:185 | Without a year, the venue text is not trimmed. |
| Entries.VenueYearAbsent | scripts/bib_to_html.py:185-186 | When the year does not occur in the venue, only the spaces, commas and dots at its ends are removed. |
| Entries.VenueYearRemoved | scripts/bib_to_html.py:185-186 | A venue with a single occurrence of the year, which is also the first one, loses exactly that occurrence, and the rest is stripped of spaces, commas and dots at the ends. |
| Entries.ArxivIdentifierLosesYear | scripts/bib_to_html.py:183-186 | Year removal also cuts into arXiv identifiers: eprint `2302.02023` from 2023 shows as `arXiv:2302.0`. |
| Entries.FieldsEscaped | scripts/bib_to_html.py:149-187 | The title, authors and venue put into the line are HTML-safe. |
| Listing.InYearMembers | scripts/bib_to_html.py:124-126 | A year's group holds exactly the records whose `year` (or `Undated`) is that year. |
| Listing.YearsOfMembers | scripts/bib_to_html.py:124-126 | A year is a key of the grouping exactly when its group is non-empty. |
| Listing.YearsOfDistinct | scripts/bib_to_html.py:124-126 | No year is a key twice. |
| Listing.GroupSizesTotal | scripts/bib_to_html.py:138 | The group sizes add up to the number of records. |
| Listing.SumSizesPermutation | scripts/bib_to_html.py:138 | The total does not depend on the order of the years. |
| Listing.YearOrder | scripts/bib_to_html.py:128-134 | `_year_sort_key` induces a strict weak order on years. |
| Listing.NumericYears | scripts/bib_to_html.py:128-132 | A year that is a number written out in decimal gets a numeric key with that value. Two such years sort larger first, and both sort before any year that is not a number. |
| Listing.SortYears | scripts/bib_to_html.py:134 | The sorted years are a permutation of the keys, in key order. |
| Listing.SortedYearsMembers | scripts/bib_to_html.py:134 | The years shown are exactly the years that have records, each at most once. |
| Listing.SortedYearsDistinct | scripts/bib_to_html.py:134 | No year heads two groups. |
| Listing.SortedYearsOrder | scripts/bib_to_html.py:128-134 | Years `int` accepts come first, larger values first, and the other years follow in string order. |
| Listing.SortByAuthor | scripts/bib_to_html.py:145 | A year's papers are a permutation of its records, ordered by the raw `author` field. |
| Listing.PapersOrder | scripts/bib_to_html.py:145 | The papers of a year are its records, and no paper's author sorts before an earlier paper's. |
| Listing.PlanGroups | scripts/bib_to_html.py:139-143 | The plan has one group per sorted year. |
| Listing.PlanAt | scripts/bib_to_html.py:139-143 | Group `i` shows year `i` with its papers and starts at the initial counter minus the papers of the groups before it. |
| Listing.PlanStarts | scripts/bib_to_html.py:138-143 | On the page, group `i`'s list starts at the number of records minus the records of the earlier groups. |
| Listing.TotalIsSumSizes | scripts/bib_to_html.py:193 | The papers shown under a list of years, by which the counter drops, add up to the sizes of those years' groups. |
| Listing.CounterEndsAtZero | scripts/bib_to_html.py:138-193 | After the last group, `current_number` is zero. |
| Listing.NumbersOfPlan | scripts/bib_to_html.py:140-193 | The groups' numbers run on from one list to the next: together they count down from the first start, once per paper. |
| Listing.PageNumbering | scripts/bib_to_html.py:138-193 | Read top to bottom, the papers show N, N - 1, ..., 1, where N is the number of records, so each of 1..N appears exactly once. |
| Listing.RenderedLineCount | scripts/bib_to_html.py:140-192 | The page has one line per record plus three per year. |
| Listing.GroupByYear | scripts/bib_to_html.py:124-126 | The loop builds a map whose keys are the years in first-seen order and whose values are each year's records in input order. |
| Listing.CountRecords | scripts/bib_to_html.py:138 | The sum of the group lengths is the number of records. |
| Listing.RenderEntries | scripts/bib_to_html.py:147-190 | The inner loop emits one line per paper, in order. |
| Listing.RenderGroups | scripts/bib_to_html.py:140-193 | The loop over the years emits exactly the rendering of the plan, with each list start taken from the count-down. |
| Listing.GenerateContent | scripts/bib_to_html.py:123-196 | The generated content is the lines of the page plan joined with newlines. |
| PyStr.Strip | scripts/bib_to_html.py:186 | `strip(chars)` leaves neither end in the stripped set, and text already clean at both ends is unchanged. |
| PyStr.StripWindow | scripts/bib_to_html.py:186 | The stripped text is a contiguous window of the input, and everything cut off on either side is in the stripped set. |
| PyStr.SplitFirst | scripts/bib_to_html.py:106 | `p.split(",", 1)` gives the text before the first comma, which holds no comma, and the text after it; joined with the comma they give `p` back. |
| PyStr.ReplaceAllNoMatch | scripts/bib_to_html.py:186 | Replacing a pattern that does not occur changes nothing. |
| PyStr.ReplaceAllSkipsPrefix | scripts/bib_to_html.py:65 | A prefix that does not contain the pattern's first character is copied unchanged and replacement continues after it. |
| PyStr.ReplaceAllSkipsClean | scripts/bib_to_html.py:186 | A prefix at none of whose positions the pattern starts is copied unchanged. |
| PyStr.ReplaceAllAtMatch | scripts/bib_to_html.py:186 | An occurrence at the front is replaced, and scanning resumes right after it. |

## Left out

- Reading the `.bib` file, parsing it with `bibtexparser`, reading the template, substituting `PLACEHOLDER` and writing the output file (lines 119-121 and 197-201) are I/O. The model starts from the parsed list of records and ends at the generated content.
- The `try`/`except` around `main` and the two `print` calls (lines 202-205) only report to the console and are not modelled.
- `unicodedata.normalize('NFC', ...)` needs the Unicode composition tables, so it is a parameter `nfc` of every operation that uses it. Facts about the rewritten text are stated before NFC.
- `str.lower()` appears only in comparisons with the ASCII literals `http` and `arxiv`, and `re.IGNORECASE` only with `and`. The model lowercases ASCII letters only. No other character lowercases or case-folds to one of those letters, so the comparisons decide the same questions.
- Listing.KeyOf: `int(y)` is modelled as accepting a non-empty run of ASCII digits. Python also accepts surrounding whitespace, a sign, underscores between digits and non-ASCII decimal digits; such years sort as labels here.
- Sorting.Sort: `sorted` is stable. The insertion sort is stable, but stability is not stated as a lemma. The contracts give permutation and order only.
- The commented-out link logic at lines 166-171 is not code and is not modelled.
- The year header at line 141 inserts the year without escaping, as the source does; no safety property is claimed for it.
- Entries.JournalFirst: a non-empty `journal` hides `booktitle` only. It does not hide the arXiv fields, because a journal such as `{}` rewrites to empty text, and then the arXiv fallback applies.
- Entries.VenueYearRemoved: it covers a single occurrence of the year only. With several occurrences, each is removed in one left-to-right pass.
- Entries.VenueYearAbsent: `replace` removes every occurrence of the year in one pass, but the text left behind may hold a new occurrence (the year `2023` removed from `22023023` leaves `2023`). The lemma covers the case where the year does not occur in the venue.
