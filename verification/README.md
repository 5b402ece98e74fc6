# Markdown extensions: citations, metadata and fenced code blocks

A Dafny model of three Python-Markdown extensions, with the properties their code
promises proved about the model.

- **Citations** (`markdownextensions/cite.py`). This is a Wikipedia-style citation engine.
  - A bibliography file of `{{cite ... | key = value | ...}}` templates is parsed into entries (`WikiParse`).
  - Each entry renders to an HTML reference line (`Entries`).
  - A shorthand such as `Mary 2004, p. 23` is matched against the entries through the `REFTEX_RX` pattern (`RefText`, `Citations`).
  - The citation list (`Registry`) does the rest:
    - it gives each cited entry the next footnote number when it is first cited;
    - it records an occurrence id `ref<n>-<k>` for every citation;
    - it refuses unknown and ambiguous references;
    - it lists the cited entries as the bibliography.
  - `Render` turns a `{{...}}` in the text into a footnote marker or the bibliography list, including the lettered back-links.
- **Metadata** (`markdownextensions/metadata.py`). Leading `Key: value` lines are moved from the document into a dictionary, up to the first blank line.
- **Code blocks** (`markdownextensions/codeblocks.py`). A block that opens with three backticks collects code up to the closing fence, which may lie several blocks further on. Text after the fence goes back to the block queue.

Each file is one module:

| file | module |
|---|---|
| `wrappers.dfy` | `Option`, `Result` |
| `text.dfy` | Python string operations: `strip`, ASCII `lower`, `find`/`in`, `split`, `join`, `str(n)` |
| `html.dfy` | `cgi.escape` and `urllib.quote`, each with an inverse |
| `wikiparse.dfy` | `wikipedia_parse` |
| `entries.dfy` | `Entry`: `authors`, `work`, `get_html` |
| `reftext.dfy` | the `REFTEX_RX` match, and `\w+` word tokens |
| `citations.dfy` | `Citation`: `matches`, `set_fnnum`, `use`, `bibentry`, `extract_pages`, `load` |
| `registry.dfy` | `lookup` and `CitationList` |
| `render.dfy` | `InlineCitations.handleMatch` and `bibliography` |
| `metadata.dfy` | `MetaDataParser.run` |
| `codeblocks.dfy` | `CodeBlockParser.test` and `run` |

How the Python objects become data:

- Python shares mutable `Citation` objects between `known` and `used`. Here the citation list stores `known` as a sequence. `used` holds positions in it.
- Every operation returns the new state together with a `Result`.
- Each exception becomes an error value:
  - `RuntimeError` becomes `Unknown` or `Ambiguous`.
  - `AssertionError` becomes `InvalidState`.
  - The `ValueError` of a row without `=` becomes `Malformed`.
  - The `KeyError` of an entry without a title becomes `MissingTitle`.
  - The `AttributeError` of a code block whose first line has no newline becomes `NoNewline`.
  - An unclosed block becomes `NotClosed`.
- A citation's `bibid` is always `ref<fnnum>` and its `next_citeid` is always the number of its occurrence ids. Both are therefore derived, not stored.

Where a description of the system and its code differ, the model follows the code:

- The module docstring of `cite.py` says the bibliography is sorted by year and author. `get_bibliography` lists citations in order of first use, and so does `Registry.GetBibliography`.
- Reference texts only have their newlines turned into spaces (`handleMatch`). They are not stripped.
- Two already-used citations that both match a text raise "Ambiguous reference" before the bibliography is consulted.
- Beyond 26 occurrences, `zip` silently drops the extra back-links. No further labels are invented.

## Model

| member | source | states |
|---|---|---|
| Text.StripEmptyIffBlank | markdownextensions/metadata.py:27 | `strip()` yields the empty string exactly when the line consists of whitespace only. |
| Text.TrimLeftSpec | markdownextensions/cite.py:400-401 | Left stripping removes a whitespace-only prefix and nothing more: the result is a suffix of the input that does not start with whitespace. |
| Text.TrimRightSpec | markdownextensions/cite.py:400-401 | Right stripping removes a whitespace-only suffix: the result is a prefix of the input that does not end with whitespace. |
| Text.Lower | markdownextensions/codeblocks.py:42-43 | Lower-casing keeps the length and lower-cases each character in place. |
| Text.SplitOnce | markdownextensions/codeblocks.py:35 | `split(sep, 1)` fails exactly when `sep` does not occur. Otherwise the parts reassemble to the input around the first occurrence of `sep`. |
| Text.SplitJoin | markdownextensions/cite.py:397 | Splitting on a character and joining with it again gives back the original string. No piece contains the separator. |
| Text.JoinContains | markdownextensions/cite.py:356 | Every joined part occurs in the joined string. |
| Text.JoinOrder | markdownextensions/cite.py:356 | `", ".join` keeps the order of its parts: an earlier part is followed by the separator and, later on, by every later part. |
| Text.NatToStringRoundTrip | markdownextensions/cite.py:242 | `str(n)` is a string of decimal digits whose value is `n`. |
| Text.NatToStringInjective | markdownextensions/cite.py:228 | Different numbers print differently, so `ref<n>` ids never collide. |
| Html.EscapeSafe | markdownextensions/cite.py:285 | `cgi.escape` output contains no `<` or `>`. With `quote=True` it contains no `"` either. |
| Html.EscapeRoundTrip | markdownextensions/cite.py:290 | Unescaping the entities undoes `cgi.escape`, with or without `quote`. |
| Html.UrlQuoteSafe | markdownextensions/cite.py:314 | `urllib.quote` output contains only characters safe in a URL and `%` escapes. Non-ASCII characters are the exception. |
| Html.UrlQuoteRoundTrip | markdownextensions/cite.py:322 | Percent-decoding undoes `urllib.quote`. |
| WikiParse.Templates | markdownextensions/cite.py:395 | The non-greedy `{{(.*?)}}` yields template bodies that never contain `}}`. |
| WikiParse.TemplatesRoundTrip | markdownextensions/cite.py:395 | Templates written one after another with `{{`/`}}` are found again, in order and unchanged. |
| WikiParse.RowFieldPresent | markdownextensions/cite.py:400 | A row can be split into key and value exactly when it contains `=`. |
| WikiParse.AddFields | markdownextensions/cite.py:399-401 | Adding rows fails exactly when some row has no `=`. On success, each key maps to the value of its last row and untouched keys keep their value. |
| WikiParse.ParseTemplateFails | markdownextensions/cite.py:397-401 | A template is rejected exactly when one of its rows after the first lacks `=`. |
| WikiParse.ParseTemplateNamed | markdownextensions/cite.py:396-398 | A parsed entry always has `macroname`, which is the first row unless a later row sets that key. |
| WikiParse.ParseAll | markdownextensions/cite.py:394-402 | Parsing a bibliography succeeds exactly when every template parses. The entries then come in template order. |
| Entries.NonEmpty | markdownextensions/cite.py:341-355 | Only the empty name fields are dropped: the result has no empty string, keeps every non-empty one and holds nothing else. |
| Entries.NonEmptyAppend | markdownextensions/cite.py:341-355 | Filtering works piece by piece, so the kept strings keep their order. A single string is kept exactly when it is non-empty. |
| Entries.FirstLastSpec | markdownextensions/cite.py:347-353 | The first/last part is `first + " " + last` when both are set, and otherwise whichever is set. It is empty exactly when both are. |
| Entries.AuthorsSpec | markdownextensions/cite.py:333-356 | `authors()` is empty exactly when all name fields are empty. It contains every name field. |
| Entries.AuthorsOrder | markdownextensions/cite.py:341-356 | Present name parts appear in the order author, authors, coauthors, first/last, others. Each is followed by `", "` before any later one. |
| Entries.AuthorsOnly | markdownextensions/cite.py:341-356 | A name part that is the only one present is the whole author string, with nothing added. |
| Entries.AuthorsHasPart | markdownextensions/cite.py:340-356 | Each collected name part occurs in the joined author string. |
| Entries.FirstNonEmptySpec | markdownextensions/cite.py:364-370 | `work()` is the first non-empty field of `work`, `journal`, …, `encyclopedia`, and empty only when all of them are. |
| Entries.TitleOnlyHtml | markdownextensions/cite.py:266-331 | An entry with nothing but a title renders as the italic title followed by a full stop. |
| Entries.DateRemoval | markdownextensions/cite.py:284-306 | The date contributes exactly one segment: removing it leaves the rest of the reference line unchanged. |
| Entries.DateInAuthorPart | markdownextensions/cite.py:284-294 | An entry with authors and a date starts with the escaped authors, the date in parentheses, `. ` and then the title. |
| Entries.DateAfterWork | markdownextensions/cite.py:289-305 | An entry with a date but no authors starts with the title and the work segment, followed directly by ` date.`. |
| Entries.UrlWrapsTitle | markdownextensions/cite.py:289-294 | A URL wraps the title in a link and changes nothing else in the line. |
| Entries.VolumeIssuePagesNeedWork | markdownextensions/cite.py:295-303 | Volume, issue and pages are shown only when there is a work: without one, dropping them changes nothing. |
| Entries.RefsLayout | markdownextensions/cite.py:307-326 | The DOI and ISSN links appear when present, separated by a comma when both are there, followed by a full stop. Without either, nothing is added. |
| RefText.Line | markdownextensions/cite.py:193 | `(.*)` without DOTALL captures the text up to the first newline. |
| RefText.LastSplit | markdownextensions/cite.py:193 | The greedy first group backs off to the last possible `name year` split. |
| RefText.ParseRefFound | markdownextensions/cite.py:193 | The pattern matches exactly when the text starts with a name part followed by a space and a date character. |
| RefText.ParseRefGroups | markdownextensions/cite.py:193 | A match's groups satisfy the group description: the longest name part, the whole date run, and the rest of the line after `, ` when present. |
| RefText.GroupsUnique | markdownextensions/cite.py:193 | At most one triple of groups fits a text, so the match is determined. |
| RefText.ParseFormat | markdownextensions/cite.py:193 | A shorthand written as `names year[, pages]` is read back as exactly those groups. |
| RefText.ParsePrefix | markdownextensions/cite.py:193 | The pattern is anchored at the start only: the matched shorthand is a prefix of the text. |
| RefText.WordTokens | markdownextensions/cite.py:218 | `findall(r"(\w+)")` returns non-empty runs of word characters. |
| RefText.WordTokensCover | markdownextensions/cite.py:218 | The tokens together are all the word characters of the text, in order. |
| RefText.WordTokensOccur | markdownextensions/cite.py:218 | Every token occurs in the text. |
| Citations.NewCitation | markdownextensions/cite.py:195-204 | A new citation has no footnote number and no occurrences, and carries its entry's title and HTML. |
| Citations.LoadPoolSpec | markdownextensions/cite.py:186-189 | Loading yields one unused citation per template, each with its template's title. Loading fails exactly when some template is malformed or has no title. |
| Citations.MatchesTitle | markdownextensions/cite.py:206-208 | The exact title always names its citation. |
| Citations.MatchesNeedsShape | markdownextensions/cite.py:210-212 | A text that is neither the title nor of shorthand shape matches nothing. |
| Citations.MatchesTitleShorthand | markdownextensions/cite.py:214-217 | A shorthand whose name part is the title matches, whatever the year. |
| Citations.MatchesShorthand | markdownextensions/cite.py:206-223 | Any other shorthand matches exactly when every name word occurs in the authors and the year occurs in the entry's date, if it has one. |
| Citations.NameYearMatches | markdownextensions/cite.py:218-223 | Any digit-free word of an entry's name field, such as the surname in `Mary Smith`, followed by a year its date contains (or any year if it has no date), names the entry. |
| Citations.CiteIdInjective | markdownextensions/cite.py:233-234 | An occurrence id `ref<n>-<k>` determines both `n` and `k`. |
| Citations.SetFnnum | markdownextensions/cite.py:225-228 | Setting the footnote number succeeds only on an unnumbered citation and changes nothing else. |
| Citations.Use | markdownextensions/cite.py:230-245 | A use needs a number. It appends the next occurrence id `ref<n>-<k>`, where `k` counts earlier uses, and returns that id with `ref<n>`. The HTML is the entry's own exactly when the text has no non-empty page reference; otherwise that reference is appended as ` pages.`. |
| Citations.UseShowsPages | markdownextensions/cite.py:237-239 | A page reference in the shorthand is appended to the footnote's HTML. |
| Citations.UseWithoutPages | markdownextensions/cite.py:240-241 | Without a page reference, the footnote shows the entry's HTML unchanged. |
| Citations.MakeBibEntry | markdownextensions/cite.py:247-252 | A bibliography entry needs a number. It carries the number, `ref<n>`, the occurrence ids and the HTML. |
| Registry.Hits | markdownextensions/cite.py:405-408 | The matching candidates are exactly those candidates whose entry the text matches. |
| Registry.LookupHits | markdownextensions/cite.py:405-413 | `lookup` fails as ambiguous once a second match is met. Otherwise it returns the single match, or none. |
| Registry.LookupSpec | markdownextensions/cite.py:405-413 | Lookup is ambiguous exactly when two or more candidates match, empty exactly when none does, and returns the one match otherwise. |
| Registry.InitValid | markdownextensions/cite.py:135-138 | A fresh citation list satisfies the numbering invariant. |
| Registry.NoDuplicates | markdownextensions/cite.py:164-167 | No citation appears twice among the used ones. |
| Registry.NumberedIffUsed | markdownextensions/cite.py:161-168 | A citation has a footnote number exactly when it has been used. |
| Registry.UsedMatchIsHit | markdownextensions/cite.py:158-160 | A used citation that matches the text is found by the first search. |
| Registry.UseAgain | markdownextensions/cite.py:158-160 | Citing a used entry again keeps its number, adds its next occurrence id and leaves everything else unchanged. |
| Registry.UseFresh | markdownextensions/cite.py:161-168 | First use of an entry gives it the next footnote number and the id `ref<n>-0`, appends it to the used list and advances the counter. |
| Registry.UseAmbiguousUsed | markdownextensions/cite.py:158 | Two matching used citations make the reference ambiguous, with no change of state. |
| Registry.UseAmbiguousKnown | markdownextensions/cite.py:161-163 | Two matching entries in the bibliography make the reference ambiguous. Only the bibliography has been loaded. |
| Registry.UseUnknown | markdownextensions/cite.py:161-169 | A text matching no entry is an unknown reference. Only the bibliography has been loaded. |
| Registry.UseKeepsValid | markdownextensions/cite.py:140-169 | Every use keeps the numbering invariant. It never hits a failed assertion, and a failed use assigns no number. |
| Registry.UseRecords | markdownextensions/cite.py:140-169 | A successful use returns the newest occurrence id of a used, numbered citation, with that citation's `ref<n>`, number and HTML. |
| Registry.UseAllValid | markdownextensions/cite.py:140-169 | Any sequence of uses keeps the invariant and never fails an assertion. |
| Registry.UniqueCiteIds | markdownextensions/cite.py:233-236 | Occurrence ids are unique across the whole document. |
| Registry.BibListSpec | markdownextensions/cite.py:184 | The bibliography entries are those of the given citations, in order. |
| Registry.BibliographyOrder | markdownextensions/cite.py:171-184 | The bibliography lists the used citations in order of first use: entry `j` has number `j+1` and id `ref<j+1>`. |
| Render.LetteredLinks | markdownextensions/cite.py:122-128 | `zip` pairs the k-th occurrence with the k-th letter, up to the shorter of the two. |
| Render.BacklinksSpec | markdownextensions/cite.py:114-128 | A single occurrence gets one caret link. Otherwise the links are lettered `a`… and reach every occurrence up to 26. |
| Render.NewlinesToSpaces | markdownextensions/cite.py:89 | Newlines become spaces and nothing else changes. |
| Render.BibliographyDirective | markdownextensions/cite.py:84-131 | `{{bibliography}}` in any letter case changes no state and lists the used citations in order, numbered from 1. |
| Render.FootnoteLinksBack | markdownextensions/cite.py:84-131 | A footnote marker links to an existing bibliography item with the same number, and that item's back-links lead to the marker. |
| Metadata.ParseHeader | markdownextensions/metadata.py:30-31 | A matched line yields a non-empty key of `[A-Za-z0-9_-]` and a one-line value. |
| Metadata.LineValue | markdownextensions/metadata.py:30 | The value has no newline and starts where the text after the padding starts. |
| Metadata.ParseFormat | markdownextensions/metadata.py:30-31 | Every well-formed `Key: value` line reads back, whatever its padding and with or without a final newline. |
| Metadata.FormatParse | markdownextensions/metadata.py:30-31 | Every line that matches is such a formatted header, so the match is the inverse of formatting. |
| Metadata.HeaderCount | markdownextensions/metadata.py:26-33 | The metadata block is the longest run of non-blank header lines. |
| Metadata.StoreKeys | markdownextensions/metadata.py:34 | The dictionary gains exactly the keys of the header lines. |
| Metadata.StoreLastWins | markdownextensions/metadata.py:34 | A repeated key keeps the value of its last line. |
| Metadata.StoreUntouched | markdownextensions/metadata.py:34 | Keys no line names keep their previous value, or stay absent. |
| Metadata.Run | markdownextensions/metadata.py:25-36 | The header lines are stored and removed. A blank line that ends the block is removed too; a non-header line is kept. |
| Metadata.BlockRoundTrip | markdownextensions/metadata.py:25-36 | A written block of headers followed by a blank line reads back as exactly those headers. |
| CodeBlocks.Open | markdownextensions/codeblocks.py:23-25 | The opening line is found exactly when the block has a newline. The language is the newline-free text after the backticks. |
| CodeBlocks.FirstFenced | markdownextensions/codeblocks.py:29-33 | The loop stops at the first block that holds a closing fence. |
| CodeBlocks.Run | markdownextensions/codeblocks.py:21-44 | The block-by-block loop computes what `Parse` describes. |
| CodeBlocks.ParseFormat | markdownextensions/codeblocks.py:21-44 | Code written as a fenced block over any number of blocks is read back whole, and the text after the fence is returned to the queue. |
| CodeBlocks.NoNewlineIff | markdownextensions/codeblocks.py:23-24 | The parser fails for want of an opening line exactly when the first block has no newline. |
| CodeBlocks.NotClosedIff | markdownextensions/codeblocks.py:29-33 | The block is left unclosed exactly when no block from the opening line on holds a fence. |
| CodeBlocks.Progress | markdownextensions/codeblocks.py:35-38 | Each successful run consumes input, so the block parser cannot loop. |

## Left out

- Reading the bibliography file named by the `BIBLIOGRAPHY` environment variable (`load`): the pool of citations is a parameter of `Registry.Init`. `Citations.LoadPool` models what is built from the file's text, and the `loaded` flag records when the file would be read.
- Element-tree construction (`etree.Element`, `SubElement`, `AtomicString`): footnotes, bibliography items and code elements are plain datatypes carrying the same ids, hrefs, labels and texts.
- `AddCSS`, the extension classes, `extendMarkdown` and `reset`: registration glue with no logic of its own.
- `coins.py`: not part of this model.
- Text.Lower: lower-cases ASCII letters only. Python's unicode `lower()` also maps other letters. A language name, a `{{BIBLIOGRAPHY}}` directive or a template key (`WikiParse.RowField`, `cite.py:401`) written with non-ASCII capitals therefore comes out differently.
- Html.UrlQuoteRoundTrip, Html.UrlQuoteSafe, Entries.DoiLink, Entries.IssnLink: non-ASCII characters in a DOI or ISSN are passed through unchanged. Python 2's `urllib.quote` raises `KeyError` on them, so `get_html` fails where the model renders a link.
- The Python 2 `str`/`unicode` split and UTF-8 decoding: text is a sequence of characters throughout.
- The metadata dictionary is passed in and returned, rather than being a field of the extension object.
- Render.FootnoteLinksBack: the back-link to the marker is stated only when the item has fewer than 26 back-links, because `zip` drops occurrences beyond the 26th.
- Registry.UseAll: requires the numbering invariant. It describes a document pass starting from `Registry.Init`, which `Registry.InitValid` shows satisfies it.
- Registry.Use, Registry.GetBibliography, Render.HandleMatch: require that the used positions lie inside the pool, which holds for every state built from `Registry.Init`.
- `tests/test_cite.py` is not modelled. The examples in the metadata and code-block tests are instances of `Metadata.BlockRoundTrip` and `CodeBlocks.ParseFormat`.
