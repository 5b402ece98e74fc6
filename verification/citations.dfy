/** `Citation`: one bibliography entry as the citation list tracks it -- whether a
    reference text names it, its footnote number and the ids of its occurrences. */
module Citations {
  import opened Wrappers
  import opened Text
  import opened RefText
  import opened WikiParse
  import opened Entries

  /** What a citation keeps of its entry when it is created: the rendered html and
      the date, authors and title it matches reference texts against. */
  datatype Source = Source(html: string, date: string, authors: string, title: string)

  function SourceOf(e: Entry): Source {
    Source(GetHtml(e), Date(e), Authors(e), Title(e))
  }

  /** `fnnum` is `None` until the citation is first used. The `bibid` attribute is
      `ref<fnnum>` and is set together with the number, and `next_citeid` is always
      the number of occurrence ids, so neither is stored separately. */
  datatype Citation = Citation(source: Source, fnnum: Option<nat>, citeids: seq<string>)

  /** The exceptions the citation engine raises: `RuntimeError` for an unknown or an
      ambiguous reference, `AssertionError` for a footnote number set twice or used
      unset, and the errors of reading the bibliography. */
  datatype CiteError =
    | Unknown(reftext: string)
    | Ambiguous(reftext: string)
    | InvalidState
    | Malformed
    | MissingTitle

  /** `Citation(entry)` for a freshly loaded entry. */
  function NewCitation(e: Entry): (c: Citation)
    ensures c.fnnum.None? && c.citeids == []
    ensures c.source.title == Title(e) && c.source.html == GetHtml(e)
  {
    Citation(SourceOf(e), None, [])
  }

  /** The bibliography text as the list of citations `load` builds: the templates in
      order, stopping at the first one that does not parse or has no title. */
  function LoadPool(data: string): Result<seq<Citation>, CiteError> {
    ParseAll(Templates(data), LoadOne)
  }

  function LoadOne(body: string): Result<Citation, CiteError> {
    match ParseTemplate(body)
    case Failure(_) => Failure(Malformed)
    case Success(r) => if "title" in r then Success(NewCitation(r)) else Failure(MissingTitle)
  }

  /** A loaded bibliography has one unused citation per template, each carrying
      the title of its template. */
  lemma LoadPoolSpec(data: string)
    ensures var r := LoadPool(data);
      r.Success? ==>
        && |r.value| == |Templates(data)|
        && forall k :: 0 <= k < |r.value| ==>
             r.value[k].fnnum.None? && r.value[k].citeids == [] &&
             ParseTemplate(Templates(data)[k]).Success? &&
             var rec := ParseTemplate(Templates(data)[k]).value;
             "title" in rec && r.value[k].source.title == rec["title"]
    ensures LoadPool(data).Failure? <==> exists k :: 0 <= k < |Templates(data)| && LoadOne(Templates(data)[k]).Failure?
  {
    var r := LoadPool(data);
    var bodies := Templates(data);
    if r.Failure? {
      var k :| 0 <= k < |bodies| && !LoadOne(bodies[k]).Success?;
    }
    if r.Success? {
      forall k | 0 <= k < |r.value|
        ensures ParseTemplate(Templates(data)[k]).Success?
      {
        assert LoadOne(Templates(data)[k]) == Success(r.value[k]);
      }
    }
  }

  /** `matches(reftext)`: the whole text is the title; or it has the shorthand shape
      and either its name part is the title, or every word of the name part occurs
      in the authors and (when the entry has a date) the date part occurs in it. */
  predicate Matches(src: Source, reftext: string) {
    if reftext == src.title then true
    else match ParseRef(reftext)
      case None => false
      case Some(m) =>
        if m.names == src.title then true
        else NamesIn(WordTokens(m.names), src.authors) && (src.date == "" || Contains(src.date, m.year))
  }

  /** Every word occurs in the author string. */
  predicate NamesIn(words: seq<string>, authors: string) {
    forall t :: 0 <= t < |words| ==> Contains(authors, words[t])
  }

  /** A citation's own title always names it. */
  lemma MatchesTitle(src: Source)
    ensures Matches(src, src.title)
  {
  }

  /** A reference text that is neither the title nor of the shorthand shape names
      nothing. */
  lemma MatchesNeedsShape(src: Source, reftext: string)
    requires reftext != src.title && ParseRef(reftext).None?
    ensures !Matches(src, reftext)
  {
  }

  /** A shorthand `names year, pages` whose name part is the title names the
      citation whatever its authors and date. */
  lemma MatchesTitleShorthand(src: Source, m: RefMatch)
    requires WellFormed(m) && m.names == src.title
    ensures Matches(src, FormatRef(m))
  {
    ParseFormat(m);
  }

  /** Any other shorthand names the citation exactly when each of its name words
      occurs in the authors and its year occurs in the date, if there is one. */
  lemma MatchesShorthand(src: Source, m: RefMatch)
    requires WellFormed(m) && m.names != src.title && FormatRef(m) != src.title
    ensures Matches(src, FormatRef(m)) <==>
      NamesIn(WordTokens(m.names), src.authors) && (src.date == "" || Contains(src.date, m.year))
  {
    ParseFormat(m);
  }

  /** A word alone is its only token. */
  lemma WordTokensOfWord(w: string)
    requires w != [] && forall k :: 0 <= k < |w| ==> WordChar(w[k])
    ensures WordTokens(w) == [w]
  {
    var n := RunEnd(w, 0, WordChar);
    assert n == |w|;
    assert w[..n] == w;
    assert WordTokens(w[n..]) == [];
  }

  /** `"Smith 2004"` names a citation whose authors contain the word `Smith` and
      whose date, if any, contains `2004`. */
  lemma NameYearMatchesSource(src: Source, w: string, year: string)
    requires w != [] && forall k :: 0 <= k < |w| ==> WordChar(w[k]) && !IsDigit(w[k])
    requires year != [] && forall k :: 0 <= k < |year| ==> YearChar(year[k])
    requires Contains(src.authors, w)
    requires src.date == "" || Contains(src.date, year)
    ensures Matches(src, w + " " + year)
  {
    var m := RefMatch(w, year, None);
    assert WellFormed(m) by {
      assert forall k :: 0 <= k < |w| ==> NameChar(w[k]);
    }
    assert FormatRef(m) == w + " " + year;
    ParseFormat(m);
    WordTokensOfWord(w);
  }

  /** The same for an entry: any word of one of its name fields, such as the
      surname in `author = Mary Smith`, followed by a year its date contains. */
  lemma NameYearMatches(e: Entry, key: string, w: string, year: string)
    requires key in NameKeys && Contains(Field(e, key), w)
    requires w != [] && forall k :: 0 <= k < |w| ==> WordChar(w[k]) && !IsDigit(w[k])
    requires year != [] && forall k :: 0 <= k < |year| ==> YearChar(year[k])
    requires Date(e) == "" || Contains(Date(e), year)
    ensures Matches(SourceOf(e), w + " " + year)
  {
    AuthorsSpec(e);
    ContainsTrans(Authors(e), Field(e, key), w);
    NameYearMatchesSource(SourceOf(e), w, year);
  }

  /** `extract_pages(reftext)`: group 3, when the shorthand has one. */
  function ExtractPages(reftext: string): Option<string> {
    match ParseRef(reftext)
    case None => None
    case Some(m) => m.pages
  }

  /** The html of one use: the entry's html, followed by `" pages."` when there is a
      non-empty page reference. */
  function UseHtml(html: string, pages: Option<string>): string {
    if pages.Some? && pages.value != "" then html + " " + pages.value + "." else html
  }

  /** `"ref<n>"`, the id of the bibliography item of footnote `n`. */
  function BibId(n: nat): string {
    "ref" + NatToString(n)
  }

  /** `"ref<n>-<k>"`, the id of the `k`-th occurrence of footnote `n`. */
  function CiteId(n: nat, k: nat): string {
    BibId(n) + "-" + NatToString(k)
  }

  lemma DashSplit(a: string, b: string, a': string, b': string)
    requires forall k :: 0 <= k < |a| ==> IsDigit(a[k])
    requires forall k :: 0 <= k < |a'| ==> IsDigit(a'[k])
    requires a + "-" + b == a' + "-" + b'
    ensures a == a' && b == b'
  {
    var s := a + "-" + b;
    var s' := a' + "-" + b';
    assert s[|a|] == '-' && s'[|a'|] == '-';
    assert forall k :: 0 <= k < |a| ==> s[k] == a[k];
    assert forall k :: 0 <= k < |a'| ==> s'[k] == a'[k];
    assert |a| == |a'|;
    assert a == s[..|a|] && a' == s'[..|a'|];
    assert b == s[|a| + 1..] && b' == s'[|a'| + 1..];
  }

  /** Occurrence ids never collide: the id determines the footnote number and the
      occurrence index. */
  lemma CiteIdInjective(n: nat, k: nat, n': nat, k': nat)
    requires CiteId(n, k) == CiteId(n', k')
    ensures n == n' && k == k'
  {
    var s, s' := CiteId(n, k), CiteId(n', k');
    assert s == "ref" + (NatToString(n) + "-" + NatToString(k));
    assert s' == "ref" + (NatToString(n') + "-" + NatToString(k'));
    assert s[3..] == NatToString(n) + "-" + NatToString(k);
    assert s'[3..] == NatToString(n') + "-" + NatToString(k');
    DashSplit(NatToString(n), NatToString(k), NatToString(n'), NatToString(k'));
    NatToStringInjective(n, n');
    NatToStringInjective(k, k');
  }

  /** `set_fnnum(n)`: assigns the footnote number; fails if it is already set. */
  function SetFnnum(c: Citation, n: nat): (r: Result<Citation, CiteError>)
    ensures r.Success? <==> c.fnnum.None?
    ensures r.Failure? ==> r.error == InvalidState
    ensures r.Success? ==> r.value.fnnum == Some(n) && r.value.source == c.source && r.value.citeids == c.citeids
  {
    if c.fnnum.Some? then Failure(InvalidState) else Success(c.(fnnum := Some(n)))
  }

  /** What `use` returns: footnote number as text, the html with the page
      reference, the new occurrence id and the bibliography id. */
  datatype UseInfo = UseInfo(fnnum: string, html: string, citeid: string, bibid: string)

  /** `use(reftext)`: records a new occurrence id `ref<n>-<k>` where `k` counts the
      earlier occurrences, and returns the info the footnote shows. Fails unless the
      footnote number is set. */
  function Use(c: Citation, reftext: string): (r: Result<(Citation, UseInfo), CiteError>)
    ensures r.Success? <==> c.fnnum.Some?
    ensures r.Failure? ==> r.error == InvalidState
    ensures r.Success? ==>
      var (c', info) := r.value;
      var n := c.fnnum.value;
      && c'.source == c.source && c'.fnnum == c.fnnum
      && c'.citeids == c.citeids + [CiteId(n, |c.citeids|)]
      && info.citeid == CiteId(n, |c.citeids|) && info.bibid == BibId(n)
      && info.fnnum == NatToString(n)
      && (info.html == c.source.html <==> ExtractPages(reftext).None? || ExtractPages(reftext).value == "")
      && (info.html != c.source.html ==> info.html == c.source.html + " " + ExtractPages(reftext).value + ".")
  {
    match c.fnnum
    case None => Failure(InvalidState)
    case Some(n) =>
      var citeid := BibId(n) + "-" + NatToString(|c.citeids|);
      var pages := ExtractPages(reftext);
      var html := if pages.Some? && pages.value != "" then c.source.html + " " + pages.value + "." else c.source.html;
      Success((c.(citeids := c.citeids + [citeid]), UseInfo(NatToString(n), html, citeid, BibId(n))))
  }

  /** The page reference a shorthand was written with ends up in the use's html. */
  lemma UseShowsPages(c: Citation, m: RefMatch)
    requires c.fnnum.Some? && WellFormed(m) && m.pages.Some? && m.pages.value != ""
    ensures Use(c, FormatRef(m)).Success?
    ensures Use(c, FormatRef(m)).value.1.html == c.source.html + " " + m.pages.value + "."
  {
    ParseFormat(m);
  }

  /** Without a page reference the use's html is the entry's html unchanged. */
  lemma UseWithoutPages(c: Citation, m: RefMatch)
    requires c.fnnum.Some? && WellFormed(m) && m.pages.None?
    ensures Use(c, FormatRef(m)).Success?
    ensures Use(c, FormatRef(m)).value.1.html == c.source.html
  {
    ParseFormat(m);
  }

  /** One bibliography item: footnote number, its id, the occurrence ids to link
      back to and the entry html. */
  datatype BibEntry = BibEntry(fnnum: string, bibid: string, citeids: seq<string>, html: string)

  /** `bibentry()`: fails unless the footnote number is set. */
  function MakeBibEntry(c: Citation): (r: Result<BibEntry, CiteError>)
    ensures r.Success? <==> c.fnnum.Some?
    ensures r.Failure? ==> r.error == InvalidState
    ensures r.Success? ==>
      r.value.fnnum == NatToString(c.fnnum.value) && r.value.bibid == BibId(c.fnnum.value)
      && r.value.citeids == c.citeids && r.value.html == c.source.html
  {
    match c.fnnum
    case None => Failure(InvalidState)
    case Some(n) => Success(BibEntry(NatToString(n), "ref" + NatToString(n), c.citeids, c.source.html))
  }
}
