/** `Entry`: one bibliography record and the citation text derived from it
    (`authors`, `work`, the field accessors and `get_html`). */
module Entries {
  import opened Text
  import opened Html
  import opened WikiParse

  /** A record with the one field every entry must have: `title`. */
  type Entry = r: Record | "title" in r witness map["title" := ""]

  /** `data.get(key)` read through Python truthiness: a missing field and an empty
      one behave the same everywhere the entry is used. */
  function Field(e: Record, key: string): string {
    if key in e then e[key] else ""
  }

  function Title(e: Entry): string {
    e["title"]
  }

  function Date(e: Record): string {
    Field(e, "date")
  }

  /** The entry with one optional field removed. */
  function Without(e: Entry, key: string): (r: Entry)
    requires key != "title"
    ensures Field(r, key) == ""
    ensures forall k :: k != key ==> Field(r, k) == Field(e, k)
  {
    e - {key}
  }

  /** The non-empty strings of `xs`, in order. */
  function NonEmpty(xs: seq<string>): (r: seq<string>)
    ensures forall k :: 0 <= k < |r| ==> r[k] != ""
    ensures forall x :: x in xs && x != "" ==> x in r
    ensures forall x :: x in r ==> x in xs
    ensures r == [] <==> forall k :: 0 <= k < |xs| ==> xs[k] == ""
  {
    if xs == [] then []
    else if xs[0] == "" then NonEmpty(xs[1..])
    else [xs[0]] + NonEmpty(xs[1..])
  }

  /** Filtering works piecewise, so it keeps the order of the strings it keeps:
      together with the one-element case it determines `NonEmpty` completely. */
  lemma {:induction false} NonEmptyAppend(a: seq<string>, b: seq<string>)
    ensures NonEmpty(a + b) == NonEmpty(a) + NonEmpty(b)
    ensures NonEmpty([]) == [] && forall x :: NonEmpty([x]) == (if x == "" then [] else [x])
    decreases |a|
  {
    if a != [] {
      NonEmptyAppend(a[1..], b);
      assert (a + b)[1..] == a[1..] + b;
    } else {
      assert a + b == b;
    }
    forall x ensures NonEmpty([x]) == (if x == "" then [] else [x]) {
      assert [x][1..] == [];
    }
  }

  /** A non-empty string of `xs` is kept, after the strings kept from before it. */
  lemma NonEmptyAt(xs: seq<string>, i: nat)
    requires i < |xs| && xs[i] != ""
    ensures |NonEmpty(xs[..i])| < |NonEmpty(xs)| && NonEmpty(xs)[|NonEmpty(xs[..i])|] == xs[i]
  {
    assert xs == xs[..i] + xs[i..];
    NonEmptyAppend(xs[..i], xs[i..]);
    assert xs[i..] == [xs[i]] + xs[i + 1..];
    NonEmptyAppend([xs[i]], xs[i + 1..]);
  }

  /** A non-empty string at `i` is kept before everything kept from after it. */
  lemma NonEmptyBefore(xs: seq<string>, i: nat, j: nat)
    requires i < j <= |xs| && xs[i] != ""
    ensures |NonEmpty(xs[..i])| < |NonEmpty(xs[..j])|
  {
    assert xs[..j] == xs[..i] + xs[i..j];
    NonEmptyAppend(xs[..i], xs[i..j]);
    assert xs[i..j] == [xs[i]] + xs[i + 1..j];
    NonEmptyAppend([xs[i]], xs[i + 1..j]);
  }

  /** The `first`/`last` contribution: both joined by a space, or whichever is set. */
  function FirstLast(e: Record): string {
    var first, last := Field(e, "first"), Field(e, "last");
    if first != "" && last == "" then first
    else if first == "" && last != "" then last
    else if first == "" && last == "" then ""
    else first + " " + last
  }

  /** The name fields `authors()` reads. */
  const NameKeys: seq<string> := ["author", "authors", "coauthors", "first", "last", "others"]

  /** The candidate pieces of `authors()`, in order: author, authors, coauthors,
      first/last, others. */
  function NameParts(e: Record): seq<string> {
    [Field(e, "author"), Field(e, "authors"), Field(e, "coauthors"), FirstLast(e), Field(e, "others")]
  }

  /** `authors()`: the non-empty name pieces joined with `", "`. */
  function Authors(e: Record): string {
    Join(", ", NonEmpty(NameParts(e)))
  }

  /** The first/last piece is `first + " " + last` when both are set, and otherwise
      whichever one is set; so it holds both names and is empty only when both are. */
  lemma FirstLastSpec(e: Record)
    ensures var first, last := Field(e, "first"), Field(e, "last");
      FirstLast(e) == if first != "" && last != "" then first + " " + last else first + last
    ensures FirstLast(e) == "" <==> Field(e, "first") == "" && Field(e, "last") == ""
    ensures Contains(FirstLast(e), Field(e, "first")) && Contains(FirstLast(e), Field(e, "last"))
  {
    var first, last := Field(e, "first"), Field(e, "last");
    assert OccursAt(FirstLast(e), "", 0);
    if first != "" && last != "" {
      ContainsParts(first + " ", last);
      ContainsParts(first, " ");
      ContainsTrans(first + " " + last, first + " ", first);
    }
  }

  lemma FirstLastEmpty(e: Record)
    ensures FirstLast(e) == "" <==> Field(e, "first") == "" && Field(e, "last") == ""
  {
  }

  /** Every name piece occurs in the combined author string. */
  lemma AuthorsHasPart(e: Record, i: nat)
    requires i < |NameParts(e)|
    ensures Contains(Authors(e), NameParts(e)[i])
  {
    var part := NameParts(e)[i];
    if part == "" {
      assert OccursAt(Authors(e), part, 0);
    } else {
      assert part in NameParts(e);
      var k :| 0 <= k < |NonEmpty(NameParts(e))| && NonEmpty(NameParts(e))[k] == part;
      JoinContains(", ", NonEmpty(NameParts(e)), k);
    }
  }

  /** `authors()` keeps the order of its pieces: a present piece is followed by
      `", "` and, somewhere after that, by every later present piece. */
  lemma AuthorsOrder(e: Record, i: nat, j: nat) returns (pre: string, mid: string, post: string)
    requires i < j < |NameParts(e)|
    requires NameParts(e)[i] != "" && NameParts(e)[j] != ""
    ensures Authors(e) == pre + NameParts(e)[i] + ", " + mid + NameParts(e)[j] + post
  {
    var xs := NameParts(e);
    NonEmptyAt(xs, i);
    NonEmptyAt(xs, j);
    NonEmptyBefore(xs, i, j);
    pre, mid, post := JoinOrder(", ", NonEmpty(xs), |NonEmpty(xs[..i])|, |NonEmpty(xs[..j])|);
  }

  /** A piece that is the only one present is the whole author string: `authors()`
      adds nothing of its own. */
  lemma AuthorsOnly(e: Record, i: nat)
    requires i < |NameParts(e)|
    requires forall k :: 0 <= k < |NameParts(e)| && k != i ==> NameParts(e)[k] == ""
    ensures Authors(e) == NameParts(e)[i]
  {
    var xs := NameParts(e);
    NonEmptyOnly(xs, i);
    if xs[i] != "" {
      assert Join(", ", [xs[i]]) == xs[i];
    }
  }

  /** Only one string can survive when all the others are empty. */
  lemma NonEmptyOnly(xs: seq<string>, i: nat)
    requires i < |xs|
    requires forall k :: 0 <= k < |xs| && k != i ==> xs[k] == ""
    ensures NonEmpty(xs) == if xs[i] == "" then [] else [xs[i]]
  {
    assert xs == xs[..i] + [xs[i]] + xs[i + 1..];
    NonEmptyAppend(xs[..i] + [xs[i]], xs[i + 1..]);
    NonEmptyAppend(xs[..i], [xs[i]]);
    assert NonEmpty(xs[..i]) == [] && NonEmpty(xs[i + 1..]) == [];
  }

  /** The combined author string is empty exactly when every name field is, and the
      value of every name field (first and last included) occurs in it. */
  lemma AuthorsSpec(e: Record)
    ensures Authors(e) == "" <==> forall key :: key in NameKeys ==> Field(e, key) == ""
    ensures forall key :: key in NameKeys ==> Contains(Authors(e), Field(e, key))
  {
    AuthorsEmpty(e);
    forall key | key in NameKeys
      ensures Contains(Authors(e), Field(e, key))
    {
      var i :| 0 <= i < |NameKeys| && NameKeys[i] == key;
      if i == 3 || i == 4 {
        FirstLastSpec(e);
        AuthorsHasPart(e, 3);
        ContainsTrans(Authors(e), FirstLast(e), Field(e, key));
      } else {
        AuthorsHasPart(e, if i == 5 then 4 else i);
      }
    }
  }

  lemma AuthorsEmpty(e: Record)
    ensures Authors(e) == "" <==> forall key :: key in NameKeys ==> Field(e, key) == ""
  {
    var parts := NameParts(e);
    JoinEmpty(", ", NonEmpty(parts));
    FirstLastEmpty(e);
    var partsEmpty := forall k :: 0 <= k < |parts| ==> parts[k] == "";
    var fieldsEmpty := forall key :: key in NameKeys ==> Field(e, key) == "";
    if partsEmpty {
      forall key | key in NameKeys ensures Field(e, key) == "" {
        var i :| 0 <= i < |NameKeys| && NameKeys[i] == key;
        assert parts[if i == 5 then 4 else if i == 4 then 3 else i] == "";
      }
    }
    if fieldsEmpty {
      assert forall i :: 0 <= i < |NameKeys| ==> Field(e, NameKeys[i]) == "";
    }
    assert partsEmpty <==> fieldsEmpty;
  }

  /** The fields `work()` consults, in order of preference. */
  const WorkKeys: seq<string> := ["work", "journal", "newspaper", "magazine", "periodical", "encyclopedia"]

  /** The first non-empty value among `keys`, or empty when there is none. */
  function FirstNonEmpty(e: Record, keys: seq<string>): string {
    if keys == [] then ""
    else if Field(e, keys[0]) != "" then Field(e, keys[0])
    else FirstNonEmpty(e, keys[1..])
  }

  /** The first non-empty field wins: the result is empty only when all are, and
      otherwise is the value of some key all of whose predecessors are empty. */
  lemma {:induction false} FirstNonEmptySpec(e: Record, keys: seq<string>)
    ensures FirstNonEmpty(e, keys) == "" <==> forall k :: 0 <= k < |keys| ==> Field(e, keys[k]) == ""
    ensures FirstNonEmpty(e, keys) != "" ==>
      exists k :: 0 <= k < |keys| && FirstNonEmpty(e, keys) == Field(e, keys[k]) &&
                  forall j :: 0 <= j < k ==> Field(e, keys[j]) == ""
  {
    if keys != [] && Field(e, keys[0]) == "" {
      var rest := keys[1..];
      FirstNonEmptySpec(e, rest);
      assert forall k :: 1 <= k < |keys| ==> keys[k] == rest[k - 1];
      var r := FirstNonEmpty(e, rest);
      if r != "" {
        var k :| 0 <= k < |rest| && r == Field(e, rest[k]) &&
                 forall j :: 0 <= j < k ==> Field(e, rest[j]) == "";
        assert forall j :: 0 <= j < k + 1 ==> Field(e, keys[j]) == "";
      }
    }
  }

  /** `work()`: the first non-empty of work, journal, newspaper, magazine,
      periodical and encyclopedia. */
  function Work(e: Record): string {
    FirstNonEmpty(e, WorkKeys)
  }

  /** The values `get_html()` reads, after `authors()` and `work()` are derived. */
  datatype Parts = Parts(authors: string, date: string, title: string, work: string,
                         volume: string, issue: string, pages: string, doi: string,
                         issn: string, accessdate: string, url: string)

  function PartsOf(e: Entry): Parts {
    Parts(Authors(e), Date(e), Title(e), Work(e), Field(e, "volume"), Field(e, "issue"),
          Field(e, "pages"), Field(e, "doi"), Field(e, "issn"), Field(e, "accessdate"), Field(e, "url"))
  }

  /** `cgi.escape(s)` without quoting. */
  function Esc(s: string): string {
    Escape(s, false)
  }

  /** The date's own segment: parenthesised after the authors, or `" date."` after
      the work segment when there are no authors. */
  function DateSegment(authors: string, date: string): string {
    if date == "" then ""
    else if authors != "" then " (" + Esc(date) + ")"
    else " " + Esc(date) + "."
  }

  /** `$authors ($date). ` -- empty without authors. */
  function AuthorPart(authors: string, date: string): string {
    if authors == "" then "" else Esc(authors) + DateSegment(authors, date) + ". "
  }

  /** The title in italics, inside a link when there is a url. */
  function TitleElement(title: string): string {
    "<i>" + Esc(title) + "</i>"
  }

  function LinkOpen(url: string): string {
    "<a href=\"" + Escape(url, true) + "\">"
  }

  function TitlePart(title: string, url: string): string {
    if url != "" then LinkOpen(url) + TitleElement(title) + "</a>" else TitleElement(title)
  }

  /** ` $work $volume ($issue): $pages.` -- volume, issue and pages only inside a
      present work. */
  function WorkPart(work: string, volume: string, issue: string, pages: string): string {
    if work == "" then ""
    else
      " " + Esc(work)
      + (if volume != "" then " " + Esc(volume) else "")
      + (if issue != "" then " (" + Esc(issue) + ")" else "")
      + (if pages != "" then ": " + Esc(pages) else "")
      + "."
  }

  /** Without authors the date moves after the work segment. */
  function LateDatePart(authors: string, date: string): string {
    if authors == "" then DateSegment(authors, date) else ""
  }

  function DoiLink(doi: string): string {
    " <a href=\"http://en.wikipedia.org/wiki/Digital_object_identifier\">doi</a>:"
    + "<a href=\"http://dx.doi.org/" + Esc(UrlQuote(doi)) + "\">" + Esc(doi) + "</a>"
  }

  function IssnLink(issn: string): string {
    " <a href=\"http://en.wikipedia.org/wiki/International_Standard_Serial_Number\">ISSN</a> "
    + "<a href=\"http://www.worldcat.org/issn/" + Esc(UrlQuote(issn)) + "\">" + Esc(issn) + "</a>"
  }

  /** The doi and issn links, joined by `", "` and closed by a period. */
  function RefsPart(doi: string, issn: string): string {
    Refs((if doi != "" then [DoiLink(doi)] else []) + (if issn != "" then [IssnLink(issn)] else []))
  }

  /** Links joined by `", "` and closed by a period; nothing without links. */
  function Refs(links: seq<string>): string {
    if links == [] then "" else Join(", ", links) + "."
  }

  lemma RefsTwo(x: string, y: string)
    ensures Refs([x, y]) == x + ", " + y + "."
  {
    assert [x, y][1..] == [y];
    assert Join(", ", [x, y]) == x + ", " + Join(", ", [y]);
  }

  function AccessPart(accessdate: string): string {
    if accessdate != "" then " Retrieved " + Esc(accessdate) + "." else ""
  }

  /** The citation around an already formatted title segment. */
  function Layout(authors: string, date: string, title: string, work: string, tail: string): string {
    AuthorPart(authors, date) + title + "." + work + LateDatePart(authors, date) + tail
  }

  /** The citation for the given parts:
      `$authors ($date). <i>$title</i>. $work $volume ($issue): $pages. doi, ISSN. Retrieved $accessdate.` */
  function Render(p: Parts): string {
    Layout(p.authors, p.date, TitlePart(p.title, p.url), WorkPart(p.work, p.volume, p.issue, p.pages),
           RefsPart(p.doi, p.issn) + AccessPart(p.accessdate))
  }

  /** `get_html()`. */
  function GetHtml(e: Entry): string {
    Render(PartsOf(e))
  }

  /** Every field the formatter reads besides the title. */
  const OptionalKeys: seq<string> := NameKeys + WorkKeys + DetailKeys

  /** The fields read directly into the citation's parts. */
  const DetailKeys: seq<string> := ["date", "volume", "issue", "pages", "doi", "issn", "accessdate", "url"]

  /** An entry with nothing but a title renders as the italic title and a period. */
  lemma TitleOnlyHtml(e: Entry)
    requires forall key :: key in OptionalKeys ==> Field(e, key) == ""
    ensures GetHtml(e) == TitleElement(Title(e)) + "."
  {
    AuthorsSpec(e);
    FirstNonEmptySpec(e, WorkKeys);
    var p := PartsOf(e);
    assert p.authors == "" && p.work == "";
    assert p.date == "" && p.url == "" && p.doi == "" && p.issn == "" && p.accessdate == "" by {
      assert "date" in OptionalKeys && "url" in OptionalKeys && "doi" in OptionalKeys;
      assert "issn" in OptionalKeys && "accessdate" in OptionalKeys;
    }
    RenderTitleOnly(p);
  }

  lemma RenderTitleOnly(p: Parts)
    requires p.authors == "" && p.work == "" && p.date == "" && p.url == ""
    requires p.doi == "" && p.issn == "" && p.accessdate == ""
    ensures Render(p) == TitleElement(p.title) + "."
  {
    var t := TitlePart(p.title, p.url);
    assert Render(p) == "" + t + "." + "" + "" + ("" + "");
  }

  lemma DateInAuthorLayout(a: string, d: string, title: string, work: string, tail: string)
    requires a != "" && d != ""
    ensures Layout(a, d, title, work, tail) == Esc(a) + DateSegment(a, d) + (". " + title + "." + work + tail)
    ensures Layout(a, "", title, work, tail) == Esc(a) + (". " + title + "." + work + tail)
  {
    AuthorLayout(a, d, title, work, tail);
    AuthorLayout(a, "", title, work, tail);
    assert Esc(a) + DateSegment(a, "") == Esc(a);
  }

  lemma AuthorLayout(a: string, d: string, title: string, work: string, tail: string)
    requires a != ""
    ensures Layout(a, d, title, work, tail) == Esc(a) + DateSegment(a, d) + (". " + title + "." + work + tail)
  {
    assert LateDatePart(a, d) == "";
    Regroup(Esc(a) + DateSegment(a, d), ". ", title, work, tail);
  }

  /** Concatenation regrouped: `x + p + title + "." + work + tail` with `x` split off. */
  lemma Regroup(x: string, p: string, title: string, work: string, tail: string)
    ensures x + p + title + "." + work + "" + tail == x + (p + title + "." + work + tail)
  {
    var r := p + title + "." + work + tail;
    assert x + p + title + "." + work + "" + tail == x + p + title + "." + work + tail;
    AppendAssoc(x, p, title);
    AppendAssoc(x, p + title, ".");
    AppendAssoc(x, p + title + ".", work);
    AppendAssoc(x, p + title + "." + work, tail);
  }

  lemma AppendAssoc(x: string, y: string, z: string)
    ensures x + y + z == x + (y + z)
  {
  }

  lemma DateAfterWorkLayout(a: string, d: string, title: string, work: string, tail: string)
    requires a == "" && d != ""
    ensures Layout(a, d, title, work, tail) == (title + "." + work) + DateSegment(a, d) + tail
    ensures Layout(a, "", title, work, tail) == (title + "." + work) + tail
  {
  }

  /** With authors, the citation opens with them and the date in parentheses,
      followed by `. ` and the title: `$authors ($date). $title. $work...`. */
  lemma DateInAuthorPart(e: Entry) returns (rest: string)
    requires Authors(e) != "" && Date(e) != ""
    ensures GetHtml(e) == Esc(Authors(e)) + (" (" + Esc(Date(e)) + ")") + rest
    ensures rest == ". " + TitlePart(Title(e), Field(e, "url")) + "."
      + WorkPart(Work(e), Field(e, "volume"), Field(e, "issue"), Field(e, "pages"))
      + (RefsPart(Field(e, "doi"), Field(e, "issn")) + AccessPart(Field(e, "accessdate")))
  {
    var p := PartsOf(e);
    var title, work := TitlePart(p.title, p.url), WorkPart(p.work, p.volume, p.issue, p.pages);
    var tail := RefsPart(p.doi, p.issn) + AccessPart(p.accessdate);
    AuthorLayout(p.authors, p.date, title, work, tail);
    rest := ". " + title + "." + work + tail;
  }

  /** Without authors, the date comes right after the title and the work segment:
      `$title. $work. $date.`. */
  lemma DateAfterWork(e: Entry) returns (post: string)
    requires Authors(e) == "" && Date(e) != ""
    ensures GetHtml(e) == TitlePart(Title(e), Field(e, "url")) + "."
      + WorkPart(Work(e), Field(e, "volume"), Field(e, "issue"), Field(e, "pages"))
      + (" " + Esc(Date(e)) + ".") + post
  {
    var p := PartsOf(e);
    var title, work := TitlePart(p.title, p.url), WorkPart(p.work, p.volume, p.issue, p.pages);
    post := RefsPart(p.doi, p.issn) + AccessPart(p.accessdate);
    DateAfterWorkLayout(p.authors, p.date, title, work, post);
    assert DateSegment(p.authors, p.date) == " " + Esc(p.date) + ".";
  }

  /** Removing the date removes exactly its segment and nothing else: the citation
      splits as `pre + DateSegment + post` and without the date it is `pre + post`. */
  lemma DateRemovalLayout(a: string, d: string, title: string, work: string, tail: string)
    returns (pre: string, post: string)
    ensures Layout(a, d, title, work, tail) == pre + DateSegment(a, d) + post
    ensures Layout(a, "", title, work, tail) == pre + post
  {
    if d == "" {
      pre, post := "", Layout(a, d, title, work, tail);
    } else if a != "" {
      DateInAuthorLayout(a, d, title, work, tail);
      pre, post := Esc(a), ". " + title + "." + work + tail;
    } else {
      DateAfterWorkLayout(a, d, title, work, tail);
      pre, post := title + "." + work, tail;
    }
  }

  /** The detail fields are neither name nor work fields. */
  lemma DetailKeysApart(key: string)
    requires key in DetailKeys
    ensures key !in NameKeys && key !in WorkKeys
  {
  }

  /** Removing the entry's field `key`, which is neither a name nor a work field,
      leaves the derived authors and work alone. */
  lemma PartsWithout(e: Entry, key: string)
    requires key in DetailKeys
    ensures Authors(Without(e, key)) == Authors(e) && Work(Without(e, key)) == Work(e)
  {
    var e' := Without(e, key);
    DetailKeysApart(key);
    assert FirstLast(e') == FirstLast(e);
    assert NameParts(e') == NameParts(e);
    FirstNonEmptySame(e, e', WorkKeys);
  }

  lemma WithoutDate(e: Entry)
    ensures PartsOf(Without(e, "date")) == PartsOf(e).(date := "")
  {
    PartsWithout(e, "date");
  }

  lemma WithoutUrl(e: Entry)
    ensures PartsOf(Without(e, "url")) == PartsOf(e).(url := "")
  {
    PartsWithout(e, "url");
  }

  lemma WithoutVolume(e: Entry)
    ensures PartsOf(Without(e, "volume")) == PartsOf(e).(volume := "")
  {
    PartsWithout(e, "volume");
  }

  lemma WithoutIssue(e: Entry)
    ensures PartsOf(Without(e, "issue")) == PartsOf(e).(issue := "")
  {
    PartsWithout(e, "issue");
  }

  lemma WithoutPages(e: Entry)
    ensures PartsOf(Without(e, "pages")) == PartsOf(e).(pages := "")
  {
    PartsWithout(e, "pages");
  }

  /** Removing the date from an entry removes exactly the date segment of its
      citation and nothing else. */
  lemma DateRemoval(e: Entry) returns (pre: string, post: string)
    ensures GetHtml(e) == pre + DateSegment(Authors(e), Date(e)) + post
    ensures GetHtml(Without(e, "date")) == pre + post
  {
    WithoutDate(e);
    var p := PartsOf(e);
    pre, post := DateRemovalLayout(p.authors, p.date, TitlePart(p.title, p.url),
                                   WorkPart(p.work, p.volume, p.issue, p.pages),
                                   RefsPart(p.doi, p.issn) + AccessPart(p.accessdate));
  }

  lemma FirstNonEmptySame(e: Record, e': Record, keys: seq<string>)
    requires forall i :: 0 <= i < |keys| ==> Field(e', keys[i]) == Field(e, keys[i])
    ensures FirstNonEmpty(e', keys) == FirstNonEmpty(e, keys)
  {
    if keys != [] {
      FirstNonEmptySame(e, e', keys[1..]);
    }
  }

  /** The title segment is the italic title, inside a link exactly when there is
      a url. */
  lemma TitlePartLink(title: string, url: string)
    ensures url != "" ==> TitlePart(title, url) == LinkOpen(url) + TitleElement(title) + "</a>"
    ensures url == "" ==> TitlePart(title, url) == TitleElement(title)
  {
  }

  /** Everything of the citation but its title segment is independent of the title
      segment. */
  lemma LayoutAroundTitle(a: string, d: string, title: string, work: string, tail: string)
    ensures Layout(a, d, title, work, tail) == AuthorPart(a, d) + title + ("." + work + LateDatePart(a, d) + tail)
  {
  }

  /** A url wraps the italic title in a link and changes nothing else: without it the
      italic title stands unchanged in the same place. */
  lemma UrlWrapsTitle(e: Entry) returns (pre: string, post: string)
    requires Field(e, "url") != ""
    ensures GetHtml(e) == pre + TitlePart(Title(e), Field(e, "url")) + post
    ensures TitlePart(Title(e), Field(e, "url")) == LinkOpen(Field(e, "url")) + TitleElement(Title(e)) + "</a>"
    ensures GetHtml(Without(e, "url")) == pre + TitleElement(Title(e)) + post
  {
    WithoutUrl(e);
    var p := PartsOf(e);
    var q := p.(url := "");
    TitlePartLink(p.title, p.url);
    TitlePartLink(q.title, q.url);
    var work := WorkPart(p.work, p.volume, p.issue, p.pages);
    var tail := RefsPart(p.doi, p.issn) + AccessPart(p.accessdate);
    LayoutAroundTitle(p.authors, p.date, TitlePart(p.title, p.url), work, tail);
    LayoutAroundTitle(p.authors, p.date, TitlePart(q.title, q.url), work, tail);
    pre := AuthorPart(p.authors, p.date);
    post := "." + work + LateDatePart(p.authors, p.date) + tail;
  }

  /** Volume, issue and pages are printed only inside a work segment: without a work
      they do not affect the citation. */
  lemma VolumeIssuePagesNeedWork(e: Entry)
    requires Work(e) == ""
    ensures GetHtml(e) == GetHtml(Without(Without(Without(e, "volume"), "issue"), "pages"))
  {
    PartsWithoutWorkDetails(e);
    RenderWithoutWork(PartsOf(e));
  }

  lemma PartsWithoutWorkDetails(e: Entry)
    ensures PartsOf(Without(Without(Without(e, "volume"), "issue"), "pages"))
         == PartsOf(e).(volume := "", issue := "", pages := "")
  {
    var e1 := Without(e, "volume");
    var e2 := Without(e1, "issue");
    WithoutVolume(e);
    WithoutIssue(e1);
    WithoutPages(e2);
  }

  lemma RenderWithoutWork(p: Parts)
    requires p.work == ""
    ensures Render(p) == Render(p.(volume := "", issue := "", pages := ""))
  {
  }

  /** The identifier links: each present one in order doi, issn, separated by
      `", "`, then a period; nothing when both are absent. */
  lemma RefsLayout(doi: string, issn: string)
    ensures doi == "" && issn == "" ==> RefsPart(doi, issn) == ""
    ensures doi != "" && issn == "" ==> RefsPart(doi, issn) == DoiLink(doi) + "."
    ensures doi == "" && issn != "" ==> RefsPart(doi, issn) == IssnLink(issn) + "."
    ensures doi != "" && issn != "" ==> RefsPart(doi, issn) == DoiLink(doi) + ", " + IssnLink(issn) + "."
  {
    if doi != "" && issn != "" {
      RefsTwo(DoiLink(doi), IssnLink(issn));
      PairOf(DoiLink(doi), IssnLink(issn));
    } else if doi != "" {
      RefsOne(DoiLink(doi));
      PairOf(DoiLink(doi), IssnLink(issn));
    } else if issn != "" {
      RefsOne(IssnLink(issn));
      PairOf(DoiLink(doi), IssnLink(issn));
    }
  }

  lemma RefsOne(x: string)
    ensures Refs([x]) == x + "."
  {
  }

  lemma PairOf(x: string, y: string)
    ensures [x] + [y] == [x, y] && [x] + [] == [x] && [] + [y] == [y]
  {
  }
}
