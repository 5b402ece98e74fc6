/** `InlineCitations`: what a `{{...}}` in the text becomes -- a footnote marker
    for a reference, or the bibliography list for `{{bibliography}}` -- as plain
    data in place of the element tree. */
module Render {
  import opened Wrappers
  import opened Text
  import opened Citations
  import opened Registry

  /** The labels `zip` pairs occurrences with. */
  const Letters: string := "abcdefghijklmnopqrstuvwxyz"

  /** One lettered back-link: `<a href="#citeid" class="cite__backlink">a</a>`. */
  datatype Backlink = Backlink(href: string, letter: char)

  /** The back-links of a bibliography item: a lone `^` link for a single
      occurrence; otherwise a `^ ` caret followed by one lettered link per
      occurrence. */
  datatype Backlinks = Caret(href: string) | Lettered(links: seq<Backlink>)

  function Min(a: nat, b: nat): nat {
    if a <= b then a else b
  }

  /** `zip(citeids, letters)` turned into links: as many as the shorter list. */
  function LetteredLinks(citeids: seq<string>, letters: string): (r: seq<Backlink>)
    ensures |r| == Min(|citeids|, |letters|)
    ensures forall k :: 0 <= k < |r| ==> r[k] == Backlink("#" + citeids[k], letters[k])
  {
    if citeids == [] || letters == [] then []
    else [Backlink("#" + citeids[0], letters[0])] + LetteredLinks(citeids[1..], letters[1..])
  }

  function MakeBacklinks(citeids: seq<string>): Backlinks {
    if |citeids| == 1 then Caret("#" + citeids[0]) else Lettered(LetteredLinks(citeids, Letters))
  }

  /** Every href the back-links of an item point to. */
  function Hrefs(b: Backlinks): seq<string> {
    match b
    case Caret(h) => [h]
    case Lettered(links) => seq(|links|, k requires 0 <= k < |links| => links[k].href)
  }

  /** The back-links reach every occurrence when there are at most 26, the `k`-th
      labelled with the `k`-th letter; beyond 26 `zip` drops the rest. */
  lemma BacklinksSpec(citeids: seq<string>)
    ensures |citeids| == 1 ==> MakeBacklinks(citeids) == Caret("#" + citeids[0])
    ensures |citeids| != 1 ==>
      && MakeBacklinks(citeids).Lettered?
      && |MakeBacklinks(citeids).links| == Min(|citeids|, 26)
      && forall k :: 0 <= k < Min(|citeids|, 26) ==>
           MakeBacklinks(citeids).links[k] == Backlink("#" + citeids[k], Letters[k])
    ensures forall k :: 0 <= k < |citeids| && (|citeids| == 1 || k < 26) ==>
      "#" + citeids[k] in Hrefs(MakeBacklinks(citeids))
  {
    if |citeids| != 1 {
      var links := LetteredLinks(citeids, Letters);
      assert forall k :: 0 <= k < |links| ==> Hrefs(Lettered(links))[k] == "#" + citeids[k];
    }
  }

  /** One `<li>` of the bibliography: its id, its number, the back-links and the
      entry html. */
  datatype ListItem = ListItem(id: string, value: string, backlinks: Backlinks, text: string)

  function Item(b: BibEntry): ListItem {
    ListItem(b.bibid, b.fnnum, MakeBacklinks(b.citeids), b.html)
  }

  /** The element a `{{...}}` is replaced by: the footnote marker
      `<span id=citeid>[<a href="#bibid">n</a>]<span>html</span></span>`, or the
      bibliography `<ol>`. */
  datatype Node =
    | Footnote(id: string, href: string, number: string, tooltip: string)
    | Bibliography(items: seq<ListItem>)

  function FootnoteOf(info: UseInfo): Node {
    Footnote(info.citeid, "#" + info.bibid, info.fnnum, info.html)
  }

  /** `bibliography()`: one list item per used citation, in order. */
  function BibliographyNode(st: State): (r: Result<Node, CiteError>)
    requires InRange(st.used, |st.known|)
  {
    match GetBibliography(st)
    case Failure(e) => Failure(e)
    case Success(bs) => Success(Bibliography(seq(|bs|, k requires 0 <= k < |bs| => Item(bs[k]))))
  }

  /** `text.replace("\n", " ")`. */
  function NewlinesToSpaces(s: string): (r: string)
    ensures |r| == |s| && '\n' !in r
    ensures forall k :: 0 <= k < |s| ==> r[k] == (if s[k] == '\n' then ' ' else s[k])
  {
    if s == [] then [] else [if s[0] == '\n' then ' ' else s[0]] + NewlinesToSpaces(s[1..])
  }

  /** `handleMatch`: `{{bibliography}}` in any letter case gives the bibliography;
      anything else is a reference, with line breaks read as spaces. */
  function HandleMatch(st: State, inner: string): (State, Result<Node, CiteError>)
    requires InRange(st.used, |st.known|)
  {
    if Lower(inner) == "bibliography" then (st, BibliographyNode(st))
    else
      var (st', r) := Registry.Use(st, NewlinesToSpaces(inner));
      (st', match r case Failure(e) => Failure(e) case Success(info) => Success(FootnoteOf(info)))
  }

  /** The bibliography directive changes nothing and, on a valid list, lists the
      used citations in order, item `j` numbered `j + 1`. */
  lemma BibliographyDirective(st: State, inner: string)
    requires Valid(st) && Lower(inner) == "bibliography"
    ensures var (st', r) := HandleMatch(st, inner);
      && st' == st && r.Success? && r.value.Bibliography?
      && |r.value.items| == |st.used|
      && forall j :: 0 <= j < |st.used| ==>
           r.value.items[j].id == BibId(j + 1) && r.value.items[j].value == NatToString(j + 1)
           && r.value.items[j].text == st.known[st.used[j]].source.html
  {
    BibliographyOrder(st);
  }

  /** A footnote marker links to a bibliography item that exists once the
      reference is resolved: the item with the marker's number, whose occurrence
      ids include the marker's id -- and, up to 26 occurrences, whose back-links
      lead back to the marker. */
  lemma FootnoteLinksBack(st: State, inner: string) returns (j: nat)
    requires Valid(st) && HandleMatch(st, inner).1.Success?
    requires Lower(inner) != "bibliography"
    ensures var (st', r) := HandleMatch(st, inner);
      var f := r.value;
      var bib := BibliographyNode(st');
      && f.Footnote?
      && bib.Success? && j < |bib.value.items|
      && var item := bib.value.items[j];
      && f.href == "#" + item.id && f.number == item.value
      && (|Hrefs(item.backlinks)| < 26 ==> "#" + f.id in Hrefs(item.backlinks))
  {
    var reftext := NewlinesToSpaces(inner);
    UseKeepsValid(st, reftext);
    var i := UseRecords(st, reftext);
    var (st', r) := Registry.Use(st, reftext);
    BibliographyOrder(st');
    j :| 0 <= j < |st'.used| && st'.used[j] == i;
    var c := st'.known[i];
    var ids := c.citeids;
    BacklinksSpec(ids);
    var item := BibliographyNode(st').value.items[j];
    assert item.backlinks == MakeBacklinks(ids);
    assert r.value.citeid == ids[|ids| - 1];
  }
}
