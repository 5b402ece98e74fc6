/** `CitationList` and `lookup`: resolving reference texts to citations, numbering
    footnotes in order of first use, and listing the bibliography. */
module Registry {
  import opened Wrappers
  import opened Text
  import opened Citations

  /** The citation list. `known` is the pool of citations read from the
      bibliography (supplied up front; `loaded` records whether `load` has run),
      `used` holds the citations used so far as positions in `known`, in order of
      first use, and `nextFnnum` is the next footnote number. Python keeps the same
      citation objects in both lists; positions model that sharing. */
  datatype State = State(known: seq<Citation>, loaded: bool, used: seq<nat>, nextFnnum: nat)

  /** `CitationList()` over a pool of fresh citations. */
  function Init(pool: seq<Citation>): State {
    State(pool, false, [], 1)
  }

  /** Every position refers to a citation of a pool of size `n`. */
  predicate InRange(cands: seq<nat>, n: nat) {
    forall j :: 0 <= j < |cands| ==> cands[j] < n
  }

  /** The positions `0 .. n-1`: the whole pool, in order. */
  function AllIndices(n: nat): (r: seq<nat>)
    ensures |r| == n && forall k :: 0 <= k < n ==> r[k] == k
    ensures InRange(r, n)
  {
    if n == 0 then [] else AllIndices(n - 1) + [n - 1]
  }

  /** The candidates whose citation matches the reference text, in order. */
  function Hits(reftext: string, known: seq<Citation>, cands: seq<nat>): (r: seq<nat>)
    requires InRange(cands, |known|)
    ensures |r| <= |cands| && InRange(r, |known|)
    ensures forall x :: x in r <==> x in cands && Matches(known[x].source, reftext)
  {
    if cands == [] then []
    else
      var rest := Hits(reftext, known, cands[1..]);
      assert forall x :: x in cands <==> x == cands[0] || x in cands[1..];
      if Matches(known[cands[0]].source, reftext) then [cands[0]] + rest else rest
  }

  /** `lookup(reftext, citlist)`, with `found` the match seen so far: the one matching
      candidate, `None` when there is none, and an error as soon as a second one
      matches. */
  function Lookup(reftext: string, known: seq<Citation>, cands: seq<nat>, found: Option<nat>): (r: Result<Option<nat>, CiteError>)
    requires InRange(cands, |known|)
    ensures r.Success? && r.value.Some? && r.value != found ==> r.value.value < |known|
    decreases |cands|
  {
    if cands == [] then Success(found)
    else if Matches(known[cands[0]].source, reftext) then
      if found.Some? then Failure(Ambiguous(reftext))
      else Lookup(reftext, known, cands[1..], Some(cands[0]))
    else Lookup(reftext, known, cands[1..], found)
  }

  lemma {:induction false} LookupHits(reftext: string, known: seq<Citation>, cands: seq<nat>, found: Option<nat>)
    requires InRange(cands, |known|)
    ensures var h := Hits(reftext, known, cands);
      Lookup(reftext, known, cands, found) ==
        if |h| + (if found.Some? then 1 else 0) >= 2 then Failure(Ambiguous(reftext))
        else if h == [] then Success(found)
        else Success(Some(h[0]))
    decreases |cands|
  {
    if cands != [] {
      if Matches(known[cands[0]].source, reftext) {
        if found.None? {
          LookupHits(reftext, known, cands[1..], Some(cands[0]));
        }
      } else {
        LookupHits(reftext, known, cands[1..], found);
      }
    }
  }

  /** `lookup` raises "Ambiguous reference" exactly when two or more candidates
      match, returns `None` exactly when none does, and otherwise returns the one
      that matches. */
  lemma LookupSpec(reftext: string, known: seq<Citation>, cands: seq<nat>)
    requires InRange(cands, |known|)
    ensures var r := Lookup(reftext, known, cands, None); var h := Hits(reftext, known, cands);
      && (r.Failure? <==> |h| >= 2)
      && (r.Failure? ==> r.error == Ambiguous(reftext))
      && (r == Success(None) <==> h == [])
      && (|h| == 1 ==> r == Success(Some(h[0])) && h[0] in cands && Matches(known[h[0]].source, reftext))
  {
    LookupHits(reftext, known, cands, None);
    var h := Hits(reftext, known, cands);
    if |h| == 1 {
      assert h[0] in h;
    }
  }

  /** `cit.use(reftext)` on the citation at position `i`, storing the updated
      citation back into the pool. */
  function UseAt(st: State, i: nat, reftext: string): (State, Result<UseInfo, CiteError>)
    requires i < |st.known|
  {
    match Citations.Use(st.known[i], reftext)
    case Failure(e) => (st, Failure(e))
    case Success((c, info)) => (st.(known := st.known[i := c]), Success(info))
  }

  /** The first use of the citation at position `i`: `set_fnnum(next_fnnum)`, the
      counter moves on, the citation joins `used`, then `cit.use(reftext)`. */
  function Assign(st: State, i: nat, reftext: string): (State, Result<UseInfo, CiteError>)
    requires i < |st.known|
  {
    match SetFnnum(st.known[i], st.nextFnnum)
    case Failure(e) => (st, Failure(e))
    case Success(c) =>
      var st' := st.(known := st.known[i := c], nextFnnum := st.nextFnnum + 1, used := st.used + [i]);
      UseAt(st', i, reftext)
  }

  /** `CitationList.use(reftext)`: the used citations are searched first; only when
      none matches is the bibliography loaded and the whole pool searched, and a
      match there gets the next footnote number. No match anywhere is "Unknown
      reference". The new state is returned on the error paths too. */
  function Use(st: State, reftext: string): (State, Result<UseInfo, CiteError>)
    requires InRange(st.used, |st.known|)
  {
    match Lookup(reftext, st.known, st.used, None)
    case Failure(e) => (st, Failure(e))
    case Success(Some(i)) => UseAt(st, i, reftext)
    case Success(None) =>
      var st1 := st.(loaded := true);
      match Lookup(reftext, st1.known, AllIndices(|st1.known|), None)
      case Failure(e) => (st1, Failure(e))
      case Success(None) => (st1, Failure(Unknown(reftext)))
      case Success(Some(i)) => Assign(st1, i, reftext)
  }

  /** The occurrence ids of a citation are `ref<n>-0`, `ref<n>-1`, ... for its
      footnote number `n`, and there are none before it has a number. */
  predicate IdsNumbered(c: Citation) {
    && (c.fnnum.None? ==> c.citeids == [])
    && (c.fnnum.Some? ==> forall k :: 0 <= k < |c.citeids| ==> c.citeids[k] == CiteId(c.fnnum.value, k))
  }

  /** The invariant of the citation list: the used citations carry the footnote
      numbers 1..n in list order, exactly the used ones are numbered, the counter
      is the next number, and occurrence ids follow their numbering. */
  predicate Valid(st: State) {
    && InRange(st.used, |st.known|)
    && st.nextFnnum == |st.used| + 1
    && (st.used != [] ==> st.loaded)
    && (forall j :: 0 <= j < |st.used| ==> st.known[st.used[j]].fnnum == Some(j + 1))
    && (forall i :: 0 <= i < |st.known| && st.known[i].fnnum.Some? ==>
          1 <= st.known[i].fnnum.value <= |st.used| && st.used[st.known[i].fnnum.value - 1] == i)
    && (forall i :: 0 <= i < |st.known| ==> IdsNumbered(st.known[i]))
  }

  /** A fresh pool makes a valid citation list. */
  lemma InitValid(pool: seq<Citation>)
    requires forall i :: 0 <= i < |pool| ==> pool[i].fnnum.None? && pool[i].citeids == []
    ensures Valid(Init(pool))
  {
  }

  lemma EmptyWithoutMembers<T>(s: seq<T>)
    ensures (forall x :: x !in s) ==> s == []
  {
    if s != [] {
      assert s[0] in s;
    }
  }

  /** A citation appears in `used` at most once. */
  lemma NoDuplicates(st: State, j: nat, j': nat)
    requires Valid(st) && j < |st.used| && j' < |st.used| && st.used[j] == st.used[j']
    ensures j == j'
  {
  }

  /** A citation has a footnote number exactly when it is in `used`. */
  lemma NumberedIffUsed(st: State, i: nat)
    requires Valid(st) && i < |st.known|
    ensures st.known[i].fnnum.Some? <==> i in st.used
  {
    if i in st.used {
      var j :| 0 <= j < |st.used| && st.used[j] == i;
    }
  }

  /** Using an already used citation adds one occurrence id to it and changes
      nothing else: `used`, the counter and every other citation stay as they
      were. */
  lemma UseAgain(st: State, reftext: string)
    requires Valid(st) && |Hits(reftext, st.known, st.used)| == 1
    ensures var i := Hits(reftext, st.known, st.used)[0];
      var (st', r) := Use(st, reftext);
      var c := st.known[i];
      var n := c.fnnum.value;
      && i in st.used && c.fnnum.Some?
      && st'.used == st.used && st'.nextFnnum == st.nextFnnum && st'.loaded == st.loaded
      && |st'.known| == |st.known|
      && (forall i' :: 0 <= i' < |st.known| && i' != i ==> st'.known[i'] == st.known[i'])
      && st'.known[i].source == c.source && st'.known[i].fnnum == c.fnnum
      && st'.known[i].citeids == c.citeids + [CiteId(n, |c.citeids|)]
      && r == Success(UseInfo(NatToString(n), UseHtml(c.source.html, ExtractPages(reftext)),
                              CiteId(n, |c.citeids|), BibId(n)))
  {
    LookupSpec(reftext, st.known, st.used);
    var i := Hits(reftext, st.known, st.used)[0];
    var j :| 0 <= j < |st.used| && st.used[j] == i;
  }

  /** A used citation that matches is also a used match. */
  lemma UsedMatchIsHit(st: State, reftext: string, i: nat)
    requires Valid(st) && i < |st.known| && st.known[i].fnnum.Some?
    requires Matches(st.known[i].source, reftext)
    ensures i in Hits(reftext, st.known, st.used)
  {
    NumberedIffUsed(st, i);
  }

  /** A reference that matches no used citation but exactly one citation of the
      pool gives that citation the next footnote number and appends it to `used`;
      its first occurrence id is `ref<n>-0`. Every other citation is unchanged. */
  lemma UseFresh(st: State, reftext: string)
    requires Valid(st) && Hits(reftext, st.known, st.used) == []
    requires |Hits(reftext, st.known, AllIndices(|st.known|))| == 1
    ensures var i := Hits(reftext, st.known, AllIndices(|st.known|))[0];
      var (st', r) := Use(st, reftext);
      var n := st.nextFnnum;
      && i < |st.known| && i !in st.used && st.known[i].fnnum.None?
      && st'.used == st.used + [i] && st'.nextFnnum == n + 1 && st'.loaded
      && |st'.known| == |st.known|
      && (forall i' :: 0 <= i' < |st.known| && i' != i ==> st'.known[i'] == st.known[i'])
      && st'.known[i] == Citation(st.known[i].source, Some(n), [CiteId(n, 0)])
      && r == Success(UseInfo(NatToString(n), UseHtml(st.known[i].source.html, ExtractPages(reftext)),
                              CiteId(n, 0), BibId(n)))
  {
    LookupSpec(reftext, st.known, st.used);
    var all := AllIndices(|st.known|);
    LookupSpec(reftext, st.known, all);
    var i := Hits(reftext, st.known, all)[0];
    if st.known[i].fnnum.Some? {
      UsedMatchIsHit(st, reftext, i);
      assert false;
    }
    NumberedIffUsed(st, i);
  }

  /** Two or more matching used citations make the reference ambiguous, and
      nothing changes. */
  lemma UseAmbiguousUsed(st: State, reftext: string)
    requires Valid(st) && |Hits(reftext, st.known, st.used)| >= 2
    ensures Use(st, reftext) == (st, Failure(Ambiguous(reftext)))
  {
    LookupSpec(reftext, st.known, st.used);
  }

  /** With no used match, two or more matches in the pool make the reference
      ambiguous; only the loaded flag changes. */
  lemma UseAmbiguousKnown(st: State, reftext: string)
    requires Valid(st) && Hits(reftext, st.known, st.used) == []
    requires |Hits(reftext, st.known, AllIndices(|st.known|))| >= 2
    ensures Use(st, reftext) == (st.(loaded := true), Failure(Ambiguous(reftext)))
  {
    LookupSpec(reftext, st.known, st.used);
    LookupSpec(reftext, st.known, AllIndices(|st.known|));
  }

  /** A reference that matches nothing is "Unknown reference"; only the loaded flag
      changes. */
  lemma UseUnknown(st: State, reftext: string)
    requires Valid(st) && Hits(reftext, st.known, AllIndices(|st.known|)) == []
    ensures Use(st, reftext) == (st.(loaded := true), Failure(Unknown(reftext)))
  {
    var all := AllIndices(|st.known|);
    LookupSpec(reftext, st.known, all);
    var h := Hits(reftext, st.known, st.used);
    forall x | x in st.used ensures x !in h {
      assert all[x] == x;
    }
    EmptyWithoutMembers(h);
    LookupSpec(reftext, st.known, st.used);
  }

  /** Using an already used citation keeps the list valid. */
  lemma UseAgainValid(st: State, reftext: string)
    requires Valid(st) && |Hits(reftext, st.known, st.used)| == 1
    ensures Valid(Use(st, reftext).0)
  {
    UseAgain(st, reftext);
    var i := Hits(reftext, st.known, st.used)[0];
    var st' := Use(st, reftext).0;
    IdsAppend(st.known[i], st'.known[i]);
    forall i' | 0 <= i' < |st'.known| && st'.known[i'].fnnum.Some?
      ensures 1 <= st'.known[i'].fnnum.value <= |st'.used| && st'.used[st'.known[i'].fnnum.value - 1] == i'
    {
      assert st'.known[i'].fnnum == st.known[i'].fnnum;
    }
  }

  /** Numbering a fresh citation keeps the list valid. */
  lemma UseFreshValid(st: State, reftext: string)
    requires Valid(st) && Hits(reftext, st.known, st.used) == []
    requires |Hits(reftext, st.known, AllIndices(|st.known|))| == 1
    ensures Valid(Use(st, reftext).0)
  {
    UseFresh(st, reftext);
    var i := Hits(reftext, st.known, AllIndices(|st.known|))[0];
    NumberedValid(st, Use(st, reftext).0, i);
  }

  /** Giving the unnumbered citation `i` the next number, its first occurrence id
      and the last place in `used` keeps the list valid. */
  lemma NumberedValid(st: State, st': State, i: nat)
    requires Valid(st) && i < |st.known| && st.known[i].fnnum.None?
    requires st'.used == st.used + [i] && st'.nextFnnum == st.nextFnnum + 1 && st'.loaded
    requires |st'.known| == |st.known|
    requires forall i' :: 0 <= i' < |st.known| && i' != i ==> st'.known[i'] == st.known[i']
    requires st'.known[i] == Citation(st.known[i].source, Some(st.nextFnnum), [CiteId(st.nextFnnum, 0)])
    ensures Valid(st')
  {
    forall j | 0 <= j < |st'.used|
      ensures st'.known[st'.used[j]].fnnum == Some(j + 1)
    {
      if j < |st.used| {
        assert st'.used[j] == st.used[j];
      }
    }
    forall i' | 0 <= i' < |st'.known| && st'.known[i'].fnnum.Some?
      ensures 1 <= st'.known[i'].fnnum.value <= |st'.used| && st'.used[st'.known[i'].fnnum.value - 1] == i'
    {
      if i' != i {
        assert st'.known[i'] == st.known[i'];
      }
    }
    assert IdsNumbered(st'.known[i]);
  }

  /** `use` on a valid list keeps it valid and never trips the footnote-number
      assertions of `set_fnnum` and `use`. When it fails, `used`, the counter and
      the pool are as they were. */
  lemma UseKeepsValid(st: State, reftext: string)
    requires Valid(st)
    ensures var (st', r) := Use(st, reftext);
      && Valid(st')
      && (r.Failure? ==> r.error != InvalidState)
      && (r.Failure? ==> st'.used == st.used && st'.nextFnnum == st.nextFnnum && st'.known == st.known)
  {
    var h := Hits(reftext, st.known, st.used);
    var ha := Hits(reftext, st.known, AllIndices(|st.known|));
    if |h| >= 2 {
      UseAmbiguousUsed(st, reftext);
    } else if |h| == 1 {
      UseAgain(st, reftext);
      UseAgainValid(st, reftext);
    } else if |ha| >= 2 {
      UseAmbiguousKnown(st, reftext);
    } else if |ha| == 0 {
      UseUnknown(st, reftext);
    } else {
      UseFresh(st, reftext);
      UseFreshValid(st, reftext);
    }
  }

  /** A successful `use` returns the data of a citation `i` in `used`: its last
      occurrence id, its bibliography id and number, and its html with the page
      reference. */
  lemma UseRecords(st: State, reftext: string) returns (i: nat)
    requires Valid(st) && Use(st, reftext).1.Success?
    ensures var (st', r) := Use(st, reftext);
      && i < |st'.known| && i in st'.used && st'.known[i].fnnum.Some?
      && st'.known[i].citeids != []
      && r.value.citeid == st'.known[i].citeids[|st'.known[i].citeids| - 1]
      && r.value.bibid == BibId(st'.known[i].fnnum.value)
      && r.value.fnnum == NatToString(st'.known[i].fnnum.value)
      && r.value.html == UseHtml(st'.known[i].source.html, ExtractPages(reftext))
  {
    var h := Hits(reftext, st.known, st.used);
    var ha := Hits(reftext, st.known, AllIndices(|st.known|));
    if |h| >= 2 {
      UseAmbiguousUsed(st, reftext);
    } else if |h| == 1 {
      UseAgain(st, reftext);
      i := h[0];
    } else if |ha| >= 2 {
      UseAmbiguousKnown(st, reftext);
    } else if |ha| == 0 {
      UseUnknown(st, reftext);
    } else {
      UseFresh(st, reftext);
      i := ha[0];
    }
  }

  lemma IdsAppend(c: Citation, c': Citation)
    requires IdsNumbered(c) && c.fnnum.Some? && c'.fnnum == c.fnnum
    requires c'.citeids == c.citeids + [CiteId(c.fnnum.value, |c.citeids|)]
    ensures IdsNumbered(c')
  {
  }

  /** `use` applied to each reference text in turn, with the result of each. */
  function UseAll(st: State, reftexts: seq<string>): (State, seq<Result<UseInfo, CiteError>>)
    requires Valid(st)
    decreases |reftexts|
  {
    if reftexts == [] then (st, [])
    else
      UseKeepsValid(st, reftexts[0]);
      var (st1, r) := Use(st, reftexts[0]);
      var (st2, rs) := UseAll(st1, reftexts[1..]);
      (st2, [r] + rs)
  }

  /** Any run of uses from a valid list ends valid, with one result per
      reference text and never a footnote-number assertion failure. */
  lemma {:induction false} UseAllValid(st: State, reftexts: seq<string>)
    requires Valid(st)
    ensures var (st', rs) := UseAll(st, reftexts);
      && Valid(st') && |rs| == |reftexts|
      && forall k :: 0 <= k < |rs| ==> rs[k] != Failure(InvalidState)
    decreases |reftexts|
  {
    if reftexts != [] {
      UseKeepsValid(st, reftexts[0]);
      var (st1, r) := Use(st, reftexts[0]);
      UseAllValid(st1, reftexts[1..]);
    }
  }

  /** Occurrence ids are unique across the whole list. */
  lemma UniqueCiteIds(st: State, i: nat, k: nat, i': nat, k': nat)
    requires Valid(st) && i < |st.known| && i' < |st.known|
    requires k < |st.known[i].citeids| && k' < |st.known[i'].citeids|
    requires st.known[i].citeids[k] == st.known[i'].citeids[k']
    ensures i == i' && k == k'
  {
    var c, c' := st.known[i], st.known[i'];
    assert c.fnnum.Some? && c'.fnnum.Some?;
    CiteIdInjective(c.fnnum.value, k, c'.fnnum.value, k');
  }

  /** The bibliography entries of the given citations, in order. */
  function BibList(known: seq<Citation>, idxs: seq<nat>): Result<seq<BibEntry>, CiteError>
    requires InRange(idxs, |known|)
  {
    if idxs == [] then Success([])
    else match MakeBibEntry(known[idxs[0]])
      case Failure(e) => Failure(e)
      case Success(b) =>
        match BibList(known, idxs[1..])
        case Failure(e) => Failure(e)
        case Success(bs) => Success([b] + bs)
  }

  /** `get_bibliography()`: one entry per used citation. */
  function GetBibliography(st: State): Result<seq<BibEntry>, CiteError>
    requires InRange(st.used, |st.known|)
  {
    BibList(st.known, st.used)
  }

  lemma {:induction false} BibListSpec(known: seq<Citation>, idxs: seq<nat>)
    requires InRange(idxs, |known|)
    requires forall j :: 0 <= j < |idxs| ==> known[idxs[j]].fnnum.Some?
    ensures var r := BibList(known, idxs);
      && r.Success? && |r.value| == |idxs|
      && forall j :: 0 <= j < |idxs| ==> Success(r.value[j]) == MakeBibEntry(known[idxs[j]])
    decreases |idxs|
  {
    if idxs != [] {
      BibListSpec(known, idxs[1..]);
      var r := BibList(known, idxs);
      assert forall j :: 1 <= j < |idxs| ==> idxs[j] == idxs[1..][j - 1];
    }
  }

  /** The bibliography lists the used citations in order of first use: entry `j`
      has footnote number `j + 1`, its id `ref<j+1>`, the occurrence ids of that
      citation and its html. */
  lemma BibliographyOrder(st: State)
    requires Valid(st)
    ensures var r := GetBibliography(st);
      && r.Success? && |r.value| == |st.used|
      && forall j :: 0 <= j < |st.used| ==>
           var b := r.value[j];
           var c := st.known[st.used[j]];
           b.fnnum == NatToString(j + 1) && b.bibid == BibId(j + 1)
           && b.citeids == c.citeids && b.html == c.source.html
  {
    BibListSpec(st.known, st.used);
  }
}
