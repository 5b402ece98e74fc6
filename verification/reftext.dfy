/** The shorthand reference syntax `"Mary 2004, p. 23"`: the regular expression
    `([^,0-9]+) ([0-9-]+)(?:, (.*))?` applied with `re.match`, and the `\w+` word
    tokens of its author fragment. */
module RefText {
  import opened Wrappers
  import opened Text

  /** `[^,0-9]`: a character of the author fragment. */
  predicate NameChar(c: char) {
    c != ',' && !IsDigit(c)
  }

  /** `[0-9-]`: a character of the date fragment. */
  predicate YearChar(c: char) {
    IsDigit(c) || c == '-'
  }

  /** `\w` without the unicode flag. */
  predicate WordChar(c: char) {
    'A' <= c <= 'Z' || 'a' <= c <= 'z' || IsDigit(c) || c == '_'
  }

  /** The three groups of a successful match; `pages` is `None` when the optional
      `, (.*)` group did not take part. */
  datatype RefMatch = RefMatch(names: string, year: string, pages: Option<string>)

  /** The text up to the first newline: what `.*` matches without `re.DOTALL`. */
  function Line(s: string): (r: string)
    ensures |r| <= |s| && r == s[..|r|]
    ensures '\n' !in r
    ensures |r| < |s| ==> s[|r|] == '\n'
  {
    if s == [] || s[0] == '\n' then [] else [s[0]] + Line(s[1..])
  }

  /** Group 1 can end at `i`: a non-empty run of author characters, then a space
      and a date character. */
  predicate IsSplit(s: string, i: int) {
    1 <= i && i + 1 < |s| && s[i] == ' ' && YearChar(s[i + 1])
    && forall k :: 0 <= k < i ==> NameChar(s[k])
  }

  /** The largest split point at or below `i`, searching down to 1, where every
      character up to `i` is an author character. */
  function LastSplit(s: string, i: nat): (r: Option<nat>)
    requires i < |s| && forall k :: 0 <= k <= i ==> NameChar(s[k])
    ensures r.Some? ==> r.value <= i && IsSplit(s, r.value)
    ensures r.Some? ==> forall j :: r.value < j <= i ==> !IsSplit(s, j)
    ensures r.None? ==> forall j :: j <= i ==> !IsSplit(s, j)
  {
    if i == 0 then None
    else if s[i] == ' ' && i + 1 < |s| && YearChar(s[i + 1]) then Some(i)
    else LastSplit(s, i - 1)
  }

  /** `re.match(REFTEX_RX, s)`. The greedy first group backs off from the end of the
      leading author run to the last space followed by a date character; the
      second group is the whole date run after it; the third group is present when
      `", "` follows, and runs to the end of the line. The match is anchored only at
      the start. */
  function ParseRef(s: string): Option<RefMatch> {
    var n := RunEnd(s, 0, NameChar);
    if n == 0 then None
    else match LastSplit(s, n - 1)
      case None => None
      case Some(i) =>
        var e := RunEnd(s, i + 1, YearChar);
        Some(RefMatch(s[..i], s[i + 1..e], PagesAt(s, e)))
  }

  /** Group 3 after a date run ending at `e`: the rest of the line after `", "`. */
  function PagesAt(s: string, e: nat): Option<string>
    requires e <= |s|
  {
    if e + 2 <= |s| && s[e] == ',' && s[e + 1] == ' ' then Some(Line(s[e + 2..])) else None
  }

  /** No split point lies beyond the author run. */
  lemma SplitInRun(s: string, j: int)
    requires IsSplit(s, j)
    ensures j < RunEnd(s, 0, NameChar)
  {
  }

  /** The regular expression matches exactly when the text has a split point. */
  lemma ParseRefFound(s: string)
    ensures ParseRef(s).Some? <==> exists i :: IsSplit(s, i)
  {
    if exists i :: IsSplit(s, i) {
      var i :| IsSplit(s, i);
      SplitInRun(s, i);
    }
  }

  /** `m` holds the groups of a match on `s`: group 1 ends at the last split point,
      group 2 is the maximal date run after it, and group 3 is present exactly when
      `", "` follows, holding the rest of that line. */
  ghost predicate Groups(s: string, m: RefMatch) {
    && NamesGroup(s, m.names)
    && YearGroup(s, |m.names| + 1, m.year)
    && PagesGroup(s, |m.names| + 1 + |m.year|, m.pages)
  }

  /** Group 1 ends at the last split point. */
  ghost predicate NamesGroup(s: string, names: string) {
    IsSplit(s, |names|) && s[..|names|] == names && forall j :: IsSplit(s, j) ==> j <= |names|
  }

  /** Group 2 is the maximal run of date characters from `b`. */
  predicate YearGroup(s: string, b: nat, year: string) {
    && b + |year| <= |s| && s[b..b + |year|] == year && year != []
    && (forall k :: 0 <= k < |year| ==> YearChar(year[k]))
    && (b + |year| < |s| ==> !YearChar(s[b + |year|]))
  }

  /** Group 3 is present exactly when `", "` comes at `e`, and holds the rest of that
      line. */
  predicate PagesGroup(s: string, e: nat, pages: Option<string>) {
    && (pages.Some? <==> e + 2 <= |s| && s[e] == ',' && s[e + 1] == ' ')
    && (pages.Some? ==> pages.value == Line(s[e + 2..]))
  }

  /** A successful match has the groups described by `Groups`. */
  lemma ParseRefGroups(s: string)
    requires ParseRef(s).Some?
    ensures Groups(s, ParseRef(s).value)
  {
    var i, e := ParseRefShape(s);
    GroupsAt(s, i, e);
  }

  /** Where the groups of a successful match end. */
  lemma ParseRefShape(s: string) returns (i: nat, e: nat)
    requires ParseRef(s).Some?
    ensures IsSplit(s, i) && forall j :: IsSplit(s, j) ==> j <= i
    ensures i + 1 <= e <= |s| && ParseRef(s).value == RefMatch(s[..i], s[i + 1..e], PagesAt(s, e))
    ensures forall k :: i + 1 <= k < e ==> YearChar(s[k])
    ensures e < |s| ==> !YearChar(s[e])
  {
    var n := RunEnd(s, 0, NameChar);
    i := LastSplit(s, n - 1).value;
    forall j | IsSplit(s, j) ensures j <= i {
      SplitInRun(s, j);
    }
    e := RunEnd(s, i + 1, YearChar);
  }

  /** The groups read at split point `i` with the date run ending at `e`. */
  lemma GroupsAt(s: string, i: nat, e: nat)
    requires IsSplit(s, i) && forall j :: IsSplit(s, j) ==> j <= i
    requires i + 1 <= e <= |s|
    requires forall k :: i + 1 <= k < e ==> YearChar(s[k])
    requires e < |s| ==> !YearChar(s[e])
    ensures Groups(s, RefMatch(s[..i], s[i + 1..e], PagesAt(s, e)))
  {
    var m := RefMatch(s[..i], s[i + 1..e], PagesAt(s, e));
    assert NamesGroup(s, m.names) by { assert |m.names| == i; }
    assert YearGroup(s, i + 1, m.year) by {
      assert |m.year| == e - i - 1;
      assert s[i + 1] == m.year[0];
    }
  }

  /** The characters of a match's three groups satisfy their classes. */
  predicate WellFormed(m: RefMatch) {
    && m.names != [] && (forall k :: 0 <= k < |m.names| ==> NameChar(m.names[k]))
    && m.year != [] && (forall k :: 0 <= k < |m.year| ==> YearChar(m.year[k]))
    && (m.pages.Some? ==> '\n' !in m.pages.value)
  }

  /** The shorthand a writer types: `names year` or `names year, pages`. */
  function FormatRef(m: RefMatch): string {
    m.names + " " + m.year + PagesText(m.pages)
  }

  /** `", pages"`, or nothing without pages. */
  function PagesText(pages: Option<string>): string {
    if pages.Some? then ", " + pages.value else ""
  }

  lemma LineAll(s: string)
    requires '\n' !in s
    ensures Line(s) == s
  {
  }

  /** The split point of a formatted shorthand is the end of its names. */
  lemma FormatSplit(m: RefMatch)
    requires WellFormed(m)
    ensures IsSplit(FormatRef(m), |m.names|)
    ensures forall j :: IsSplit(FormatRef(m), j) ==> j <= |m.names|
  {
    var s := FormatRef(m);
    var i := |m.names|;
    var e := i + 1 + |m.year|;
    assert forall k :: 0 <= k < i ==> s[k] == m.names[k];
    assert forall k :: 0 <= k < |m.year| ==> s[i + 1 + k] == m.year[k];
    assert s[i] == ' ';
    forall j | i < j < |s| ensures !IsSplit(s, j) {
      if j < e {
        assert s[j] == m.year[j - i - 1];
      } else {
        assert s[e] == ',';
      }
    }
  }

  /** A well-formed shorthand is read back into the groups it was written from. */
  lemma ParseFormat(m: RefMatch)
    requires WellFormed(m)
    ensures ParseRef(FormatRef(m)) == Some(m)
  {
    var s := FormatRef(m);
    FormatSplit(m);
    ParseRefFound(s);
    ParseRefGroups(s);
    FormatGroups(m);
    GroupsUnique(s, ParseRef(s).value, m);
  }

  /** A formatted shorthand has the groups it was written from. */
  lemma FormatGroups(m: RefMatch)
    requires WellFormed(m)
    ensures Groups(FormatRef(m), m)
  {
    var s := FormatRef(m);
    var i := |m.names|;
    var e := i + 1 + |m.year|;
    var tail := if m.pages.Some? then ", " + m.pages.value else "";
    FormatSplit(m);
    assert s == m.names + " " + m.year + tail;
    assert s[..i] == m.names;
    assert s[i + 1..e] == m.year;
    assert s[e..] == tail;
    if m.pages.Some? {
      assert s[e] == ',' && s[e + 1] == ' ';
      assert s[e + 2..] == m.pages.value;
      LineAll(m.pages.value);
    }
  }

  /** A text determines its groups. */
  lemma GroupsUnique(s: string, a: RefMatch, b: RefMatch)
    requires Groups(s, a) && Groups(s, b)
    ensures a == b
  {
    NamesUnique(s, a.names, b.names);
    YearUnique(s, |a.names| + 1, a.year, b.year);
    PagesUnique(s, |a.names| + 1 + |a.year|, a.pages, b.pages);
  }

  lemma NamesUnique(s: string, a: string, b: string)
    requires NamesGroup(s, a) && NamesGroup(s, b)
    ensures a == b
  {
    assert |a| <= |b| && |b| <= |a|;
  }

  lemma PagesUnique(s: string, e: nat, a: Option<string>, b: Option<string>)
    requires PagesGroup(s, e, a) && PagesGroup(s, e, b)
    ensures a == b
  {
  }

  lemma YearUnique(s: string, y: nat, a: string, b: string)
    requires YearGroup(s, y, a) && YearGroup(s, y, b)
    ensures a == b
  {
    assert forall k :: y <= k < y + |a| ==> YearChar(s[k]) by {
      forall k | y <= k < y + |a| ensures YearChar(s[k]) {
        assert s[k] == a[k - y];
      }
    }
    assert forall k :: y <= k < y + |b| ==> YearChar(s[k]) by {
      forall k | y <= k < y + |b| ensures YearChar(s[k]) {
        assert s[k] == b[k - y];
      }
    }
    RunUnique(s, y, y + |a|, y + |b|, YearChar);
  }

  /** What a match reads is written at the start of the text: the match covers a
      prefix, and any text after it is not part of a group. */
  lemma ParsePrefix(s: string)
    requires ParseRef(s).Some?
    ensures WellFormed(ParseRef(s).value)
    ensures var f := FormatRef(ParseRef(s).value); |f| <= |s| && s[..|f|] == f
  {
    ParseRefGroups(s);
    GroupsPrefix(s, ParseRef(s).value);
  }

  lemma GroupsPrefix(s: string, m: RefMatch)
    requires Groups(s, m)
    ensures WellFormed(m)
    ensures var f := FormatRef(m); |f| <= |s| && s[..|f|] == f
  {
    var i := |m.names|;
    var e := i + 1 + |m.year|;
    NamesWellFormed(s, m.names);
    PagesPrefix(s, e, m.pages);
    var end := e + |PagesText(m.pages)|;
    PrefixConcat(s, i, e, end);
    assert s[..i] == m.names && s[i] == ' ' && s[i + 1..e] == m.year;
  }

  lemma NamesWellFormed(s: string, names: string)
    requires NamesGroup(s, names)
    ensures names != [] && forall k :: 0 <= k < |names| ==> NameChar(names[k])
  {
    forall k | 0 <= k < |names| ensures NameChar(names[k]) {
      assert names[k] == s[k];
    }
  }

  lemma PagesPrefix(s: string, e: nat, pages: Option<string>)
    requires e <= |s| && PagesGroup(s, e, pages)
    ensures e + |PagesText(pages)| <= |s| && s[e..e + |PagesText(pages)|] == PagesText(pages)
    ensures pages.Some? ==> '\n' !in pages.value
  {
    if pages.Some? {
      var p := pages.value;
      assert s[e + 2..][..|p|] == p;
      assert s[e..e + 2 + |p|] == ", " + p;
    }
  }

  lemma PrefixConcat(s: string, i: nat, e: nat, end: nat)
    requires i < e <= end <= |s|
    ensures s[..end] == s[..i] + [s[i]] + s[i + 1..e] + s[e..end]
  {
  }

  /** `re.findall(r"(\w+)", s)`: the maximal runs of word characters, in order. */
  function WordTokens(s: string): (r: seq<string>)
    ensures forall t :: 0 <= t < |r| ==> r[t] != [] && forall k :: 0 <= k < |r[t]| ==> WordChar(r[t][k])
    decreases |s|
  {
    if s == [] then []
    else if !WordChar(s[0]) then WordTokens(s[1..])
    else
      var n := RunEnd(s, 0, WordChar);
      [s[..n]] + WordTokens(s[n..])
  }

  /** The word characters of `s`, in order. */
  function WordChars(s: string): string {
    if s == [] then [] else (if WordChar(s[0]) then [s[0]] else []) + WordChars(s[1..])
  }

  function Concat(ts: seq<string>): string {
    if ts == [] then [] else ts[0] + Concat(ts[1..])
  }

  lemma {:induction false} WordCharsAppend(a: string, b: string)
    ensures WordChars(a + b) == WordChars(a) + WordChars(b)
    decreases |a|
  {
    if a == [] {
      assert a + b == b;
    } else {
      var c := if WordChar(a[0]) then [a[0]] else [];
      assert (a + b)[1..] == a[1..] + b;
      assert WordChars(a + b) == c + WordChars(a[1..] + b);
      WordCharsAppend(a[1..], b);
      assert WordChars(a) == c + WordChars(a[1..]);
    }
  }

  lemma {:induction false} WordCharsOfWord(a: string)
    requires forall k :: 0 <= k < |a| ==> WordChar(a[k])
    ensures WordChars(a) == a
    decreases |a|
  {
    if a != [] {
      WordCharsOfWord(a[1..]);
      assert a == [a[0]] + a[1..];
    }
  }

  /** The tokens lose nothing but the separators: together they are exactly the
      word characters of the text. */
  lemma {:induction false} WordTokensCover(s: string)
    ensures Concat(WordTokens(s)) == WordChars(s)
    decreases |s|
  {
    if s != [] {
      if !WordChar(s[0]) {
        WordTokensCover(s[1..]);
        assert WordTokens(s) == WordTokens(s[1..]);
        assert WordChars(s) == WordChars(s[1..]);
      } else {
        var n := RunEnd(s, 0, WordChar);
        WordTokensCover(s[n..]);
        assert s == s[..n] + s[n..];
        WordCharsAppend(s[..n], s[n..]);
        WordCharsOfWord(s[..n]);
        var ts := WordTokens(s);
        assert ts == [s[..n]] + WordTokens(s[n..]);
        assert ts[1..] == WordTokens(s[n..]);
        assert Concat(ts) == ts[0] + Concat(ts[1..]);
      }
    }
  }

  /** Every token is a substring of the text it was read from. */
  lemma {:induction false} WordTokensOccur(s: string, t: nat)
    requires t < |WordTokens(s)|
    ensures Contains(s, WordTokens(s)[t])
    decreases |s|
  {
    if !WordChar(s[0]) {
      WordTokensOccur(s[1..], t);
      ContainsParts([s[0]], s[1..]);
      assert s == [s[0]] + s[1..];
      ContainsTrans(s, s[1..], WordTokens(s)[t]);
    } else {
      var n := RunEnd(s, 0, WordChar);
      assert s == s[..n] + s[n..];
      ContainsParts(s[..n], s[n..]);
      if t > 0 {
        assert WordTokens(s)[t] == WordTokens(s[n..])[t - 1];
        WordTokensOccur(s[n..], t - 1);
        ContainsTrans(s, s[n..], WordTokens(s)[t]);
      }
    }
  }
}
