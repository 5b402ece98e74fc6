/** The metadata preprocessor: a leading block of `Key: value` lines is read into a
    dictionary and removed from the document. */
module Metadata {
  import opened Wrappers
  import opened Text

  /** `[A-Za-z0-9_-]`: a character of a metadata key. */
  predicate KeyChar(c: char) {
    'A' <= c <= 'Z' || 'a' <= c <= 'z' || IsDigit(c) || c == '_' || c == '-'
  }

  predicate Pad(c: char) {
    c == ' '
  }

  datatype Header = Header(key: string, value: string)

  /** `re.match("^([A-Za-z0-9_-]+): *(.*) *$", line)`. The key is the run of key
      characters before the colon. The value is the rest of the line after the colon
      and the spaces that follow it. */
  function ParseHeader(line: string): (r: Option<Header>)
    ensures r.Some? ==> WellFormed(r.value)
  {
    var n := RunEnd(line, 0, KeyChar);
    if n == 0 || n == |line| || line[n] != ':' then None
    else
      match LineValue(line[RunEnd(line, n + 1, Pad)..])
      case None => None
      case Some(value) => Some(Header(line[..n], value))
  }

  /** `(.*) *$` on the text after the padding: the greedy `.*` keeps trailing spaces,
      and `$` lets one final newline through but no other. */
  function LineValue(v: string): (r: Option<string>)
    ensures r.Some? ==> '\n' !in r.value
    ensures r.Some? && r.value != [] ==> v != [] && r.value[0] == v[0]
  {
    var value := if v != [] && v[|v| - 1] == '\n' then v[..|v| - 1] else v;
    if '\n' in value then None else Some(value)
  }

  /** What a parsed header looks like: a non-empty key of key characters, and a value
      on one line that does not start with a space. */
  predicate WellFormed(h: Header) {
    && h.key != []
    && (forall k :: 0 <= k < |h.key| ==> KeyChar(h.key[k]))
    && '\n' !in h.value
    && (h.value != [] ==> h.value[0] != ' ')
  }

  function Spaces(n: nat): (r: string)
    ensures |r| == n && forall k :: 0 <= k < n ==> r[k] == ' '
  {
    seq(n, _ => ' ')
  }

  function Eol(eol: bool): string {
    if eol then "\n" else ""
  }

  /** A header line written with `pad` spaces after the colon, optionally ending in a
      newline. */
  function FormatHeader(h: Header, pad: nat, eol: bool): string {
    h.key + ":" + Spaces(pad) + h.value + Eol(eol)
  }

  lemma LineValueOf(value: string, eol: bool)
    requires '\n' !in value
    ensures LineValue(value + Eol(eol)) == Some(value)
  {
    var v := value + Eol(eol);
    if !eol {
      assert v == value;
    }
    if eol {
      assert v[..|v| - 1] == value;
    } else if v != [] {
      assert v[|v| - 1] in value;
    }
  }

  /** The key run of `key + rest` is `key` when `rest` starts with a non-key
      character. */
  lemma KeyRun(key: string, rest: string)
    requires forall k :: 0 <= k < |key| ==> KeyChar(key[k])
    requires rest != [] && !KeyChar(rest[0])
    ensures RunEnd(key + rest, 0, KeyChar) == |key|
  {
    var line := key + rest;
    assert forall k :: 0 <= k < |key| ==> line[k] == key[k];
    RunUnique(line, 0, RunEnd(line, 0, KeyChar), |key|, KeyChar);
  }

  /** The padding run after `pre` is the `pad` spaces when `tail` does not start with
      a space. */
  lemma PadRun(pre: string, pad: nat, tail: string)
    requires tail != [] ==> tail[0] != ' '
    ensures RunEnd(pre + Spaces(pad) + tail, |pre|, Pad) == |pre| + pad
  {
    var line := pre + Spaces(pad) + tail;
    var sp := |pre| + pad;
    assert forall k :: |pre| <= k < sp ==> line[k] == Spaces(pad)[k - |pre|];
    assert sp < |line| ==> line[sp] == tail[0];
    RunUnique(line, |pre|, RunEnd(line, |pre|, Pad), sp, Pad);
  }

  /** `ParseHeader` in terms of where its two runs end. */
  lemma ParseAt(line: string, h: Header, sp: nat, tail: string)
    requires 0 < |h.key| < |line| && line[|h.key|] == ':' && line[..|h.key|] == h.key
    requires RunEnd(line, 0, KeyChar) == |h.key|
    requires |h.key| < sp <= |line| && RunEnd(line, |h.key| + 1, Pad) == sp
    requires line[sp..] == tail && LineValue(tail) == Some(h.value)
    ensures ParseHeader(line) == Some(h)
  {
  }

  lemma FormatKey(h: Header, pad: nat, eol: bool)
    requires WellFormed(h)
    ensures var line := FormatHeader(h, pad, eol);
      && |h.key| < |line| && line[|h.key|] == ':' && line[..|h.key|] == h.key
      && RunEnd(line, 0, KeyChar) == |h.key|
  {
    var line := FormatHeader(h, pad, eol);
    var rest := ":" + Spaces(pad) + h.value + Eol(eol);
    assert line == h.key + rest;
    KeyRun(h.key, rest);
  }

  lemma FormatPad(h: Header, pad: nat, eol: bool)
    requires WellFormed(h)
    ensures var line := FormatHeader(h, pad, eol);
      && |h.key| + 1 + pad <= |line|
      && RunEnd(line, |h.key| + 1, Pad) == |h.key| + 1 + pad
      && line[|h.key| + 1 + pad..] == h.value + Eol(eol)
  {
    var line := FormatHeader(h, pad, eol);
    var tail := h.value + Eol(eol);
    assert line == (h.key + ":") + Spaces(pad) + tail;
    PadRun(h.key + ":", pad, tail);
  }

  /** Any well-formed header, however it is padded and terminated, reads back. */
  lemma ParseFormat(h: Header, pad: nat, eol: bool)
    requires WellFormed(h)
    ensures ParseHeader(FormatHeader(h, pad, eol)) == Some(h)
  {
    FormatKey(h, pad, eol);
    FormatPad(h, pad, eol);
    LineValueOf(h.value, eol);
    ParseAt(FormatHeader(h, pad, eol), h, |h.key| + 1 + pad, h.value + Eol(eol));
  }

  /** A line value is the text with at most a final newline removed. */
  lemma LineValueSplit(v: string) returns (eol: bool)
    requires LineValue(v).Some?
    ensures v == LineValue(v).value + Eol(eol)
  {
    eol := v != [] && v[|v| - 1] == '\n';
    if eol {
      assert v == v[..|v| - 1] + "\n";
    }
  }

  /** The key `ParseHeader` reads from a line that parses, and the colon after it. */
  lemma ParseKey(line: string) returns (h: Header, n: nat)
    requires ParseHeader(line).Some?
    ensures ParseHeader(line) == Some(h) && n == RunEnd(line, 0, KeyChar)
    ensures 0 < n < |line| && line[..n] == h.key && line[n] == ':'
  {
    h := ParseHeader(line).value;
    n := RunEnd(line, 0, KeyChar);
  }

  /** The padding and the value `ParseHeader` reads after the colon. */
  lemma ParseValue(line: string, h: Header, n: nat) returns (sp: nat)
    requires ParseHeader(line) == Some(h) && n == RunEnd(line, 0, KeyChar) && n < |line|
    ensures n < sp <= |line|
    ensures forall k :: n < k < sp ==> line[k] == ' '
    ensures LineValue(line[sp..]) == Some(h.value)
  {
    sp := RunEnd(line, n + 1, Pad);
  }

  /** Every line that parses is such a formatted header. */
  lemma FormatParse(line: string) returns (pad: nat, eol: bool)
    requires ParseHeader(line).Some?
    ensures line == FormatHeader(ParseHeader(line).value, pad, eol)
  {
    var h, n := ParseKey(line);
    var sp := ParseValue(line, h, n);
    pad := sp - n - 1;
    eol := LineValueSplit(line[sp..]);
    Assemble(line, h, pad, eol, n);
  }

  /** A line cut into a key, a colon, `pad` spaces and a value is their format. */
  lemma Assemble(line: string, h: Header, pad: nat, eol: bool, n: nat)
    requires n + 1 + pad <= |line|
    requires line[..n] == h.key && line[n] == ':'
    requires forall k :: n < k < n + 1 + pad ==> line[k] == ' '
    requires line[n + 1 + pad..] == h.value + Eol(eol)
    ensures line == FormatHeader(h, pad, eol)
  {
    var sp := n + 1 + pad;
    assert line[n + 1..sp] == Spaces(pad);
    assert line == line[..n] + [line[n]] + line[n + 1..sp] + line[sp..];
  }

  /** A line that continues the metadata block: not blank, and a header. */
  predicate IsHeaderLine(line: string) {
    Strip(line) != "" && ParseHeader(line).Some?
  }

  /** How many lines the metadata block has. */
  function HeaderCount(lines: seq<string>): (n: nat)
    ensures n <= |lines|
    ensures forall j :: 0 <= j < n ==> IsHeaderLine(lines[j])
    ensures n < |lines| ==> !IsHeaderLine(lines[n])
  {
    if lines == [] || !IsHeaderLine(lines[0]) then 0
    else
      assert forall j :: 1 <= j < |lines| ==> lines[j] == lines[1..][j - 1];
      1 + HeaderCount(lines[1..])
  }

  /** The headers of a run of header lines. */
  function Headers(lines: seq<string>): (r: seq<Header>)
    requires forall j :: 0 <= j < |lines| ==> IsHeaderLine(lines[j])
    ensures |r| == |lines|
  {
    if lines == [] then []
    else
      assert IsHeaderLine(lines[|lines| - 1]);
      Headers(lines[..|lines| - 1]) + [ParseHeader(lines[|lines| - 1]).value]
  }

  /** The dictionary after assigning each header in turn. */
  function Store(meta: map<string, string>, hs: seq<Header>): map<string, string>
    decreases |hs|
  {
    if hs == [] then meta else Store(meta[hs[0].key := hs[0].value], hs[1..])
  }

  lemma {:induction false} StoreSnoc(meta: map<string, string>, hs: seq<Header>, h: Header)
    ensures Store(meta, hs + [h]) == Store(meta, hs)[h.key := h.value]
    decreases |hs|
  {
    if hs != [] {
      assert (hs + [h])[1..] == hs[1..] + [h];
      StoreSnoc(meta[hs[0].key := hs[0].value], hs[1..], h);
    }
  }

  /** The dictionary gains exactly the keys of the headers. */
  lemma {:induction false} StoreKeys(meta: map<string, string>, hs: seq<Header>)
    ensures forall k :: k in Store(meta, hs) <==> k in meta || exists j :: 0 <= j < |hs| && hs[j].key == k
    decreases |hs|
  {
    if hs != [] {
      assert Store(meta, hs) == Store(meta[hs[0].key := hs[0].value], hs[1..]);
      StoreKeys(meta[hs[0].key := hs[0].value], hs[1..]);
      forall k | exists j :: 0 <= j < |hs| && hs[j].key == k
        ensures k in Store(meta, hs)
      {
        var j :| 0 <= j < |hs| && hs[j].key == k;
        if j > 0 {
          assert hs[1..][j - 1].key == k;
        }
      }
      forall k | k in Store(meta, hs) && k !in meta && k != hs[0].key
        ensures exists j :: 0 <= j < |hs| && hs[j].key == k
      {
        var j :| 0 <= j < |hs[1..]| && hs[1..][j].key == k;
        assert hs[j + 1].key == k;
      }
    }
  }

  /** A later line with the same key overrides an earlier one: a key ends up with the
      value of its last header. */
  lemma {:induction false} StoreLastWins(meta: map<string, string>, hs: seq<Header>, j: nat)
    requires j < |hs|
    requires forall i :: j < i < |hs| ==> hs[i].key != hs[j].key
    ensures hs[j].key in Store(meta, hs) && Store(meta, hs)[hs[j].key] == hs[j].value
    decreases |hs|
  {
    if j == 0 {
      StoreUntouched(meta[hs[0].key := hs[0].value], hs[1..], hs[0].key);
    } else {
      StoreLastWins(meta[hs[0].key := hs[0].value], hs[1..], j - 1);
    }
  }

  /** Keys no header names keep their old value, or stay absent. */
  lemma {:induction false} StoreUntouched(meta: map<string, string>, hs: seq<Header>, k: string)
    requires forall i :: 0 <= i < |hs| ==> hs[i].key != k
    ensures k in Store(meta, hs) <==> k in meta
    ensures k in meta ==> Store(meta, hs)[k] == meta[k]
    decreases |hs|
  {
    if hs != [] {
      StoreUntouched(meta[hs[0].key := hs[0].value], hs[1..], k);
    }
  }

  /** A block that stops at `i` has `i` lines. */
  lemma CountStops(lines: seq<string>, i: nat)
    requires i <= |lines|
    requires forall j :: 0 <= j < i ==> IsHeaderLine(lines[j])
    requires i < |lines| ==> !IsHeaderLine(lines[i])
    ensures HeaderCount(lines) == i
  {
  }

  lemma HeadersSnoc(lines: seq<string>, i: nat)
    requires i < |lines|
    requires forall j :: 0 <= j <= i ==> IsHeaderLine(lines[j])
    ensures ParseHeader(lines[i]).Some?
    ensures Headers(lines[..i + 1]) == Headers(lines[..i]) + [ParseHeader(lines[i]).value]
  {
    assert IsHeaderLine(lines[i]);
    assert lines[..i + 1][..i] == lines[..i];
  }

  /** `MetaDataParser.run`: header lines are stored into `meta` and removed until the
      first line that is blank, which is removed too, or that is not a header, which
      stays; everything after is returned untouched. */
  method Run(lines: seq<string>, meta: map<string, string>) returns (rest: seq<string>, meta': map<string, string>)
    ensures var n := HeaderCount(lines);
      && meta' == Store(meta, Headers(lines[..n]))
      && rest == if n < |lines| && Strip(lines[n]) == "" then lines[n + 1..] else lines[n..]
  {
    meta' := meta;
    var i := 0;
    while i < |lines|
      invariant i <= |lines|
      invariant forall j :: 0 <= j < i ==> IsHeaderLine(lines[j])
      invariant meta' == Store(meta, Headers(lines[..i]))
    {
      var line := lines[i];
      if Strip(line) == "" {
        CountStops(lines, i);
        return lines[i + 1..], meta';
      }
      var m := ParseHeader(line);
      if m.None? {
        break;
      }
      HeadersSnoc(lines, i);
      StoreSnoc(meta, Headers(lines[..i]), m.value);
      meta' := meta'[m.value.key := m.value.value];
      i := i + 1;
    }
    CountStops(lines, i);
    rest := lines[i..];
  }

  /** `Headers` reads each line on its own. */
  lemma {:induction false} HeadersAt(lines: seq<string>, j: nat)
    requires forall i :: 0 <= i < |lines| ==> IsHeaderLine(lines[i])
    requires j < |lines|
    ensures Some(Headers(lines)[j]) == ParseHeader(lines[j])
    decreases |lines|
  {
    assert IsHeaderLine(lines[j]);
    if j < |lines| - 1 {
      var init := lines[..|lines| - 1];
      assert init[j] == lines[j];
      HeadersAt(init, j);
    }
  }

  /** The header lines of a block written out one per line. */
  function FormatBlock(hs: seq<Header>): (r: seq<string>)
    ensures |r| == |hs|
    ensures forall j :: 0 <= j < |hs| ==> r[j] == FormatHeader(hs[j], 1, false)
  {
    seq(|hs|, j requires 0 <= j < |hs| => FormatHeader(hs[j], 1, false))
  }

  /** A well-formed header written out is a line of the metadata block. */
  lemma FormatIsHeaderLine(h: Header)
    requires WellFormed(h)
    ensures IsHeaderLine(FormatHeader(h, 1, false))
    ensures ParseHeader(FormatHeader(h, 1, false)) == Some(h)
  {
    var line := FormatHeader(h, 1, false);
    ParseFormat(h, 1, false);
    assert line[0] == h.key[0];
    StripKeeps(line, line[0]);
  }

  /** A block of well-formed headers followed by a blank line is read back whole: the
      block ends at the blank line and yields exactly the headers written. */
  lemma BlockRoundTrip(hs: seq<Header>, blank: string, body: seq<string>)
    requires forall j :: 0 <= j < |hs| ==> WellFormed(hs[j])
    requires IsBlank(blank)
    ensures var lines := FormatBlock(hs) + [blank] + body;
      && HeaderCount(lines) == |hs|
      && Strip(lines[|hs|]) == ""
      && Headers(lines[..|hs|]) == hs
  {
    var lines := FormatBlock(hs) + [blank] + body;
    StripEmptyIffBlank(blank);
    assert lines[|hs|] == blank;
    forall j | 0 <= j < |hs|
      ensures IsHeaderLine(lines[j]) && ParseHeader(lines[j]) == Some(hs[j])
    {
      assert lines[j] == FormatHeader(hs[j], 1, false);
      FormatIsHeaderLine(hs[j]);
    }
    CountStops(lines, |hs|);
    var block := lines[..|hs|];
    forall j | 0 <= j < |hs|
      ensures Headers(block)[j] == hs[j]
    {
      assert block[j] == lines[j];
      HeadersAt(block, j);
    }
  }
}
