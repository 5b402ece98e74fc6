/** String helpers mirroring the few Python `str` methods the extensions use:
    `strip`, `lower`, `in`, `find`, `split`, `join` and `str(n)` for naturals. */
module Text {
  import opened Wrappers

  /** Python 2.7 `unicode.isspace`: the characters `strip()` removes. */
  predicate IsSpace(c: char) {
    || c in {' ', '\t', '\n', '\r', '\U{0B}', '\U{0C}', '\U{1C}', '\U{1D}', '\U{1E}', '\U{1F}',
             '\U{85}', '\U{A0}', '\U{1680}', '\U{180E}', '\U{2028}', '\U{2029}', '\U{202F}',
             '\U{205F}', '\U{3000}'}
    || ('\U{2000}' <= c <= '\U{200A}')
  }

  predicate IsBlank(s: string) {
    forall k :: 0 <= k < |s| ==> IsSpace(s[k])
  }

  predicate IsDigit(c: char) {
    '0' <= c <= '9'
  }

  /** `s.lstrip()`. */
  function TrimLeft(s: string): string {
    if s != [] && IsSpace(s[0]) then TrimLeft(s[1..]) else s
  }

  /** `s.rstrip()`. */
  function TrimRight(s: string): string {
    if s != [] && IsSpace(s[|s| - 1]) then TrimRight(s[..|s| - 1]) else s
  }

  /** `lstrip` drops exactly the leading whitespace: the result is a suffix of `s`,
      everything before it is whitespace, and it does not start with whitespace. */
  lemma {:induction false} TrimLeftSpec(s: string)
    ensures |TrimLeft(s)| <= |s| && TrimLeft(s) == s[|s| - |TrimLeft(s)|..]
    ensures IsBlank(s[..|s| - |TrimLeft(s)|])
    ensures TrimLeft(s) != [] ==> !IsSpace(TrimLeft(s)[0])
  {
    if s != [] && IsSpace(s[0]) {
      TrimLeftSpec(s[1..]);
      var n := |s| - |TrimLeft(s)|;
      assert s[..n] == [s[0]] + s[1..][..n - 1];
    }
  }

  /** `rstrip` drops exactly the trailing whitespace. */
  lemma {:induction false} TrimRightSpec(s: string)
    ensures |TrimRight(s)| <= |s| && TrimRight(s) == s[..|TrimRight(s)|]
    ensures IsBlank(s[|TrimRight(s)|..])
    ensures TrimRight(s) != [] ==> !IsSpace(TrimRight(s)[|TrimRight(s)| - 1])
  {
    if s != [] && IsSpace(s[|s| - 1]) {
      var t := s[..|s| - 1];
      TrimRightSpec(t);
      var n := |TrimRight(s)|;
      assert s[n..] == t[n..] + [s[|s| - 1]];
    }
  }

  /** `s.strip()`. */
  function Strip(s: string): string {
    TrimRight(TrimLeft(s))
  }

  /** `s.strip() == ''` holds exactly for the all-whitespace strings. */
  lemma StripEmptyIffBlank(s: string)
    ensures Strip(s) == "" <==> IsBlank(s)
  {
    TrimLeftSpec(s);
    TrimRightSpec(TrimLeft(s));
    if Strip(s) == "" {
      var l := TrimLeft(s);
      forall k | 0 <= k < |s|
        ensures IsSpace(s[k])
      {
        if k < |s| - |l| {
          assert s[k] == s[..|s| - |l|][k];
        }
      }
    }
  }

  function LowerChar(c: char): char {
    if 'A' <= c <= 'Z' then (c as int + 32) as char else c
  }

  /** The end of the longest run of `p`-characters starting at `i`. */
  function RunEnd(s: string, i: nat, p: char -> bool): (j: nat)
    requires i <= |s|
    ensures i <= j <= |s|
    ensures forall k :: i <= k < j ==> p(s[k])
    ensures j < |s| ==> !p(s[j])
    decreases |s| - i
  {
    if i < |s| && p(s[i]) then RunEnd(s, i + 1, p) else i
  }

  /** A maximal run has one end. */
  lemma RunUnique(s: string, i: nat, a: nat, b: nat, p: char -> bool)
    requires i <= a <= |s| && i <= b <= |s|
    requires forall k :: i <= k < a ==> p(s[k])
    requires forall k :: i <= k < b ==> p(s[k])
    requires a < |s| ==> !p(s[a])
    requires b < |s| ==> !p(s[b])
    ensures a == b
  {
  }

  /** `s.lower()` on the ASCII letters. */
  function Lower(s: string): (r: string)
    ensures |r| == |s|
    ensures forall k {:trigger r[k]} :: 0 <= k < |s| ==> r[k] == LowerChar(s[k])
  {
    if s == [] then [] else [LowerChar(s[0])] + Lower(s[1..])
  }

  /** `needle` occurs in `hay` at position `i`. */
  predicate OccursAt(hay: string, needle: string, i: int) {
    0 <= i && i + |needle| <= |hay| && hay[i..i + |needle|] == needle
  }

  /** `hay.find(needle, start)`, with `None` for -1. */
  function FindFrom(hay: string, needle: string, start: nat): (r: Option<nat>)
    ensures r.Some? ==> start <= r.value && OccursAt(hay, needle, r.value)
    ensures r.Some? ==> forall j :: start <= j < r.value ==> !OccursAt(hay, needle, j)
    ensures r.None? ==> forall j :: start <= j ==> !OccursAt(hay, needle, j)
    decreases |hay| - start
  {
    if start + |needle| > |hay| then None
    else if hay[start..start + |needle|] == needle then Some(start)
    else FindFrom(hay, needle, start + 1)
  }

  /** `hay.find(needle)`: the first occurrence. */
  function Find(hay: string, needle: string): (r: Option<nat>)
    ensures r.Some? ==> OccursAt(hay, needle, r.value)
    ensures r.Some? ==> forall j :: 0 <= j < r.value ==> !OccursAt(hay, needle, j)
    ensures r.None? ==> forall j :: !OccursAt(hay, needle, j)
  {
    FindFrom(hay, needle, 0)
  }

  /** Python's `needle in hay` for strings. */
  predicate Contains(hay: string, needle: string) {
    Find(hay, needle).Some?
  }

  lemma ContainsIff(hay: string, needle: string)
    ensures Contains(hay, needle) <==> exists i :: OccursAt(hay, needle, i)
  {
  }

  lemma ContainsChar(hay: string, c: char)
    ensures Contains(hay, [c]) <==> c in hay
  {
    if c in hay {
      var i :| 0 <= i < |hay| && hay[i] == c;
      assert hay[i..i + 1] == [c];
      assert OccursAt(hay, [c], i);
    }
    if Contains(hay, [c]) {
      var i := Find(hay, [c]).value;
      assert hay[i] == hay[i..i + 1][0];
    }
  }

  /** Substring containment is transitive. */
  lemma ContainsTrans(a: string, b: string, c: string)
    requires Contains(a, b) && Contains(b, c)
    ensures Contains(a, c)
  {
    var i := Find(a, b).value;
    var j := Find(b, c).value;
    forall t | 0 <= t < |c|
      ensures a[i + j + t] == c[t]
    {
      assert b[j + t] == b[j..j + |c|][t];
      assert a[i + j + t] == a[i..i + |b|][j + t];
    }
    assert a[i + j..i + j + |c|] == c;
    assert OccursAt(a, c, i + j);
  }

  /** Both halves of `a + b` occur in it. */
  lemma ContainsParts(a: string, b: string)
    ensures Contains(a + b, a) && Contains(a + b, b)
  {
    assert (a + b)[..|a|] == a;
    assert OccursAt(a + b, a, 0);
    assert (a + b)[|a|..|a| + |b|] == b;
    assert OccursAt(a + b, b, |a|);
  }

  /** Stripping removes only whitespace, so a non-space character survives it. */
  lemma StripKeeps(s: string, c: char)
    requires !IsSpace(c)
    ensures c in Strip(s) <==> c in s
  {
    TrimLeftKeeps(s, c);
    TrimRightKeeps(TrimLeft(s), c);
  }

  lemma {:induction false} TrimLeftKeeps(s: string, c: char)
    requires !IsSpace(c)
    ensures c in TrimLeft(s) <==> c in s
  {
    if s != [] && IsSpace(s[0]) {
      TrimLeftKeeps(s[1..], c);
      assert s == [s[0]] + s[1..];
    }
  }

  lemma {:induction false} TrimRightKeeps(s: string, c: char)
    requires !IsSpace(c)
    ensures c in TrimRight(s) <==> c in s
  {
    if s != [] && IsSpace(s[|s| - 1]) {
      TrimRightKeeps(s[..|s| - 1], c);
      assert s == s[..|s| - 1] + [s[|s| - 1]];
    }
  }

  /** `hay.split(sep, 1)` when it yields two parts: the text around the first `sep`. */
  function SplitOnce(hay: string, sep: string): (r: Option<(string, string)>)
    ensures r.None? <==> !Contains(hay, sep)
    ensures r.Some? ==> hay == r.value.0 + sep + r.value.1
    ensures r.Some? ==> forall j :: 0 <= j < |r.value.0| ==> !OccursAt(hay, sep, j)
  {
    match Find(hay, sep)
    case None => None
    case Some(i) =>
      assert hay == hay[..i] + sep + hay[i + |sep|..] by {
        assert hay[i..i + |sep|] == sep;
      }
      Some((hay[..i], hay[i + |sep|..]))
  }

  /** `sep.join(parts)`. */
  function Join(sep: string, parts: seq<string>): string
    decreases |parts|
  {
    if |parts| == 0 then ""
    else if |parts| == 1 then parts[0]
    else parts[0] + sep + Join(sep, parts[1..])
  }

  /** Every part is a substring of the joined string. */
  lemma {:induction false} JoinContains(sep: string, parts: seq<string>, i: nat)
    requires i < |parts|
    ensures Contains(Join(sep, parts), parts[i])
    decreases |parts|
  {
    var j := Join(sep, parts);
    if i == 0 {
      assert j[..|parts[0]|] == parts[0];
      assert OccursAt(j, parts[0], 0);
    } else {
      var tail := Join(sep, parts[1..]);
      JoinContains(sep, parts[1..], i - 1);
      assert parts[1..][i - 1] == parts[i];
      assert j == parts[0] + sep + tail;
      ContainsParts(parts[0] + sep, tail);
      ContainsTrans(j, tail, parts[i]);
    }
  }

  /** Each part sits in the joined string with only the other parts and separators
      around it. */
  lemma {:induction false} JoinAt(sep: string, parts: seq<string>, k: nat) returns (pre: string, post: string)
    requires k < |parts|
    ensures Join(sep, parts) == pre + parts[k] + post
    ensures k + 1 < |parts| ==> post == sep + Join(sep, parts[k + 1..])
    decreases |parts|
  {
    if k == 0 {
      pre := "";
      post := if |parts| == 1 then "" else sep + Join(sep, parts[1..]);
    } else {
      var pre', post' := JoinAt(sep, parts[1..], k - 1);
      assert parts[1..][k - 1] == parts[k] && parts[1..][k..] == parts[k + 1..];
      pre, post := parts[0] + sep + pre', post';
    }
  }

  /** A part joined before a later one is followed by the separator, and the later
      part comes after it: `sep.join` keeps the order of its parts. */
  lemma JoinOrder(sep: string, parts: seq<string>, i: nat, j: nat) returns (pre: string, mid: string, post: string)
    requires i < j < |parts|
    ensures Join(sep, parts) == pre + parts[i] + sep + mid + parts[j] + post
  {
    var pre1, post1 := JoinAt(sep, parts, i);
    var rest := parts[i + 1..];
    var mid', post' := JoinAt(sep, rest, j - i - 1);
    assert rest[j - i - 1] == parts[j];
    pre, mid, post := pre1, mid', post';
  }

  /** Joining non-empty parts gives the empty string only when there are none. */
  lemma JoinEmpty(sep: string, parts: seq<string>)
    requires forall k :: 0 <= k < |parts| ==> parts[k] != ""
    ensures Join(sep, parts) == "" <==> parts == []
  {
    if parts != [] {
      assert |Join(sep, parts)| >= |parts[0]|;
    }
  }

  /** `s.split(sep)` for a one-character separator: the maximal `sep`-free pieces. */
  function Split(s: string, sep: char): (r: seq<string>)
    ensures |r| >= 1
    ensures forall k :: 0 <= k < |r| ==> sep !in r[k]
    decreases |s|
  {
    match Find(s, [sep])
    case None =>
      assert forall k :: 0 <= k < |s| ==> s[k] != sep by {
        forall k | 0 <= k < |s| ensures s[k] != sep {
          assert !OccursAt(s, [sep], k);
          assert s[k..k + 1] == [s[k]];
        }
      }
      [s]
    case Some(i) =>
      assert sep !in s[..i] by {
        forall k | 0 <= k < i ensures s[k] != sep {
          assert !OccursAt(s, [sep], k);
          assert s[k..k + 1] == [s[k]];
        }
      }
      [s[..i]] + Split(s[i + 1..], sep)
  }

  /** Splitting loses nothing: joining the pieces back with `sep` gives `s`. */
  lemma {:induction false} SplitJoin(s: string, sep: char)
    ensures Join([sep], Split(s, sep)) == s
    decreases |s|
  {
    match Find(s, [sep])
    case None =>
    case Some(i) =>
      SplitJoin(s[i + 1..], sep);
      var r := Split(s, sep);
      assert r[1..] == Split(s[i + 1..], sep);
      assert s[i..i + 1] == [sep];
      assert s == s[..i] + [sep] + s[i + 1..];
  }

  function DigitChar(d: nat): char
    requires d < 10
  {
    ('0' as int + d) as char
  }

  /** `str(n)` for a natural number: its decimal digits, most significant first. */
  function NatToString(n: nat): (r: string)
    ensures |r| >= 1
    ensures forall k :: 0 <= k < |r| ==> IsDigit(r[k])
    ensures r[0] == '0' ==> n == 0
  {
    if n < 10 then [DigitChar(n)] else NatToString(n / 10) + [DigitChar(n % 10)]
  }

  function DigitValue(c: char): nat
    requires IsDigit(c)
  {
    assert '0' as int <= c as int;
    c as int - '0' as int
  }

  /** The number a string of decimal digits denotes. */
  function DigitsValue(s: string): nat
    requires forall k :: 0 <= k < |s| ==> IsDigit(s[k])
  {
    if s == [] then 0 else DigitsValue(s[..|s| - 1]) * 10 + DigitValue(s[|s| - 1])
  }

  /** Reading back the decimal rendering gives the number: `int(str(n)) == n`. */
  lemma {:induction false} NatToStringRoundTrip(n: nat)
    ensures DigitsValue(NatToString(n)) == n
  {
    if n >= 10 {
      var s := NatToString(n);
      assert s[..|s| - 1] == NatToString(n / 10);
      NatToStringRoundTrip(n / 10);
    }
  }

  /** Different numbers have different decimal renderings. */
  lemma NatToStringInjective(a: nat, b: nat)
    requires NatToString(a) == NatToString(b)
    ensures a == b
  {
    NatToStringRoundTrip(a);
    NatToStringRoundTrip(b);
  }
}
