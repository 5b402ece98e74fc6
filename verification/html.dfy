/** The two escaping functions the citation formatter relies on:
    `cgi.escape` (HTML entity escaping) and `urllib.quote` (percent-encoding),
    each with the decoder that undoes it. */
module Html {

  /** `cgi.escape` on one character; `quote` also escapes the double quote. */
  function EscapeChar(c: char, quote: bool): string {
    if c == '&' then "&amp;"
    else if c == '<' then "&lt;"
    else if c == '>' then "&gt;"
    else if quote && c == '"' then "&quot;"
    else [c]
  }

  /** `cgi.escape(s, quote)`. Replacing `&` first and then `<`, `>` (and `"`) is the
      same as escaping character by character, which is how it is written here. */
  function Escape(s: string, quote: bool): string {
    if s == [] then "" else EscapeChar(s[0], quote) + Escape(s[1..], quote)
  }

  /** Escaped text has no angle brackets, and no double quote when quoting, so it
      cannot open or close a tag or an attribute. */
  lemma {:induction false} EscapeSafe(s: string, quote: bool)
    ensures '<' !in Escape(s, quote) && '>' !in Escape(s, quote)
    ensures quote ==> '"' !in Escape(s, quote)
  {
    if s != [] {
      EscapeSafe(s[1..], quote);
    }
  }

  predicate HasPrefix(s: string, p: string) {
    |p| <= |s| && s[..|p|] == p
  }

  /** Decodes the four entities `Escape` produces; any other text is kept. */
  function Unescape(s: string): string
    decreases |s|
  {
    if s == [] then ""
    else if s[0] != '&' then [s[0]] + Unescape(s[1..])
    else if HasPrefix(s, "&amp;") then "&" + Unescape(s[5..])
    else if HasPrefix(s, "&lt;") then "<" + Unescape(s[4..])
    else if HasPrefix(s, "&gt;") then ">" + Unescape(s[4..])
    else if HasPrefix(s, "&quot;") then "\"" + Unescape(s[6..])
    else [s[0]] + Unescape(s[1..])
  }

  lemma UnescapeEntity(e: string, c: char, t: string)
    requires e in {"&amp;", "&lt;", "&gt;", "&quot;"}
    requires c == (if e == "&amp;" then '&' else if e == "&lt;" then '<' else if e == "&gt;" then '>' else '"')
    ensures Unescape(e + t) == [c] + Unescape(t)
  {
    var s := e + t;
    assert s[..|e|] == e && s[|e|..] == t;
    assert s[0] == '&' && s[1] == e[1];
  }

  lemma UnescapeChar(c: char, quote: bool, t: string)
    ensures Unescape(EscapeChar(c, quote) + t) == [c] + Unescape(t)
  {
    var e := EscapeChar(c, quote);
    if c == '&' || c == '<' || c == '>' || (quote && c == '"') {
      UnescapeEntity(e, c, t);
    } else {
      assert (e + t)[0] == c && (e + t)[1..] == t;
    }
  }

  /** Escaping loses nothing: decoding the escaped text gives the original back. */
  lemma {:induction false} EscapeRoundTrip(s: string, quote: bool)
    ensures Unescape(Escape(s, quote)) == s
  {
    if s != [] {
      UnescapeChar(s[0], quote, Escape(s[1..], quote));
      EscapeRoundTrip(s[1..], quote);
      assert [s[0]] + s[1..] == s;
    }
  }

  /** Characters Python 2's `urllib.quote(s)` leaves alone: ASCII letters and digits,
      `_`, `.`, `-` and the default safe character `/`. */
  predicate IsUrlSafe(c: char) {
    ('A' <= c <= 'Z') || ('a' <= c <= 'z') || ('0' <= c <= '9') || c in {'_', '.', '-', '/'}
  }

  function HexDigit(d: nat): char
    requires d < 16
  {
    "0123456789ABCDEF"[d]
  }

  predicate IsHexDigit(c: char) {
    ('0' <= c <= '9') || ('A' <= c <= 'F') || ('a' <= c <= 'f')
  }

  function HexValue(c: char): nat
    requires IsHexDigit(c)
  {
    if '0' <= c <= '9' then c as int - '0' as int
    else if 'A' <= c <= 'F' then c as int - 'A' as int + 10
    else c as int - 'a' as int + 10
  }

  /** `urllib.quote` on one character: `%XX` with upper-case hex for an unsafe ASCII
      character; non-ASCII characters are passed through. */
  function QuoteChar(c: char): string {
    if IsUrlSafe(c) || c as int >= 128 then [c]
    else ['%', HexDigit(c as int / 16), HexDigit(c as int % 16)]
  }

  /** `urllib.quote(s)`. */
  function UrlQuote(s: string): string {
    if s == [] then "" else QuoteChar(s[0]) + UrlQuote(s[1..])
  }

  /** Quoted text holds only safe characters, `%` escapes and non-ASCII characters. */
  lemma {:induction false} UrlQuoteSafe(s: string)
    ensures forall k :: 0 <= k < |UrlQuote(s)| ==> IsUrlSafe(UrlQuote(s)[k]) || UrlQuote(s)[k] == '%' || UrlQuote(s)[k] as int >= 128
  {
    if s != [] {
      UrlQuoteSafe(s[1..]);
      var q, t := QuoteChar(s[0]), UrlQuote(s[1..]);
      QuoteCharSafe(s[0]);
      assert UrlQuote(s) == q + t;
      assert forall k :: |q| <= k < |q + t| ==> (q + t)[k] == t[k - |q|];
    }
  }

  lemma QuoteCharSafe(c: char)
    ensures forall k :: 0 <= k < |QuoteChar(c)| ==> IsUrlSafe(QuoteChar(c)[k]) || QuoteChar(c)[k] == '%' || QuoteChar(c)[k] as int >= 128
  {
    if !(IsUrlSafe(c) || c as int >= 128) {
      HexRoundTrip(c as int / 16);
      HexRoundTrip(c as int % 16);
    }
  }

  /** `urllib.unquote(s)`: decodes every `%` followed by two hex digits. */
  function UrlUnquote(s: string): string
    decreases |s|
  {
    if |s| >= 3 && s[0] == '%' && IsHexDigit(s[1]) && IsHexDigit(s[2]) then
      [(HexValue(s[1]) * 16 + HexValue(s[2])) as char] + UrlUnquote(s[3..])
    else if s == [] then ""
    else [s[0]] + UrlUnquote(s[1..])
  }

  lemma UnquoteChar(c: char, t: string)
    ensures UrlUnquote(QuoteChar(c) + t) == [c] + UrlUnquote(t)
  {
    var q := QuoteChar(c);
    if IsUrlSafe(c) || c as int >= 128 {
      assert (q + t)[0] == c && (q + t)[1..] == t;
    } else {
      UnquoteEscape(c, t);
    }
  }

  /** An escape `%XX` of an ASCII character decodes to that character. */
  lemma UnquoteEscape(c: char, t: string)
    requires c as int < 128
    ensures UrlUnquote(['%', HexDigit(c as int / 16), HexDigit(c as int % 16)] + t) == [c] + UrlUnquote(t)
  {
    var hi, lo := c as int / 16, c as int % 16;
    var q := ['%', HexDigit(hi), HexDigit(lo)];
    HexRoundTrip(hi);
    HexRoundTrip(lo);
    assert hi * 16 + lo == c as int;
    assert (q + t)[0] == '%' && (q + t)[1] == HexDigit(hi) && (q + t)[2] == HexDigit(lo);
    assert (q + t)[3..] == t;
  }

  lemma HexRoundTrip(d: nat)
    requires d < 16
    ensures IsHexDigit(HexDigit(d)) && HexValue(HexDigit(d)) == d
  {
  }

  /** Percent-encoding loses nothing: `unquote(quote(s)) == s`. */
  lemma {:induction false} UrlQuoteRoundTrip(s: string)
    ensures UrlUnquote(UrlQuote(s)) == s
  {
    if s != [] {
      UnquoteChar(s[0], UrlQuote(s[1..]));
      UrlQuoteRoundTrip(s[1..]);
      assert [s[0]] + s[1..] == s;
    }
  }
}
