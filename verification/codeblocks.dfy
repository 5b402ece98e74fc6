/** The fenced code block processor. A block opening with three backticks holds code
    up to the first newline followed by three backticks inside a block, however many
    blocks later that comes; whatever follows the closing backticks is handed back as
    a block of its own. A block that itself starts with three backticks does not close
    the code, since no newline precedes them within that block. */
module CodeBlocks {
  import opened Wrappers
  import opened Text

  /** The three backticks that open a code block. */
  const Ticks: string := "```"

  /** The closing fence: a newline followed by three backticks, within one block. */
  const Fence: string := "\n```"

  /** The `<pre><code>` element: its class attribute and its text. */
  datatype CodeBlock = CodeBlock(cls: Option<string>, text: string)

  datatype CodeError =
    | NoNewline  // `re.match` finds no opening line, and `m.group` fails on `None`
    | NotClosed  // "Code block not closed"

  /** `CodeBlockParser.test`: `block.startswith("```")`. */
  predicate Test(block: string) {
    |block| >= 3 && block[..3] == Ticks
  }

  /** `re.match("^```(.*)\n", block)`: the language named after the backticks on the
      first line, and the text after that line. */
  function Open(block: string): (r: Option<(string, string)>)
    requires Test(block)
    ensures r.None? <==> '\n' !in block
    ensures r.Some? ==> block == Ticks + r.value.0 + "\n" + r.value.1 && '\n' !in r.value.0
  {
    ContainsChar(block, '\n');
    match SplitOnce(block, "\n")
    case None => None
    case Some((head, body)) =>
      assert |head| >= 3 by {
        assert block[|head|] == '\n';
        assert forall j :: 0 <= j < 3 ==> block[j] == Ticks[j];
      }
      assert head == Ticks + head[3..] by {
        assert head[..3] == block[..3];
      }
      assert '\n' !in head by {
        forall j | 0 <= j < |head|
          ensures head[j] != '\n'
        {
          assert block[j..j + 1] == [head[j]];
          assert !OccursAt(block, "\n", j);
        }
      }
      Some((head[3..], body))
  }

  /** The class of the code element: the lower-cased language, when one is named. */
  function ClassOf(lang: string): Option<string> {
    if lang == "" then None else Some(Lower(lang))
  }

  /** The index of the first block that holds a closing fence. */
  function FirstFenced(cands: seq<string>): (r: Option<nat>)
    ensures r.Some? ==> r.value < |cands| && Contains(cands[r.value], Fence)
    ensures r.Some? ==> forall j :: 0 <= j < r.value ==> !Contains(cands[j], Fence)
    ensures r.None? ==> forall j :: 0 <= j < |cands| ==> !Contains(cands[j], Fence)
  {
    if cands == [] then None
    else if Contains(cands[0], Fence) then Some(0)
    else match FirstFenced(cands[1..])
      case None => None
      case Some(k) => Some(k + 1)
  }

  /** The text after the closing fence goes back to the front of the queue, unless it
      is empty. */
  function Pushed(next: string): seq<string> {
    if next == "" then [] else [next]
  }

  /** What `CodeBlockParser.run` does to the queue of blocks: the code element it
      builds and the blocks left for the rest of the document. The code is the text
      after the opening line and each following block, joined by newlines, up to the
      first closing fence. */
  function Parse(blocks: seq<string>): (r: Result<(CodeBlock, seq<string>), CodeError>)
    requires |blocks| > 0 && Test(blocks[0])
  {
    match Open(blocks[0])
    case None => Failure(NoNewline)
    case Some((lang, body)) =>
      var cands := [body] + blocks[1..];
      match FirstFenced(cands)
      case None => Failure(NotClosed)
      case Some(k) =>
        var (code, next) := SplitOnce(cands[k], Fence).value;
        Success((CodeBlock(ClassOf(lang), Join("\n", cands[..k] + [code])), Pushed(next) + blocks[k + 1..]))
  }

  /** `Parse` in terms of where the opening line ends and where the first fence is. */
  lemma ParseClosed(blocks: seq<string>, lang: string, body: string, k: nat, code: string, next: string)
    requires |blocks| > 0 && Test(blocks[0]) && Open(blocks[0]) == Some((lang, body))
    requires FirstFenced([body] + blocks[1..]) == Some(k)
    requires SplitOnce(([body] + blocks[1..])[k], Fence) == Some((code, next))
    ensures Parse(blocks) == Success((CodeBlock(ClassOf(lang), Join("\n", ([body] + blocks[1..])[..k] + [code])), Pushed(next) + blocks[k + 1..]))
  {
  }

  lemma ParseUnclosed(blocks: seq<string>, lang: string, body: string)
    requires |blocks| > 0 && Test(blocks[0]) && Open(blocks[0]) == Some((lang, body))
    requires forall j :: 0 <= j < |blocks| ==> !Contains(([body] + blocks[1..])[j], Fence)
    ensures Parse(blocks) == Failure(NotClosed)
  {
    assert FirstFenced([body] + blocks[1..]).None?;
  }

  /** `CodeBlockParser.run`, block by block as the source does it. */
  method Run(blocks: seq<string>) returns (r: Result<(CodeBlock, seq<string>), CodeError>)
    requires |blocks| > 0 && Test(blocks[0])
    ensures r == Parse(blocks)
  {
    var opening := Open(blocks[0]);
    if opening.None? {
      assert Parse(blocks) == Failure(NoNewline);
      return Failure(NoNewline);
    }
    var lang := opening.value.0;
    var block := opening.value.1;
    var queue := blocks[1..];
    ghost var body := block;
    ghost var cands := [body] + blocks[1..];
    ghost var i := 0;
    var data: seq<string> := [];
    while !Contains(block, Fence)
      invariant i < |blocks| && block == cands[i]
      invariant data == cands[..i] && queue == blocks[i + 1..]
      invariant forall j :: 0 <= j < i ==> !Contains(cands[j], Fence)
      decreases |queue|
    {
      data := data + [block];
      if queue == [] {
        ParseUnclosed(blocks, lang, body);
        return Failure(NotClosed);
      }
      block := queue[0];
      queue := queue[1..];
      i := i + 1;
    }
    assert FirstFenced(cands) == Some(i);
    var parts := SplitOnce(block, Fence).value;
    data := data + [parts.0];
    queue := Pushed(parts.1) + queue;
    r := Success((CodeBlock(ClassOf(lang), Join("\n", data)), queue));
    ParseClosed(blocks, lang, body, i, parts.0, parts.1);
  }

  /** `hay.split(sep, 1)` of `a + sep + b` gives `a` and `b` when `sep` does not
      occur any earlier. */
  lemma SplitAt(a: string, sep: string, b: string)
    requires forall j :: 0 <= j < |a| ==> !OccursAt(a + sep + b, sep, j)
    ensures SplitOnce(a + sep + b, sep) == Some((a, b))
  {
    var hay := a + sep + b;
    assert hay[|a|..|a| + |sep|] == sep;
    assert OccursAt(hay, sep, |a|);
    var r := SplitOnce(hay, sep);
    assert |r.value.0| == |a|;
    assert r.value.0 == hay[..|a|] == a;
    assert r.value.1 == hay[|a| + |sep|..] == b;
  }

  /** A line without a newline ends at the first newline after it. */
  lemma NewlineAfter(a: string, b: string)
    requires '\n' !in a
    ensures SplitOnce(a + "\n" + b, "\n") == Some((a, b))
  {
    forall j | 0 <= j < |a|
      ensures !OccursAt(a + "\n" + b, "\n", j)
    {
      assert (a + "\n" + b)[j] == a[j];
    }
    SplitAt(a, "\n", b);
  }

  /** A fence cannot start inside fence-free text and run on into a fence that
      follows it: a newline is only at the fence's start. */
  lemma FenceAfter(a: string, b: string)
    requires !Contains(a, Fence)
    ensures SplitOnce(a + Fence + b, Fence) == Some((a, b))
  {
    var hay := a + Fence + b;
    forall j | 0 <= j < |a|
      ensures !OccursAt(hay, Fence, j)
    {
      if j + 4 <= |a| {
        assert hay[j..j + 4] == a[j..j + 4];
        assert !OccursAt(a, Fence, j);
      } else {
        assert hay[|a|] == '\n' != Fence[|a| - j];
        assert hay[j..j + 4][|a| - j] == hay[|a|];
      }
    }
    SplitAt(a, Fence, b);
  }

  /** The code `pieces`, the last one closed by a fence followed by `tail`. */
  function Closed(pieces: seq<string>, tail: string): (r: seq<string>)
    requires |pieces| > 0
    ensures |r| == |pieces|
    ensures r[..|pieces| - 1] == pieces[..|pieces| - 1]
    ensures r[|pieces| - 1] == pieces[|pieces| - 1] + Fence + tail
  {
    pieces[..|pieces| - 1] + [pieces[|pieces| - 1] + Fence + tail]
  }

  /** A code block opening with `lang`, holding the code `pieces` in consecutive
      blocks, closed by a fence at the end of the last one and followed by `tail`. */
  function FormatBlocks(lang: string, pieces: seq<string>, tail: string): (r: seq<string>)
    requires |pieces| > 0
    ensures |r| == |pieces|
  {
    var closed := Closed(pieces, tail);
    [Ticks + lang + "\n" + closed[0]] + closed[1..]
  }

  /** The opening line is read back. */
  lemma OpenFormat(lang: string, body: string)
    requires '\n' !in lang
    ensures Test(Ticks + lang + "\n" + body)
    ensures Open(Ticks + lang + "\n" + body) == Some((lang, body))
  {
    var block := Ticks + lang + "\n" + body;
    assert block == (Ticks + lang) + "\n" + body;
    assert block[..3] == Ticks;
    NewlineAfter(Ticks + lang, body);
    assert (Ticks + lang)[3..] == lang;
  }

  /** The first fence is the one closing the last piece. */
  lemma FenceInLast(pieces: seq<string>, tail: string, more: seq<string>)
    requires |pieces| > 0
    requires forall j :: 0 <= j < |pieces| ==> !Contains(pieces[j], Fence)
    ensures FirstFenced(Closed(pieces, tail) + more) == Some(|pieces| - 1)
  {
    var n := |pieces|;
    var closed := Closed(pieces, tail);
    var cands := closed + more;
    FenceAfter(pieces[n - 1], tail);
    assert cands[n - 1] == pieces[n - 1] + Fence + tail;
    forall j | 0 <= j < n - 1
      ensures !Contains(cands[j], Fence)
    {
      assert cands[j] == closed[..n - 1][j] == pieces[j];
    }
  }

  /** After the opening line, the blocks are the closed pieces and then `more`. */
  lemma FormatLayout(lang: string, pieces: seq<string>, tail: string, more: seq<string>)
    requires |pieces| > 0
    ensures var blocks := FormatBlocks(lang, pieces, tail) + more;
      && blocks[0] == Ticks + lang + "\n" + Closed(pieces, tail)[0]
      && [Closed(pieces, tail)[0]] + blocks[1..] == Closed(pieces, tail) + more
      && blocks[|pieces|..] == more
  {
    var closed := Closed(pieces, tail);
    var blocks := FormatBlocks(lang, pieces, tail) + more;
    assert blocks[1..] == closed[1..] + more;
    assert closed == [closed[0]] + closed[1..];
  }

  /** Code written as a fenced block over any number of blocks is read back whole:
      the pieces joined by newlines, the class from the language, and the text after
      the fence and the blocks after it left for the rest of the document. */
  lemma ParseFormat(lang: string, pieces: seq<string>, tail: string, more: seq<string>)
    requires '\n' !in lang
    requires |pieces| > 0
    requires forall j :: 0 <= j < |pieces| ==> !Contains(pieces[j], Fence)
    ensures var blocks := FormatBlocks(lang, pieces, tail) + more;
      && Test(blocks[0])
      && Parse(blocks) == Success((CodeBlock(ClassOf(lang), Join("\n", pieces)), Pushed(tail) + more))
  {
    var n := |pieces|;
    var closed := Closed(pieces, tail);
    var blocks := FormatBlocks(lang, pieces, tail) + more;
    FormatLayout(lang, pieces, tail, more);
    OpenFormat(lang, closed[0]);
    FenceInLast(pieces, tail, more);
    var cands := closed + more;
    assert cands[n - 1] == pieces[n - 1] + Fence + tail;
    FenceAfter(pieces[n - 1], tail);
    ParseClosed(blocks, lang, closed[0], n - 1, pieces[n - 1], tail);
    PiecesBack(pieces, tail, more);
  }

  /** The code read back is the pieces: those before the last block, and the last one
      cut at its fence. */
  lemma PiecesBack(pieces: seq<string>, tail: string, more: seq<string>)
    requires |pieces| > 0
    ensures var n := |pieces|;
      (Closed(pieces, tail) + more)[..n - 1] + [pieces[n - 1]] == pieces
  {
    var n := |pieces|;
    assert (Closed(pieces, tail) + more)[..n - 1] == Closed(pieces, tail)[..n - 1];
  }

  /** Without a newline in the first block there is no opening line. */
  lemma NoNewlineIff(blocks: seq<string>)
    requires |blocks| > 0 && Test(blocks[0])
    ensures Parse(blocks) == Failure(NoNewline) <==> '\n' !in blocks[0]
  {
    ContainsChar(blocks[0], '\n');
  }

  /** The block is left unclosed exactly when no block from the opening line on holds
      a fence. */
  lemma NotClosedIff(blocks: seq<string>)
    requires |blocks| > 0 && Test(blocks[0]) && Open(blocks[0]).Some?
    ensures var cands := [Open(blocks[0]).value.1] + blocks[1..];
      Parse(blocks) == Failure(NotClosed) <==> forall j :: 0 <= j < |cands| ==> !Contains(cands[j], Fence)
  {
  }

  /** Each run consumes input: it leaves fewer blocks, or as many with a shorter
      first one, so the block parser cannot loop on a code block. */
  lemma Progress(blocks: seq<string>)
    requires |blocks| > 0 && Test(blocks[0]) && Parse(blocks).Success?
    ensures var rest := Parse(blocks).value.1;
      |rest| < |blocks| || (|rest| == |blocks| && |rest[0]| < |blocks[0]|)
  {
    var opening := Open(blocks[0]).value;
    var cands := [opening.1] + blocks[1..];
    var k := FirstFenced(cands).value;
    var parts := SplitOnce(cands[k], Fence).value;
    assert cands[k] == parts.0 + Fence + parts.1;
  }
}
