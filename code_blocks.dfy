/**
 * The AI review panel of the compiler page: the review text is cut into fenced code blocks
 * by the regular expression ```` /```(\w*)\n([\s\S]*?)```/g ````, and the panel then lays the
 * text out as prose segments and code blocks in their order.
 *
 * The expression is read as matching at a position `p`: three backticks, the longest run of
 * word characters (a shorter run would leave a word character where the line feed must
 * be, so backtracking cannot help), a line feed, then the body up to the FIRST later three
 * backticks (the lazy `*?`). `exec` with the `g` flag finds the leftmost match at or after
 * `lastIndex` and moves `lastIndex` past it.
 */
module CodeBlocks {
  import opened Text

  import opened Options

  /** One regular-expression match: where it starts and ends, and its two groups. */
  datatype Match = Match(start: nat, lang: string, body: string, end: nat)

  /** An entry of `codeBlocks`. */
  datatype CodeBlock = CodeBlock(lang: string, code: string, startIndex: nat, endIndex: nat)

  /** `formatAiReview`'s one section. */
  datatype Section = Section(content: string, codeBlocks: seq<CodeBlock>)

  /** `\w`: an ASCII letter, digit or underscore. */
  predicate IsWordChar(c: char)
  {
    ('a' <= c <= 'z') || ('A' <= c <= 'Z') || ('0' <= c <= '9') || c == '_'
  }

  /** Three backticks start at `i`. */
  predicate FenceAt(t: string, i: int)
  {
    0 <= i && i + 3 <= |t| && t[i] == '`' && t[i + 1] == '`' && t[i + 2] == '`'
  }

  /** The end of the longest run of word characters starting at `i`. */
  function WordEnd(t: string, i: nat): (j: nat)
    requires i <= |t|
    ensures i <= j <= |t|
    ensures forall k :: i <= k < j ==> IsWordChar(t[k])
    ensures j < |t| ==> !IsWordChar(t[j])
    decreases |t| - i
  {
    if i == |t| || !IsWordChar(t[i]) then i else WordEnd(t, i + 1)
  }

  /** The first three backticks at or after `i`. */
  function FindFence(t: string, i: nat): (k: Option<nat>)
    requires i <= |t|
    ensures k.Some? ==> i <= k.get && FenceAt(t, k.get)
    ensures forall m :: i <= m && (k.None? || m < k.get) ==> !FenceAt(t, m)
    decreases |t| - i
  {
    if i + 3 > |t| then None
    else if FenceAt(t, i) then Some(i)
    else FindFence(t, i + 1)
  }

  /** The match of the expression starting exactly at `p`, if there is one. */
  function MatchAt(t: string, p: nat): (m: Option<Match>)
    ensures m.Some? ==> m.get.start == p && p + 7 <= m.get.end <= |t|
    ensures m.Some? ==> m.get.end - p == 3 + |m.get.lang| + 1 + |m.get.body| + 3
    ensures m.Some? ==> t[p..m.get.end] == "```" + m.get.lang + "\n" + m.get.body + "```"
  {
    if !FenceAt(t, p) then None
    else
      var q := WordEnd(t, p + 3);
      if q == |t| || t[q] != '\n' then None
      else
        match FindFence(t, q + 1)
        case None => None
        case Some(k) =>
          FenceSplit(t, p, q, k);
          Some(Match(p, t[p + 3..q], t[q + 1..k], k + 3))
  }

  /** Text from a fence at `p` through a line feed at `q` to a fence at `k` reads as a match. */
  lemma FenceSplit(t: string, p: nat, q: nat, k: nat)
    requires FenceAt(t, p) && FenceAt(t, k) && p + 3 <= q < k && t[q] == '\n'
    ensures t[p..k + 3] == "```" + t[p + 3..q] + "\n" + t[q + 1..k] + "```"
  {
    assert t[p..p + 3] == "```";
    assert t[k..k + 3] == "```";
    assert t[p..k + 3] == t[p..p + 3] + t[p + 3..q] + t[q..q + 1] + t[q + 1..k] + t[k..k + 3];
  }

  /** `regex.exec(text)` with `lastIndex == from`: the leftmost match at or after `from`. */
  function Exec(t: string, from: nat): (m: Option<Match>)
    ensures m.Some? ==> from <= m.get.start && MatchAt(t, m.get.start) == m
    ensures forall p :: from <= p && (m.None? || p < m.get.start) ==> MatchAt(t, p).None?
    decreases |t| + 1 - from
  {
    if from > |t| then None
    else if MatchAt(t, from).Some? then MatchAt(t, from)
    else Exec(t, from + 1)
  }

  /** The entry pushed for a match: an empty language is `'plaintext'`, the body is trimmed. */
  function ToBlock(m: Match): CodeBlock
  {
    CodeBlock(if m.lang == [] then "plaintext" else m.lang, Trim(m.body), m.start, m.end)
  }

  /** The blocks the `exec` loop pushes once `lastIndex` is `from`. */
  function Blocks(t: string, from: nat): seq<CodeBlock>
    decreases |t| + 1 - from
  {
    match Exec(t, from)
    case None => []
    case Some(m) => [ToBlock(m)] + Blocks(t, m.end)
  }

  /** `extractCodeBlocks(text)` as a value; ExtractCodeBlocks computes it. */
  function Extracted(text: string): seq<CodeBlock>
  {
    if text == [] then []
    else
      var blocks := Blocks(text, 0);
      if blocks == [] && |Trim(text)| > 0 then [CodeBlock("plaintext", Trim(text), 0, |text|)]
      else blocks
  }

  /**
   * `extractCodeBlocks(text)`: empty text gives no blocks; otherwise the `exec` loop
   * collects a block per match, and if there was none and the trimmed text is not empty,
   * the whole text is one `'plaintext'` block.
   */
  method ExtractCodeBlocks(text: string) returns (codeBlocks: seq<CodeBlock>)
    ensures codeBlocks == Extracted(text)
  {
    if text == [] {
      return [];
    }
    codeBlocks := ExecAll(text);
    if |codeBlocks| == 0 && |Trim(text)| > 0 {
      return [CodeBlock("plaintext", Trim(text), 0, |text|)];
    }
  }

  /** The `while ((match = codeBlockRegex.exec(text)) !== null)` loop of `extractCodeBlocks`. */
  method ExecAll(text: string) returns (codeBlocks: seq<CodeBlock>)
    ensures codeBlocks == Blocks(text, 0)
  {
    codeBlocks := [];
    var lastIndex := 0;
    var m := Exec(text, lastIndex);
    while m.Some?
      invariant lastIndex <= |text|
      invariant m == Exec(text, lastIndex)
      invariant codeBlocks + Blocks(text, lastIndex) == Blocks(text, 0)
      decreases |text| - lastIndex
    {
      ExecAllStep(text, codeBlocks, lastIndex);
      codeBlocks := codeBlocks + [ToBlock(m.get)];
      lastIndex := m.get.end;
      m := Exec(text, lastIndex);
    }
  }

  /** One turn of the loop of ExecAll keeps its invariant and moves `lastIndex` forward. */
  lemma ExecAllStep(text: string, blocks: seq<CodeBlock>, from: nat)
    requires Exec(text, from).Some?
    requires blocks + Blocks(text, from) == Blocks(text, 0)
    ensures from < Exec(text, from).get.end <= |text|
    ensures (blocks + [ToBlock(Exec(text, from).get)]) + Blocks(text, Exec(text, from).get.end) == Blocks(text, 0)
  {
    BlocksStep(text, from);
    var m := Exec(text, from).get;
    assert blocks + [ToBlock(m)] + Blocks(text, m.end) == blocks + ([ToBlock(m)] + Blocks(text, m.end));
  }

  /** One match taken off the front of the blocks. */
  lemma BlocksStep(t: string, from: nat)
    requires Exec(t, from).Some?
    ensures Exec(t, from).get.end <= |t|
    ensures Blocks(t, from) == [ToBlock(Exec(t, from).get)] + Blocks(t, Exec(t, from).get.end)
  {
  }

  /** Blocks lie in `[last, n)` in order without overlapping. */
  ghost predicate Placed(blocks: seq<CodeBlock>, last: nat, n: nat)
    decreases |blocks|
  {
    blocks == [] ||
    (last <= blocks[0].startIndex <= blocks[0].endIndex <= n && Placed(blocks[1..], blocks[0].endIndex, n))
  }

  /**
   * Every block the loop collects comes from a match at its own start: the language is
   * the word run or `'plaintext'`, the code is the trimmed body, and the block spans the
   * whole match. Blocks start at or after `from` and do not overlap.
   */
  lemma {:induction false} BlocksAreMatches(t: string, from: nat)
    ensures Placed(Blocks(t, from), from, |t|)
    ensures forall i :: 0 <= i < |Blocks(t, from)| ==>
      var b := Blocks(t, from)[i];
      MatchAt(t, b.startIndex).Some? && b == ToBlock(MatchAt(t, b.startIndex).get) &&
      b.startIndex + 7 <= b.endIndex
    decreases |t| + 1 - from
  {
    match Exec(t, from)
    case None =>
    case Some(m) =>
      BlocksAreMatches(t, m.end);
      var bs := Blocks(t, from);
      assert bs == [ToBlock(m)] + Blocks(t, m.end);
      assert bs[1..] == Blocks(t, m.end);
  }

  /** Of two consecutive placed blocks, the first ends before the second starts. */
  lemma {:induction false} PlacedIncreasing(blocks: seq<CodeBlock>, last: nat, n: nat, i: int)
    requires Placed(blocks, last, n) && 0 <= i < |blocks| - 1
    ensures blocks[i].endIndex <= blocks[i + 1].startIndex
    decreases i
  {
    if i > 0 {
      PlacedIncreasing(blocks[1..], blocks[0].endIndex, n, i - 1);
    }
  }

  /**
   * No match is skipped: between `from` and the first block, between consecutive blocks,
   * and after the last one, no position starts a match.
   */
  lemma {:induction false} BlocksLeftmost(t: string, from: nat, p: nat)
    requires from <= p
    requires forall i :: 0 <= i < |Blocks(t, from)| ==> Blocks(t, from)[i].startIndex != p
    requires forall i :: 0 <= i < |Blocks(t, from)| ==>
      !(Blocks(t, from)[i].startIndex < p < Blocks(t, from)[i].endIndex)
    ensures MatchAt(t, p).None?
    decreases |t| + 1 - from
  {
    match Exec(t, from)
    case None =>
    case Some(m) =>
      var bs := Blocks(t, from);
      assert bs[0] == ToBlock(m);
      if p >= m.end {
        assert bs[1..] == Blocks(t, m.end);
        forall i | 0 <= i < |Blocks(t, m.end)|
          ensures Blocks(t, m.end)[i].startIndex != p
          ensures !(Blocks(t, m.end)[i].startIndex < p < Blocks(t, m.end)[i].endIndex)
        {
          assert Blocks(t, m.end)[i] == bs[i + 1];
        }
        BlocksLeftmost(t, m.end, p);
      } else {
        assert p < m.start;
      }
  }

  /** Text with nothing but white space has no fence, hence no blocks. */
  lemma BlankHasNoBlocks(text: string)
    requires Blank(text)
    ensures Extracted(text) == []
  {
    forall p | 0 <= p
      ensures MatchAt(text, p).None?
    {
      if p < |text| {
        assert IsWhiteSpace(text[p]);
      }
    }
    TrimEmpty(text);
  }

  /** Without a match, non-blank text is one `'plaintext'` block of the trimmed text over `[0, |text|)`. */
  lemma NoMatchFallback(text: string)
    requires Blocks(text, 0) == [] && !Blank(text)
    ensures Extracted(text) == [CodeBlock("plaintext", Trim(text), 0, |text|)]
  {
    TrimEmpty(text);
  }

  /** What `extractCodeBlocks` returns is always placed in order within the text. */
  lemma ExtractedPlaced(text: string)
    ensures Placed(Extracted(text), 0, |text|)
  {
    BlocksAreMatches(text, 0);
    var bs := Extracted(text);
    if bs != [] {
      assert Placed(bs[1..], bs[0].endIndex, |text|);
    }
  }

  /**
   * `formatAiReview(text)`: nothing for empty text, otherwise one section holding the whole
   * text and its code blocks.
   */
  function FormatAiReview(text: string): (r: Option<seq<Section>>)
    ensures r.None? <==> text == []
    ensures r.Some? ==> |r.get| == 1 && r.get[0].content == text && r.get[0].codeBlocks == Extracted(text)
  {
    if text == [] then None else Some([Section(text, Extracted(text))])
  }

  /** What the panel renders: a prose segment (trimmed) or a code block. */
  datatype Element = Prose(text: string) | Code(block: CodeBlock)

  /** `content.slice(a, b)` for non-negative `a` and `b`: both clamped to the length, empty when `a >= b`. */
  function Slice(s: string, a: nat, b: nat): (r: string)
    ensures a <= b <= |s| ==> r == s[a..b]
  {
    var a' := if a <= |s| then a else |s|;
    var b' := if b <= |s| then b else |s|;
    if a' >= b' then [] else s[a'..b']
  }

  /** A prose segment is shown trimmed, and only if it is not blank. */
  function ProsePiece(s: string): seq<Element>
  {
    if Trim(s) != [] then [Prose(Trim(s))] else []
  }

  /** The elements of the tiling once `lastIndex` is `last` and `blocks` remain. */
  function Tiles(content: string, blocks: seq<CodeBlock>, last: nat): seq<Element>
    decreases |blocks|
  {
    if blocks == [] then
      ProsePiece(Slice(content, last, |content|))
    else
      ProsePiece(Slice(content, last, blocks[0].startIndex)) + [Code(blocks[0])] +
      Tiles(content, blocks[1..], blocks[0].endIndex)
  }

  /**
   * The tiling loop of the review panel: for each block, the prose since `lastIndex`, then
   * the block, then `lastIndex` moves to the block's end; finally the prose after the last
   * block.
   */
  method Tile(section: Section) returns (elements: seq<Element>)
    ensures elements == Tiles(section.content, section.codeBlocks, 0)
  {
    var lastIndex := 0;
    elements := [];
    var blocks := section.codeBlocks;
    for i := 0 to |blocks|
      invariant elements + Tiles(section.content, blocks[i..], lastIndex) == Tiles(section.content, blocks, 0)
    {
      ghost var before := elements;
      var codeBlock := blocks[i];
      var textBefore := Slice(section.content, lastIndex, codeBlock.startIndex);
      elements := PushProse(elements, textBefore);
      elements := elements + [Code(codeBlock)];
      TileStep(section.content, blocks, i, lastIndex, before);
      lastIndex := codeBlock.endIndex;
    }
    assert blocks[|blocks|..] == [];
    var textAfter := Slice(section.content, lastIndex, |section.content|);
    elements := PushProse(elements, textAfter);
  }

  /** `if (text.trim()) elements.push(<div>{text.trim()}</div>)`. */
  method PushProse(elements: seq<Element>, text: string) returns (elements': seq<Element>)
    ensures elements' == elements + ProsePiece(text)
  {
    elements' := elements;
    if Trim(text) != [] {
      elements' := elements + [Prose(Trim(text))];
    }
  }

  /** One turn of the tiling loop: the prose before block `i` and the block itself come off the front. */
  lemma TileStep(content: string, blocks: seq<CodeBlock>, i: int, last: nat, elements: seq<Element>)
    requires 0 <= i < |blocks|
    ensures elements + ProsePiece(Slice(content, last, blocks[i].startIndex)) + [Code(blocks[i])] +
      Tiles(content, blocks[i + 1..], blocks[i].endIndex) == elements + Tiles(content, blocks[i..], last)
  {
    assert blocks[i..][1..] == blocks[i + 1..];
    var p := ProsePiece(Slice(content, last, blocks[i].startIndex));
    var rest := Tiles(content, blocks[i + 1..], blocks[i].endIndex);
    assert Tiles(content, blocks[i..], last) == p + [Code(blocks[i])] + rest;
    assert elements + p + [Code(blocks[i])] + rest == elements + (p + [Code(blocks[i])] + rest);
  }

  /** The code blocks among the elements, in order. */
  function CodesOf(elements: seq<Element>): seq<CodeBlock>
  {
    if elements == [] then []
    else (if elements[0].Code? then [elements[0].block] else []) + CodesOf(elements[1..])
  }

  lemma {:induction false} CodesOfAppend(e: seq<Element>, f: seq<Element>)
    ensures CodesOf(e + f) == CodesOf(e) + CodesOf(f)
    decreases |e|
  {
    if e == [] {
      assert e + f == f;
    } else {
      var x, rest := e[0], e[1..];
      assert e == [x] + rest;
      assert e + f == [x] + (rest + f);
      CodesOfCons(x, rest + f);
      CodesOfCons(x, rest);
      CodesOfAppend(rest, f);
      var h := if x.Code? then [x.block] else [];
      assert h + (CodesOf(rest) + CodesOf(f)) == (h + CodesOf(rest)) + CodesOf(f);
    }
  }

  lemma CodesOfCons(x: Element, rest: seq<Element>)
    ensures CodesOf([x] + rest) == (if x.Code? then [x.block] else []) + CodesOf(rest)
  {
    assert ([x] + rest)[0] == x && ([x] + rest)[1..] == rest;
  }

  /** Every prose element is trimmed and not empty. */
  ghost predicate ProseTrimmed(elements: seq<Element>)
  {
    forall k :: 0 <= k < |elements| && elements[k].Prose? ==> elements[k].text != [] && Trim(elements[k].text) == elements[k].text
  }

  lemma ProsePieceFacts(s: string)
    ensures CodesOf(ProsePiece(s)) == [] && ProseTrimmed(ProsePiece(s))
  {
    TrimIdempotent(s);
    if Trim(s) != [] {
      assert ProsePiece(s)[1..] == [];
    }
  }

  /** Every block is rendered, once, and in order. */
  lemma {:induction false} TilesShowBlocks(content: string, blocks: seq<CodeBlock>, last: nat)
    ensures CodesOf(Tiles(content, blocks, last)) == blocks
    decreases |blocks|
  {
    if blocks == [] {
      ProsePieceFacts(Slice(content, last, |content|));
    } else {
      var gap := ProsePiece(Slice(content, last, blocks[0].startIndex));
      ProsePieceFacts(Slice(content, last, blocks[0].startIndex));
      TilesShowBlocks(content, blocks[1..], blocks[0].endIndex);
      var rest := Tiles(content, blocks[1..], blocks[0].endIndex);
      CodesOfAppend(gap, [Code(blocks[0])]);
      CodesOfAppend(gap + [Code(blocks[0])], rest);
      assert CodesOf([Code(blocks[0])]) == [blocks[0]] by {
        assert [Code(blocks[0])][1..] == [];
      }
      assert blocks == [blocks[0]] + blocks[1..];
    }
  }

  /** Everything else the panel shows is non-blank, trimmed prose. */
  lemma {:induction false} TilesProseTrimmed(content: string, blocks: seq<CodeBlock>, last: nat)
    ensures ProseTrimmed(Tiles(content, blocks, last))
    decreases |blocks|
  {
    if blocks == [] {
      ProsePieceFacts(Slice(content, last, |content|));
    } else {
      var gap := ProsePiece(Slice(content, last, blocks[0].startIndex));
      ProsePieceFacts(Slice(content, last, blocks[0].startIndex));
      TilesProseTrimmed(content, blocks[1..], blocks[0].endIndex);
      var rest := Tiles(content, blocks[1..], blocks[0].endIndex);
      var all := gap + [Code(blocks[0])] + rest;
      forall k | 0 <= k < |all| && all[k].Prose?
        ensures all[k].text != [] && Trim(all[k].text) == all[k].text
      {
        if k < |gap| {
          assert all[k] == gap[k];
        } else {
          assert all[k] == rest[k - |gap| - 1];
        }
      }
    }
  }

  /**
   * The pieces the tiling reads, untrimmed: the gaps before each block and after the last,
   * and the blocks' own spans.
   */
  function Pieces(content: string, blocks: seq<CodeBlock>, last: nat): string
    decreases |blocks|
  {
    if blocks == [] then
      Slice(content, last, |content|)
    else
      Slice(content, last, blocks[0].startIndex) + Slice(content, blocks[0].startIndex, blocks[0].endIndex) +
      Pieces(content, blocks[1..], blocks[0].endIndex)
  }

  /** For placed blocks the pieces cover the content from `last` on, in order, with nothing left over or repeated. */
  lemma {:induction false} PiecesCover(content: string, blocks: seq<CodeBlock>, last: nat)
    requires last <= |content| && Placed(blocks, last, |content|)
    ensures Pieces(content, blocks, last) == content[last..]
    decreases |blocks|
  {
    if blocks != [] {
      var b := blocks[0];
      PiecesCover(content, blocks[1..], b.endIndex);
      assert content[last..] == content[last..b.startIndex] + content[b.startIndex..b.endIndex] + content[b.endIndex..];
    }
  }

  /** The panel tiles the review text completely: the pieces of its extracted blocks are the text. */
  lemma ReviewCovered(text: string)
    ensures Pieces(text, Extracted(text), 0) == text
  {
    ExtractedPlaced(text);
    PiecesCover(text, Extracted(text), 0);
  }

  /**
   * The editor height of a code block, `Math.max(80, Math.min(lineCount * 21, 400))`
   * with `lineCount = code.split('\n').length`: 21 pixels a line, clamped to `[80, 400]`.
   */
  function CodeBlockHeight(code: string): (h: int)
    ensures 80 <= h <= 400
    ensures h == 80 <==> Count(code, '\n') + 1 <= 3
    ensures h == 400 <==> Count(code, '\n') + 1 >= 20
    ensures 4 <= Count(code, '\n') + 1 <= 19 ==> h == 21 * (Count(code, '\n') + 1)
  {
    LinesCorrect(code);
    var lineCount := |Lines(code)|;
    var m := if lineCount * 21 <= 400 then lineCount * 21 else 400;
    if 80 >= m then 80 else m
  }
}
