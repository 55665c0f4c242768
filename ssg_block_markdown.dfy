/**
  * `markdown_to_blocks` of the static site generator (SSG/src/block_markdown.py):
  * the document is cut at every blank line (the exact separator "\n\n"),
  * chunks that are exactly empty are dropped, and every other chunk is
  * stripped of surrounding whitespace.
  */
module BlockMarkdown {
  import opened PyStr

  const BlankLine: string := "\n\n"

  /** The chunks of a split that the loop keeps: those that are not exactly "". */
  function NonEmpty(chunks: seq<string>): seq<string> {
    if chunks == [] then []
    else NonEmpty(chunks[..|chunks| - 1]) + (if chunks[|chunks| - 1] == [] then [] else [chunks[|chunks| - 1]])
  }

  /** `strip()` applied to every chunk. */
  function StripAll(chunks: seq<string>): (r: seq<string>)
    ensures |r| == |chunks|
    ensures forall k | 0 <= k < |r| :: r[k] == Strip(chunks[k])
  {
    if chunks == [] then [] else StripAll(chunks[..|chunks| - 1]) + [Strip(chunks[|chunks| - 1])]
  }

  /** What the loop of `markdown_to_blocks` has appended after seeing `chunks`. */
  function KeepBlocks(chunks: seq<string>): seq<string> {
    if chunks == [] then []
    else KeepBlocks(chunks[..|chunks| - 1]) + (if chunks[|chunks| - 1] == [] then [] else [Strip(chunks[|chunks| - 1])])
  }

  /** The blocks of a document. */
  function Blocks(markdown: string): (r: seq<string>)
    ensures r == StripAll(NonEmpty(Split(markdown, BlankLine)))
  {
    FilterThenStrip(Split(markdown, BlankLine));
    KeepBlocks(Split(markdown, BlankLine))
  }

  /** The loop of `markdown_to_blocks`, which appends each kept chunk, stripped. */
  method MarkdownToBlocks(markdown: string) returns (blocks: seq<string>)
    ensures blocks == Blocks(markdown)
    ensures blocks == StripAll(NonEmpty(Split(markdown, BlankLine)))
    ensures forall k | 0 <= k < |blocks| :: blocks[k] == [] || (!IsSpace(blocks[k][0]) && !IsSpace(blocks[k][|blocks[k]| - 1]))
  {
    var stringBlocks := Split(markdown, BlankLine);
    blocks := [];
    for i := 0 to |stringBlocks|
      invariant blocks == KeepBlocks(stringBlocks[..i])
    {
      assert stringBlocks[..i + 1][..i] == stringBlocks[..i];
      var block := stringBlocks[i];
      if block == [] {
        continue;
      }
      block := Strip(block);
      blocks := blocks + [block];
    }
    assert stringBlocks[..|stringBlocks|] == stringBlocks;
    BlocksAreStripped(stringBlocks);
  }

  /** The fused loop is a filter followed by a map. */
  lemma {:induction false} FilterThenStrip(chunks: seq<string>)
    ensures KeepBlocks(chunks) == StripAll(NonEmpty(chunks))
  {
    if chunks != [] {
      var init := chunks[..|chunks| - 1];
      FilterThenStrip(init);
      if chunks[|chunks| - 1] != [] {
        assert NonEmpty(chunks) == NonEmpty(init) + [chunks[|chunks| - 1]];
        assert NonEmpty(chunks)[..|NonEmpty(chunks)| - 1] == NonEmpty(init);
      }
    }
  }

  /** One block per chunk that is not exactly "": a whitespace-only chunk still yields a (empty) block. */
  lemma {:induction false} BlockCount(chunks: seq<string>)
    ensures |KeepBlocks(chunks)| == |NonEmpty(chunks)|
    ensures |KeepBlocks(chunks)| <= |chunks|
  {
    if chunks != [] {
      BlockCount(chunks[..|chunks| - 1]);
    }
  }

  /** Every block is free of leading and trailing whitespace. */
  lemma {:induction false} BlocksAreStripped(chunks: seq<string>)
    ensures forall k | 0 <= k < |KeepBlocks(chunks)| ::
      var b := KeepBlocks(chunks)[k]; b == [] || (!IsSpace(b[0]) && !IsSpace(b[|b| - 1]))
  {
    if chunks != [] {
      BlocksAreStripped(chunks[..|chunks| - 1]);
      StripTrimmed(chunks[|chunks| - 1]);
    }
  }

  /** No kept chunk is empty, so each block comes from a chunk with content. */
  lemma {:induction false} NonEmptyHasNoEmpty(chunks: seq<string>)
    ensures forall k | 0 <= k < |NonEmpty(chunks)| :: NonEmpty(chunks)[k] != []
  {
    if chunks != [] {
      NonEmptyHasNoEmpty(chunks[..|chunks| - 1]);
    }
  }

  lemma {:induction false} KeepBlocksAppend(xs: seq<string>, ys: seq<string>)
    ensures KeepBlocks(xs + ys) == KeepBlocks(xs) + KeepBlocks(ys)
    decreases |ys|
  {
    if ys == [] {
      assert xs + ys == xs;
    } else {
      var ys' := ys[..|ys| - 1];
      assert (xs + ys)[..|xs + ys| - 1] == xs + ys';
      KeepBlocksAppend(xs, ys');
    }
  }

  lemma KeepBlocksCons(x: string, ys: seq<string>)
    ensures KeepBlocks([x] + ys) == (if x == [] then [] else [Strip(x)]) + KeepBlocks(ys)
  {
    KeepBlocksAppend([x], ys);
    assert [x][..0] == [];
  }

  /** Starting the first part with extra text only lengthens the first part of a split. */
  lemma {:induction false} SplitFromFirstPart(s: string, sep: string, pre: string, cur: string)
    requires sep != []
    ensures |SplitFrom(s, sep, pre + cur)| == |SplitFrom(s, sep, cur)|
    ensures SplitFrom(s, sep, pre + cur)[0] == pre + SplitFrom(s, sep, cur)[0]
    ensures SplitFrom(s, sep, pre + cur)[1..] == SplitFrom(s, sep, cur)[1..]
    decreases |s|
  {
    if s == [] {
    } else if sep <= s {
    } else {
      SplitFromFirstPart(s[1..], sep, pre, cur + [s[0]]);
      assert pre + cur + [s[0]] == pre + (cur + [s[0]]);
    }
  }

  /** A first blank line after a prefix `a` free of blank lines ends the first chunk. */
  lemma SplitAtFirstBlank(a: string, r: string)
    requires !Contains(a, BlankLine)
    requires a == [] || a[|a| - 1] != '\n'
    ensures Split(a + BlankLine + r, BlankLine) == [a] + Split(r, BlankLine)
  {
    var sep := BlankLine;
    var rest := sep + r;
    forall p: nat | p < |a| ensures !OccursAt(a + rest, sep, p) {
      if p + 2 <= |a| {
        assert (a + rest)[p..p + 2] == a[p..p + 2];
        assert !OccursAt(a, sep, p);
      } else {
        assert (a + rest)[p] == a[p];
      }
    }
    assert a + BlankLine + r == a + rest;
    SplitFromSkip(a, rest, sep, []);
    SplitFromSep(r, sep, [] + a);
    assert [] + a == a;
  }

  /** A newline before a text that starts with content only lengthens its first, non-empty chunk. */
  lemma SplitLeadingNewline(b: string)
    requires b != [] && b[0] != '\n'
    ensures var parts := Split(b, BlankLine);
      && parts[0] != []
      && Split("\n" + b, BlankLine) == ["\n" + parts[0]] + parts[1..]
  {
    var sep := BlankLine;
    assert ("\n" + b)[1..] == b;
    assert ("\n" + b)[0] == '\n';
    assert !(sep <= "\n" + b);
    assert [] + ['\n'] == "\n";
    assert SplitFrom("\n" + b, sep, []) == SplitFrom(b, sep, "\n");
    SplitFromFirstPart(b, sep, "\n", []);
    assert "\n" + [] == "\n";
    assert !(sep <= b);
    assert [] + [b[0]] == [b[0]];
    assert SplitFrom(b, sep, []) == SplitFrom(b[1..], sep, [b[0]]);
    SplitFromFirstPart(b[1..], sep, [b[0]], []);
    assert [b[0]] + [] == [b[0]];
  }

  /**
    * Three newlines between two paragraphs give the same blocks as two: the
    * third newline starts the next chunk and is stripped away with it.
    */
  lemma ThreeNewlinesAsTwo(a: string, b: string)
    requires !Contains(a, BlankLine)
    requires a == [] || a[|a| - 1] != '\n'
    requires b != [] && b[0] != '\n'
    ensures Blocks(a + "\n\n\n" + b) == Blocks(a + "\n\n" + b)
  {
    assert a + "\n\n\n" + b == a + BlankLine + ("\n" + b);
    assert a + "\n\n" + b == a + BlankLine + b;
    SplitAtFirstBlank(a, "\n" + b);
    SplitAtFirstBlank(a, b);
    SplitLeadingNewline(b);
    var tail := Split(b, BlankLine);
    var first := tail[0];
    StripDropsLeadingSpace('\n', first);
    assert tail == [first] + tail[1..];
    KeepBlocksCons(a, Split("\n" + b, BlankLine));
    KeepBlocksCons(a, tail);
    KeepBlocksCons("\n" + first, tail[1..]);
    KeepBlocksCons(first, tail[1..]);
  }
}
