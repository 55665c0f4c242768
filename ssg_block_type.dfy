/**
  * `block_to_block_type` of the static site generator (SSG/src/block_type.py):
  * a markdown block is classified by a chain of checks tried in a fixed
  * order (heading, code, quote, unordered list, ordered list), the first
  * check that holds decides, and a block no check accepts is a paragraph.
  */
module BlockTypes {
  import opened PyStr

  datatype BlockType = Paragraph | Heading | Code | Quote | UnorderedList | OrderedList

  const Newline: string := "\n"
  const Fence: string := "```"

  /** The regular expression `^#{k} \S` matches at the start of `block`. */
  predicate HeadingAt(block: string, k: nat) {
    && k + 2 <= |block|
    && (forall j | 0 <= j < k :: block[j] == '#')
    && block[k] == ' '
    && !IsSpace(block[k + 1])
  }

  /** `re.match(r"^#{1,6} \S", block)`. */
  predicate IsHeading(block: string) {
    exists k | 1 <= k <= 6 :: HeadingAt(block, k)
  }

  /** `block.startswith("```") and block.endswith("```")`; the two fences may overlap. */
  predicate IsCode(block: string) {
    && |Fence| <= |block|
    && block[..|Fence|] == Fence
    && block[|block| - |Fence|..] == Fence
  }

  /** `line.startswith(">")`. */
  predicate QuoteLine(line: string) {
    |line| >= 1 && line[0] == '>'
  }

  /** `re.match(r"^- \S", line)`. */
  predicate UnorderedItem(line: string) {
    |line| >= 3 && line[0] == '-' && line[1] == ' ' && !IsSpace(line[2])
  }

  /** The marker `{n}. ` of the n-th item of an ordered list. */
  function ItemMarker(n: nat): string {
    NatToString(n) + ". "
  }

  /** `re.match(rf"^{n}\. \S", line)`. */
  predicate OrderedItem(line: string, n: nat) {
    var m := ItemMarker(n);
    |m| < |line| && line[..|m|] == m && !IsSpace(line[|m|])
  }

  predicate AllQuoteLines(lines: seq<string>) {
    forall i | 0 <= i < |lines| :: QuoteLine(lines[i])
  }

  predicate AllUnorderedItems(lines: seq<string>) {
    forall i | 0 <= i < |lines| :: UnorderedItem(lines[i])
  }

  /** Line i (counting from 0) carries the number i + 1. */
  predicate NumberedFromOne(lines: seq<string>) {
    forall i | 0 <= i < |lines| :: OrderedItem(lines[i], i + 1)
  }

  /**
    * `block_to_block_type`. The heading test reads the whole run of '#':
    * a block is a heading exactly when that run has 1 to 6 characters and
    * is followed by a space and a non-space character.
    */
  function BlockToBlockType(block: string): (r: BlockType)
    ensures r == Heading <==> 1 <= HashRun(block) <= 6 && HeadingAt(block, HashRun(block))
  {
    HeadingByHashRun(block);
    var lines := Split(block, Newline);
    if IsHeading(block) then Heading
    else if IsCode(block) then Code
    else if AllQuoteLines(lines) then Quote
    else if AllUnorderedItems(lines) then UnorderedList
    else if NumberedFromOne(lines) then OrderedList
    else Paragraph
  }

  /** Number of '#' characters at the start of `s`. */
  function HashRun(s: string): (k: nat)
    ensures k <= |s|
    ensures forall j | 0 <= j < k :: s[j] == '#'
    ensures k < |s| ==> s[k] != '#'
  {
    if s != [] && s[0] == '#' then 1 + HashRun(s[1..]) else 0
  }

  /**
    * The heading check counts the whole run of '#': a block is a heading
    * exactly when its run of '#' has length 1 to 6 and is followed by a
    * space and a non-space character.
    */
  lemma HeadingByHashRun(block: string)
    ensures IsHeading(block) <==> (1 <= HashRun(block) <= 6 && HeadingAt(block, HashRun(block)))
  {
    var h := HashRun(block);
    if IsHeading(block) {
      var k :| 1 <= k <= 6 && HeadingAt(block, k);
      assert block[k] == ' ';
      assert k == h;
    }
  }

  /** Seven or more '#' never make a heading. */
  lemma SevenHashesNotHeading(block: string)
    requires HashRun(block) >= 7
    ensures BlockToBlockType(block) != Heading
  {
    HeadingByHashRun(block);
  }

  /** Every '\n' of `s` is followed by the character `c`. */
  predicate EveryNewlineThen(s: string, c: char) {
    forall i | 0 <= i < |s| && s[i] == '\n' :: i + 1 < |s| && s[i + 1] == c
  }

  /** The scan of `split("\n")` with `cur` already read: every line starts with `c` exactly when the raw text says so. */
  lemma {:induction false} LinesStartWithFrom(s: string, cur: string, c: char)
    requires c != '\n'
    ensures (forall k | 0 <= k < |SplitFrom(s, Newline, cur)| :: |SplitFrom(s, Newline, cur)[k]| >= 1 && SplitFrom(s, Newline, cur)[k][0] == c)
      <==> ((if cur != [] then cur[0] == c else |s| >= 1 && s[0] == c) && EveryNewlineThen(s, c))
    decreases |s|
  {
    var parts := SplitFrom(s, Newline, cur);
    if s == [] {
      assert parts == [cur];
      assert EveryNewlineThen(s, c);
      assert |parts| == 1 && parts[0] == cur;
      if cur != [] && cur[0] == c {
        forall k | 0 <= k < |parts| ensures |parts[k]| >= 1 && parts[k][0] == c {
          assert k == 0;
        }
      } else {
        assert !(|parts[0]| >= 1 && parts[0][0] == c);
      }
    } else if Newline <= s {
      var rest := SplitFrom(s[1..], Newline, []);
      assert parts == [cur] + rest;
      LinesStartWithFrom(s[1..], [], c);
      if EveryNewlineThen(s[1..], c) && |s| >= 2 && s[1] == c {
        forall i | 0 <= i < |s| && s[i] == '\n' ensures i + 1 < |s| && s[i + 1] == c {
          if i > 0 {
            assert s[1..][i - 1] == '\n';
          }
        }
      }
      if EveryNewlineThen(s, c) {
        forall i | 0 <= i < |s[1..]| && s[1..][i] == '\n' ensures i + 1 < |s[1..]| && s[1..][i + 1] == c {
          assert s[i + 1] == '\n';
        }
      }
      forall k | 0 <= k < |rest| ensures parts[k + 1] == rest[k] { }
    } else {
      assert s[..1] == [s[0]];
      assert s[0] != '\n';
      LinesStartWithFrom(s[1..], cur + [s[0]], c);
      if EveryNewlineThen(s[1..], c) {
        forall i | 0 <= i < |s| && s[i] == '\n' ensures i + 1 < |s| && s[i + 1] == c {
          assert s[1..][i - 1] == '\n';
        }
      }
      if EveryNewlineThen(s, c) {
        forall i | 0 <= i < |s[1..]| && s[1..][i] == '\n' ensures i + 1 < |s[1..]| && s[1..][i + 1] == c {
          assert s[i + 1] == '\n';
        }
      }
    }
  }

  /**
    * The quote check read on the raw block: every line starts with '>'
    * exactly when the block starts with '>' and every newline is followed
    * by '>' (so a block ending in a newline, whose last line is empty, is
    * not a quote).
    */
  lemma QuoteByRawText(block: string)
    ensures AllQuoteLines(Split(block, Newline)) <==> (|block| >= 1 && block[0] == '>' && EveryNewlineThen(block, '>'))
  {
    LinesStartWithFrom(block, [], '>');
  }

  /** Once the heading and code checks fail, the quote check decides on the raw text. */
  lemma QuoteBlocks(block: string)
    requires !IsHeading(block) && !IsCode(block)
    ensures BlockToBlockType(block) == Quote <==> (|block| >= 1 && block[0] == '>' && EveryNewlineThen(block, '>'))
  {
    QuoteByRawText(block);
  }

  /** The first line of a split is a prefix of the text. */
  lemma {:induction false} FirstPartIsPrefix(s: string, sep: string, cur: string)
    requires sep != []
    ensures var first := SplitFrom(s, sep, cur)[0];
      |first| <= |cur + s| && (cur + s)[..|first|] == first
    decreases |s|
  {
    if s != [] && !(sep <= s) {
      FirstPartIsPrefix(s[1..], sep, cur + [s[0]]);
      assert cur + [s[0]] + s[1..] == cur + s;
    }
  }

  /** A line starting with an item marker has digits up to the marker's dot. */
  lemma MarkerShape(line: string, m: nat)
    requires |ItemMarker(m)| <= |line| && line[..|ItemMarker(m)|] == ItemMarker(m)
    ensures forall j | 0 <= j < |NatToString(m)| :: '0' <= line[j] <= '9'
    ensures line[|NatToString(m)|] == '.'
    ensures line[..|NatToString(m)|] == NatToString(m)
  {
    var a := NatToString(m);
    forall j | 0 <= j < |a| ensures '0' <= line[j] <= '9' {
      assert line[j] == ItemMarker(m)[j] == a[j];
    }
    assert line[|a|] == ItemMarker(m)[|a|];
    assert line[..|a|] == ItemMarker(m)[..|a|];
  }

  /** Two item markers that both start a line are the same marker. */
  lemma MarkersAgree(line: string, m: nat, n: nat)
    requires |ItemMarker(m)| <= |line| && line[..|ItemMarker(m)|] == ItemMarker(m)
    requires |ItemMarker(n)| <= |line| && line[..|ItemMarker(n)|] == ItemMarker(n)
    ensures m == n
  {
    var a, b := NatToString(m), NatToString(n);
    MarkerShape(line, m);
    MarkerShape(line, n);
    assert |a| == |b|;
    NatToStringInjective(m, n);
  }

  /** An ordered list starts with "1. ". */
  lemma OrderedListStartsAtOne(block: string)
    requires BlockToBlockType(block) == OrderedList
    ensures |block| > 3 && block[..3] == "1. "
  {
    NumberedStartsAtOne(block);
  }

  /** Lines numbered from one start with "1. ". */
  lemma NumberedStartsAtOne(block: string)
    requires NumberedFromOne(Split(block, Newline))
    ensures |block| > 3 && block[..3] == "1. "
  {
    var lines := Split(block, Newline);
    FirstPartIsPrefix(block, Newline, []);
    assert [] + block == block;
    assert OrderedItem(lines[0], 1);
    assert NatToString(1) == "1";
    assert lines[0][..3] == "1. ";
  }

  /**
    * The numbering must run 1, 2, 3, ... with no gap or repeat: a line
    * carrying any other number makes the block something other than an
    * ordered list.
    */
  lemma MisnumberedIsNotOrdered(block: string, i: nat, n: nat)
    requires i < |Split(block, Newline)|
    requires OrderedItem(Split(block, Newline)[i], n)
    requires n != i + 1
    ensures BlockToBlockType(block) != OrderedList
  {
    var lines := Split(block, Newline);
    if NumberedFromOne(lines) {
      MarkersAgree(lines[i], n, i + 1);
    }
  }

  /** A block starting "2. " is never an ordered list. */
  lemma StartingAtTwoIsNotOrdered(block: string)
    requires |block| >= 3 && block[..3] == "2. "
    ensures BlockToBlockType(block) != OrderedList
  {
    if BlockToBlockType(block) == OrderedList {
      OrderedListStartsAtOne(block);
    }
  }

  /** A heading starts with '#'. */
  lemma HeadingStartsWithHash(block: string)
    requires IsHeading(block)
    ensures |block| >= 1 && block[0] == '#'
  {
    var k :| 1 <= k <= 6 && HeadingAt(block, k);
  }

  /** The first line of a block is where the block starts. */
  lemma FirstLineStartsBlock(block: string)
    ensures var first := Split(block, Newline)[0];
      |first| <= |block| && block[..|first|] == first
  {
    FirstPartIsPrefix(block, Newline, []);
    assert [] + block == block;
  }

  /** A block between fences is code whatever its lines look like: it cannot be a heading. */
  lemma CodeBlocks(block: string)
    ensures BlockToBlockType(block) == Code <==> IsCode(block)
  {
    if IsCode(block) && IsHeading(block) {
      HeadingStartsWithHash(block);
    }
  }

  /** A block is an unordered list exactly when every line is "- " and a non-space character. */
  lemma UnorderedListBlocks(block: string)
    ensures BlockToBlockType(block) == UnorderedList <==> AllUnorderedItems(Split(block, Newline))
  {
    var lines := Split(block, Newline);
    if AllUnorderedItems(lines) {
      FirstLineStartsBlock(block);
      assert UnorderedItem(lines[0]);
      assert block[0] == lines[0][0] == '-';
      if IsHeading(block) {
        HeadingStartsWithHash(block);
      }
      assert !QuoteLine(lines[0]);
    }
  }

  /** A block is an ordered list exactly when its lines are numbered 1, 2, 3, ... in order. */
  lemma OrderedListBlocks(block: string)
    ensures BlockToBlockType(block) == OrderedList <==> NumberedFromOne(Split(block, Newline))
  {
    var lines := Split(block, Newline);
    if NumberedFromOne(lines) {
      NumberedStartsAtOne(block);
      FirstLineStartsBlock(block);
      assert OrderedItem(lines[0], 1);
      assert NatToString(1) == "1";
      assert lines[0][0] == '1';
      assert block[0] == '1';
      if IsHeading(block) {
        HeadingStartsWithHash(block);
      }
      assert !QuoteLine(lines[0]) && !UnorderedItem(lines[0]);
    }
  }
}
