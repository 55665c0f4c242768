/**
  * The inline half of the static site generator (SSG/src/textnode.py):
  * text nodes, their conversion to HTML leaf nodes, and the passes that
  * cut the text of a block into bold, italic, code, image and link nodes.
  *
  * Each pass is a method with the source's loops, proved equal to a
  * function that builds the same list from the back; the lemmas state
  * what the passes promise about those functions.
  */
module TextNodes {
  import opened Wrappers
  import opened PyStr
  import opened MarkdownRegex

  datatype TextType = Text | Bold | Italic | Code | Link | Image

  /** A run of inline text; `url` is set for links and images. */
  datatype TextNode = TextNode(text: string, textType: TextType, url: Option<string>)

  /** An HTML attribute of a leaf node; its value is `None` when the url it copies is. */
  datatype Prop = Prop(name: string, value: Option<string>)

  /** `LeafNode(tag, value, props)`; `props` is `None` when no dictionary is given. */
  datatype LeafNode = LeafNode(tag: Option<string>, value: string, props: Option<seq<Prop>>)

  // ---------------------------------------------------------------------
  // text_to_html
  // ---------------------------------------------------------------------

  /** Reads a text node back from the leaf `TextToHtml` builds for it. */
  function HtmlToTextNode(leaf: LeafNode): Option<TextNode> {
    if leaf.props.None? then
      if leaf.tag == None then Some(TextNode(leaf.value, Text, None))
      else if leaf.tag == Some("b") then Some(TextNode(leaf.value, Bold, None))
      else if leaf.tag == Some("i") then Some(TextNode(leaf.value, Italic, None))
      else if leaf.tag == Some("code") then Some(TextNode(leaf.value, Code, None))
      else None
    else
      var props := leaf.props.value;
      if leaf.tag == Some("a") && |props| == 1 && props[0].name == "href" then
        Some(TextNode(leaf.value, Link, props[0].value))
      else if leaf.tag == Some("img") && leaf.value == "" && |props| == 2
        && props[0].name == "src" && props[1].name == "alt" && props[1].value.Some? then
        Some(TextNode(props[1].value.value, Image, props[0].value))
      else None
  }

  /**
    * The leaf node for a text node: plain text has no tag, bold, italic and
    * code get `b`, `i` and `code`, a link an `a` with its url as `href`, an
    * image an empty `img` with `src` and `alt`. Nothing is lost except the
    * url of a node whose type has no place for one.
    */
  function TextToHtml(node: TextNode): (leaf: LeafNode)
    ensures leaf.tag.None? <==> node.textType == Text
    ensures HtmlToTextNode(leaf) == Some(node) <==> (node.textType in {Text, Bold, Italic, Code} ==> node.url.None?)
    ensures node.textType != Image ==> leaf.value == node.text
  {
    match node.textType
    case Text => LeafNode(None, node.text, None)
    case Bold => LeafNode(Some("b"), node.text, None)
    case Italic => LeafNode(Some("i"), node.text, None)
    case Code => LeafNode(Some("code"), node.text, None)
    case Link => LeafNode(Some("a"), node.text, Some([Prop("href", node.url)]))
    case Image => LeafNode(Some("img"), "", Some([Prop("src", node.url), Prop("alt", Some(node.text))]))
  }

  // ---------------------------------------------------------------------
  // split_nodes_delimiter
  // ---------------------------------------------------------------------

  /** The `ValueError`s of the delimiter pass. */
  datatype SplitError =
    | UnclosedDelimiter(delimiter: string, text: string)
    | EmptySeparator

  /** Part `i` of a split text becomes plain text when `i` is even and `textType` when odd. */
  function PartNode(part: string, i: nat, textType: TextType): TextNode {
    TextNode(part, if i % 2 == 0 then Text else textType, None)
  }

  /** The nodes the inner loop appends for `parts`: empty parts are skipped. */
  function LabelParts(parts: seq<string>, textType: TextType): seq<TextNode> {
    if parts == [] then []
    else
      var i := |parts| - 1;
      LabelParts(parts[..i], textType) + (if parts[i] == [] then [] else [PartNode(parts[i], i, textType)])
  }

  /** What one node of the input turns into. */
  function SplitNodeDelimiter(node: TextNode, delimiter: string, textType: TextType): Result<seq<TextNode>, SplitError> {
    if node.textType != Text then Ok([node])
    else if delimiter == [] then Err(EmptySeparator)
    else
      var parts := Split(node.text, delimiter);
      if |parts| % 2 == 0 then Err(UnclosedDelimiter(delimiter, node.text))
      else Ok(LabelParts(parts, textType))
  }

  /** The whole pass: the nodes in order, stopping at the first error. */
  function SplitAllDelimiter(nodes: seq<TextNode>, delimiter: string, textType: TextType): Result<seq<TextNode>, SplitError> {
    if nodes == [] then Ok([])
    else
      match SplitAllDelimiter(nodes[..|nodes| - 1], delimiter, textType)
      case Err(e) => Err(e)
      case Ok(done) =>
        match SplitNodeDelimiter(nodes[|nodes| - 1], delimiter, textType)
        case Err(e) => Err(e)
        case Ok(more) => Ok(done + more)
  }

  /** Once a prefix of the input fails, the pass fails with the same error. */
  lemma {:induction false} ErrorPersists(nodes: seq<TextNode>, k: nat, delimiter: string, textType: TextType)
    requires k <= |nodes|
    requires SplitAllDelimiter(nodes[..k], delimiter, textType).Err?
    ensures SplitAllDelimiter(nodes, delimiter, textType) == SplitAllDelimiter(nodes[..k], delimiter, textType)
    decreases |nodes| - k
  {
    if k == |nodes| {
      assert nodes[..k] == nodes;
    } else {
      assert nodes[..k + 1][..k] == nodes[..k];
      ErrorPersists(nodes, k + 1, delimiter, textType);
    }
  }

  /** The inner loop of `split_nodes_delimiter`: odd-numbered parts take the delimiter's type, empty parts are dropped. */
  method LabelEach(parts: seq<string>, textType: TextType) returns (nodes: seq<TextNode>)
    ensures nodes == LabelParts(parts, textType)
  {
    nodes := [];
    for i := 0 to |parts|
      invariant nodes == LabelParts(parts[..i], textType)
    {
      assert parts[..i + 1][..i] == parts[..i];
      var part := parts[i];
      if part != [] {
        if i % 2 == 0 {
          nodes := nodes + [TextNode(part, Text, None)];
        } else {
          nodes := nodes + [TextNode(part, textType, None)];
        }
      }
    }
    assert parts[..|parts|] == parts;
  }

  /** `split_nodes_delimiter`: the `ValueError` it raises is the `Err` it returns. */
  method SplitNodesDelimiter(oldNodes: seq<TextNode>, delimiter: string, textType: TextType) returns (r: Result<seq<TextNode>, SplitError>)
    ensures r == SplitAllDelimiter(oldNodes, delimiter, textType)
  {
    var newNodes: seq<TextNode> := [];
    for k := 0 to |oldNodes|
      invariant SplitAllDelimiter(oldNodes[..k], delimiter, textType) == Ok(newNodes)
    {
      assert oldNodes[..k + 1][..k] == oldNodes[..k];
      var node := oldNodes[k];
      if node.textType != Text {
        newNodes := newNodes + [node];
        continue;
      }
      if delimiter == [] {
        r := Err(EmptySeparator);
        ErrorPersists(oldNodes, k + 1, delimiter, textType);
        return;
      }
      var parts := Split(node.text, delimiter);
      if |parts| % 2 == 0 {
        r := Err(UnclosedDelimiter(delimiter, node.text));
        ErrorPersists(oldNodes, k + 1, delimiter, textType);
        return;
      }
      var labelled := LabelEach(parts, textType);
      newNodes := newNodes + labelled;
    }
    assert oldNodes[..|oldNodes|] == oldNodes;
    r := Ok(newNodes);
  }

  /** A plain-text node is refused exactly when its delimiters do not pair up. */
  lemma UnclosedIffOddCount(node: TextNode, delimiter: string, textType: TextType)
    requires node.textType == Text && delimiter != []
    ensures SplitNodeDelimiter(node, delimiter, textType).Err? <==> Count(node.text, delimiter) % 2 == 1
    ensures SplitNodeDelimiter(node, delimiter, textType).Err? ==>
      SplitNodeDelimiter(node, delimiter, textType).error == UnclosedDelimiter(delimiter, node.text)
  {
    SplitCount(node.text, delimiter);
  }

  /** The texts of a list of nodes. */
  function Texts(nodes: seq<TextNode>): (r: seq<string>)
    ensures |r| == |nodes|
    ensures forall k | 0 <= k < |r| :: r[k] == nodes[k].text
  {
    if nodes == [] then [] else Texts(nodes[..|nodes| - 1]) + [nodes[|nodes| - 1].text]
  }

  lemma TextsAppend(xs: seq<TextNode>, ys: seq<TextNode>)
    ensures Texts(xs + ys) == Texts(xs) + Texts(ys)
  {
  }

  /** Appending a part, or only a non-empty one, appends its text. */
  lemma ConcatSnoc(xs: seq<string>, p: string)
    ensures Concat(xs + [p]) == Concat(xs) + p
    ensures Concat(xs + (if p == [] then [] else [p])) == Concat(xs) + p
  {
    ConcatAppend(xs, [p]);
    assert [p][1..] == [];
    assert xs + [] == xs;
  }

  /** Labelling one more part adds its text, if any, to the spelled text. */
  lemma LabelPartsTextsSnoc(parts: seq<string>, textType: TextType)
    requires parts != []
    ensures var i := |parts| - 1;
      Concat(Texts(LabelParts(parts, textType))) == Concat(Texts(LabelParts(parts[..i], textType))) + parts[i]
  {
    var i := |parts| - 1;
    var init := Texts(LabelParts(parts[..i], textType));
    var last := if parts[i] == [] then [] else [PartNode(parts[i], i, textType)];
    TextsAppend(LabelParts(parts[..i], textType), last);
    assert Texts(last) == (if parts[i] == [] then [] else [parts[i]]);
    ConcatSnoc(init, parts[i]);
  }

  /** The labelled parts spell the split text without its separators. */
  lemma {:induction false} LabelPartsTexts(parts: seq<string>, textType: TextType)
    ensures Concat(Texts(LabelParts(parts, textType))) == Concat(parts)
  {
    if parts != [] {
      var i := |parts| - 1;
      LabelPartsTexts(parts[..i], textType);
      LabelPartsTextsSnoc(parts, textType);
      assert parts == parts[..i] + [parts[i]];
      ConcatSnoc(parts[..i], parts[i]);
    }
  }

  /** Every labelled node is a non-empty part, typed by the parity of its index in the split. */
  lemma {:induction false} LabelPartsFrom(parts: seq<string>, textType: TextType)
    ensures forall n | n in LabelParts(parts, textType) ::
      exists i | 0 <= i < |parts| :: parts[i] != [] && n == PartNode(parts[i], i, textType)
  {
    if parts != [] {
      var i := |parts| - 1;
      LabelPartsFrom(parts[..i], textType);
      forall n | n in LabelParts(parts, textType)
        ensures exists j | 0 <= j < |parts| :: parts[j] != [] && n == PartNode(parts[j], j, textType)
      {
        if n in LabelParts(parts[..i], textType) {
          var j :| 0 <= j < |parts[..i]| && parts[..i][j] != [] && n == PartNode(parts[..i][j], j, textType);
          assert parts[j] == parts[..i][j];
        } else {
          assert parts[i] != [] && n == PartNode(parts[i], i, textType);
        }
      }
    }
  }

  /**
    * A split plain-text node: its new nodes carry no delimiter, none is
    * empty, none has a url, each is plain text or `textType`, and their
    * texts spell the old text with every delimiter removed.
    */
  lemma SplitNodeDelimiterOk(node: TextNode, delimiter: string, textType: TextType)
    requires node.textType == Text && delimiter != []
    requires SplitNodeDelimiter(node, delimiter, textType).Ok?
    ensures var nodes := SplitNodeDelimiter(node, delimiter, textType).value;
      && Concat(Texts(nodes)) == RemoveAll(node.text, delimiter)
      && forall n | n in nodes ::
        && n.text != [] && !Contains(n.text, delimiter) && n.url.None?
        && (n.textType == Text || n.textType == textType)
  {
    var parts := Split(node.text, delimiter);
    LabelPartsTexts(parts, textType);
    ConcatSplit(node.text, delimiter);
    LabelPartsFrom(parts, textType);
    SplitPartsFree(node.text, delimiter);
  }

  /** The pass works node by node: the output for a concatenation is the concatenation of the outputs. */
  lemma {:induction false} SplitAllDelimiterAppend(xs: seq<TextNode>, ys: seq<TextNode>, delimiter: string, textType: TextType)
    requires SplitAllDelimiter(xs + ys, delimiter, textType).Ok?
    ensures SplitAllDelimiter(xs, delimiter, textType).Ok? && SplitAllDelimiter(ys, delimiter, textType).Ok?
    ensures SplitAllDelimiter(xs + ys, delimiter, textType).value
      == SplitAllDelimiter(xs, delimiter, textType).value + SplitAllDelimiter(ys, delimiter, textType).value
    decreases |ys|
  {
    if ys == [] {
      assert xs + ys == xs;
    } else {
      var ys' := ys[..|ys| - 1];
      assert (xs + ys)[..|xs + ys| - 1] == xs + ys';
      assert (xs + ys)[|xs + ys| - 1] == ys[|ys| - 1];
      SplitAllDelimiterAppend(xs, ys', delimiter, textType);
    }
  }

  /** A node that is not plain text comes through unchanged. */
  lemma KeepsFormattedNode(node: TextNode, delimiter: string, textType: TextType)
    requires node.textType != Text
    ensures SplitAllDelimiter([node], delimiter, textType) == Ok([node])
  {
    assert [node][..0] == [];
    assert [] + [node] == [node];
  }

  /** None of the strings `ts` occurs in `s`. */
  predicate Free(s: string, ts: seq<string>) {
    forall j | 0 <= j < |ts| :: !Contains(s, ts[j])
  }

  /**
    * After a delimiter pass, plain text and the new `textType` nodes are
    * free of the delimiter and of whatever the plain text was already free
    * of; every other node is an input node passed through.
    */
  lemma {:induction false} DelimiterPassCleans(nodes: seq<TextNode>, delimiter: string, textType: TextType, free: seq<string>)
    requires delimiter != [] && textType != Text
    requires SplitAllDelimiter(nodes, delimiter, textType).Ok?
    requires forall n | n in nodes :: n.textType != textType
    requires forall n | n in nodes && n.textType == Text :: Free(n.text, free)
    ensures forall n | n in SplitAllDelimiter(nodes, delimiter, textType).value ::
      if n.textType == Text || n.textType == textType then Free(n.text, free + [delimiter]) else n in nodes
  {
    if nodes != [] {
      var init := nodes[..|nodes| - 1];
      var last := nodes[|nodes| - 1];
      assert forall n | n in init :: n in nodes;
      DelimiterPassCleans(init, delimiter, textType, free);
      var more := SplitNodeDelimiter(last, delimiter, textType).value;
      if last.textType == Text {
        var parts := Split(last.text, delimiter);
        SplitNodeDelimiterOk(last, delimiter, textType);
        LabelPartsFrom(parts, textType);
        forall j | 0 <= j < |free| {
          SplitPartsInherit(last.text, delimiter, free[j]);
        }
        forall n | n in more ensures Free(n.text, free + [delimiter]) {
          var i :| 0 <= i < |parts| && parts[i] != [] && n == PartNode(parts[i], i, textType);
          assert forall j | 0 <= j < |free| :: !Contains(parts[i], free[j]);
        }
      }
    }
  }

  /** The labels of a split into three parts. */
  lemma LabelThree(x: string, y: string, z: string, textType: TextType)
    ensures LabelParts([x, y, z], textType)
      == (if x == [] then [] else [TextNode(x, Text, None)])
       + (if y == [] then [] else [TextNode(y, textType, None)])
       + (if z == [] then [] else [TextNode(z, Text, None)])
  {
    assert [x][..0] == [];
    assert LabelParts([x], textType) == (if x == [] then [] else [TextNode(x, Text, None)]);
    assert [x, y][..1] == [x];
    assert LabelParts([x, y], textType) == LabelParts([x], textType) + (if y == [] then [] else [TextNode(y, textType, None)]);
    assert [x, y, z][..2] == [x, y];
  }

  /** No two '*' stand side by side in `m*b*` when `m` and `b` are non-empty and star-free. */
  lemma NoDoubleStar(m: string, b: string)
    requires m != [] && b != []
    requires forall q | 0 <= q < |m| :: m[q] != '*'
    requires forall q | 0 <= q < |b| :: b[q] != '*'
    ensures !Contains(m + "*" + b + "*", "**")
  {
    var tail := m + "*" + b + "*";
    forall p: nat | p + 2 <= |tail| ensures !(tail[p] == '*' && tail[p + 1] == '*') {
      if p < |m| {
        assert tail[p] == m[p];
      } else if p == |m| {
        assert tail[p + 1] == b[0];
      } else {
        assert tail[p] == b[p - |m| - 1];
      }
    }
    forall p: nat | p <= |tail| ensures !OccursAt(tail, "**", p) {
      if p + 2 <= |tail| {
        assert tail[p..p + 2][0] == tail[p] && tail[p..p + 2][1] == tail[p + 1];
      }
    }
  }

  /** The bold pass over `**a**` followed by a text without a double star. */
  lemma BoldPass(a: string, tail: string)
    requires a != [] && tail != []
    requires forall q | 0 <= q < |a| :: a[q] != '*'
    requires !Contains(tail, "**")
    ensures SplitAllDelimiter([TextNode("**" + a + "**" + tail, Text, None)], "**", Bold)
      == Ok([TextNode(a, Bold, None), TextNode(tail, Text, None)])
  {
    var text := "**" + a + "**" + tail;
    assert text == [] + "**" + (a + "**" + tail);
    SplitAround([], "**", a + "**" + tail);
    NoSepStartsInside(a, "**" + tail, "**");
    SplitAround(a, "**", tail);
    SplitNoSep(tail, "**");
    assert Split(text, "**") == ["", a, tail];
    LabelThree("", a, tail, Bold);
    assert LabelParts(["", a, tail], Bold) == [TextNode(a, Bold, None), TextNode(tail, Text, None)];
    assert [TextNode(text, Text, None)][..0] == [];
    assert [] + [TextNode(a, Bold, None), TextNode(tail, Text, None)] == [TextNode(a, Bold, None), TextNode(tail, Text, None)];
  }

  /** The italic pass over a bold node and the text `m*b*`. */
  lemma ItalicPass(a: string, m: string, b: string)
    requires m != [] && b != []
    requires forall q | 0 <= q < |m| :: m[q] != '*'
    requires forall q | 0 <= q < |b| :: b[q] != '*'
    ensures SplitAllDelimiter([TextNode(a, Bold, None), TextNode(m + "*" + b + "*", Text, None)], "*", Italic)
      == Ok([TextNode(a, Bold, None), TextNode(m, Text, None), TextNode(b, Italic, None)])
  {
    var tail := m + "*" + b + "*";
    assert tail == m + "*" + (b + "*");
    NoSepStartsInside(m, "*" + (b + "*"), "*");
    SplitAround(m, "*", b + "*");
    assert b + "*" == b + "*" + [];
    NoSepStartsInside(b, "*" + [], "*");
    SplitAround(b, "*", []);
    assert Split([], "*") == [[]];
    assert Split(tail, "*") == [m, b, ""];
    LabelThree(m, b, "", Italic);
    assert LabelParts([m, b, ""], Italic) == [TextNode(m, Text, None), TextNode(b, Italic, None)];
    KeepsFormattedNode(TextNode(a, Bold, None), "*", Italic);
    var nodes := [TextNode(a, Bold, None), TextNode(tail, Text, None)];
    assert nodes[..1] == [TextNode(a, Bold, None)];
    assert [TextNode(a, Bold, None)] + [TextNode(m, Text, None), TextNode(b, Italic, None)]
      == [TextNode(a, Bold, None), TextNode(m, Text, None), TextNode(b, Italic, None)];
  }

  /** The test with "**bold** and *italic*": a bold pass and then an italic pass. */
  lemma BoldThenItalic(a: string, m: string, b: string)
    requires a != [] && m != [] && b != []
    requires forall q | 0 <= q < |a| :: a[q] != '*'
    requires forall q | 0 <= q < |m| :: m[q] != '*'
    requires forall q | 0 <= q < |b| :: b[q] != '*'
    ensures var text := "**" + a + "**" + m + "*" + b + "*";
      && SplitAllDelimiter([TextNode(text, Text, None)], "**", Bold)
        == Ok([TextNode(a, Bold, None), TextNode(m + "*" + b + "*", Text, None)])
      && SplitAllDelimiter([TextNode(a, Bold, None), TextNode(m + "*" + b + "*", Text, None)], "*", Italic)
        == Ok([TextNode(a, Bold, None), TextNode(m, Text, None), TextNode(b, Italic, None)])
  {
    var tail := m + "*" + b + "*";
    NoDoubleStar(m, b);
    BoldPass(a, tail);
    assert "**" + a + "**" + m + "*" + b + "*" == "**" + a + "**" + tail;
    ItalicPass(a, m, b);
  }

  // ---------------------------------------------------------------------
  // extract_markdown_images, extract_markdown_links
  // ---------------------------------------------------------------------

  /** The `(alt, url)` tuples `findall` returns for its matches. */
  function Groups(hits: seq<Hit>): (r: seq<(string, string)>)
    ensures |r| == |hits|
    ensures forall k | 0 <= k < |r| :: r[k] == (hits[k].alt, hits[k].url)
  {
    if hits == [] then [] else Groups(hits[..|hits| - 1]) + [(hits[|hits| - 1].alt, hits[|hits| - 1].url)]
  }

  /** `extract_markdown_images`: the groups of every image `findall` reports, in order; none exactly when no image occurs. */
  function ExtractMarkdownImages(text: string): (r: seq<(string, string)>)
    ensures |r| == |ImageHits(text)|
    ensures forall k | 0 <= k < |r| ::
      r[k] == (ImageHits(text)[k].alt, ImageHits(text)[k].url) && HitFound(text, "!", false, ImageHits(text)[k])
    ensures r == [] <==> NoMatchIn(text, "!", false, 0, |text| + 1)
  {
    FindAllSound(text, "!", false, 0);
    FindAllEmpty(text, "!", false, 0);
    Groups(ImageHits(text))
  }

  /** `extract_markdown_links`: the groups of every link `findall` reports, in order; none exactly when no link occurs. */
  function ExtractMarkdownLinks(text: string): (r: seq<(string, string)>)
    ensures |r| == |LinkHits(text)|
    ensures forall k | 0 <= k < |r| ::
      r[k] == (LinkHits(text)[k].alt, LinkHits(text)[k].url) && HitFound(text, "", true, LinkHits(text)[k])
    ensures r == [] <==> NoMatchIn(text, "", true, 0, |text| + 1)
  {
    FindAllSound(text, "", true, 0);
    FindAllEmpty(text, "", true, 0);
    Groups(LinkHits(text))
  }

  /**
    * A text that is one image: the image is extracted with its two groups,
    * and the links pattern finds nothing in it, since the only '[' follows
    * a '!'.
    */
  lemma SingleImage(alt: string, url: string)
    requires Avoids(alt, '[', ']') && Avoids(url, '(', ')')
    requires forall q | 0 <= q < |url| :: url[q] != '['
    ensures ExtractMarkdownImages(RefText("!", alt, url)) == [(alt, url)]
    ensures ExtractMarkdownLinks(RefText("!", alt, url)) == []
  {
    var s := RefText("!", alt, url);
    assert StartsWith(s, s);
    MatchGreedyComplete(s, "!", alt, url);
    assert s[0..] == s;
    assert ImageHits(s) == [Hit(0, alt, url, |s|)] + FindAllFrom(s, "!", false, |s|);
    RefTextPieces(s, "!", alt, url);
    assert forall p | 0 <= p < |s| && s[p] == '[' :: p == 1;
    forall p | 0 <= p <= |s| ensures !MatchesAt(s, "", true, p) {
      if p < |s| {
        assert s[p..][0] == s[p];
      }
    }
    FindAllEmpty(s, "", true, 0);
  }

  // ---------------------------------------------------------------------
  // split_nodes_image, split_nodes_link
  // ---------------------------------------------------------------------

  /** The two types the reference passes produce. */
  predicate IsReference(refType: TextType) {
    refType == Image || refType == Link
  }

  /** What precedes the '[' in the pattern of a reference pass: "!" for images. */
  function Lead(refType: TextType): string {
    if refType == Image then "!" else ""
  }

  /** A part of `re.split`: a reference node when `re.match` succeeds on it, plain text otherwise. */
  function ClassifyPart(part: string, refType: TextType): TextNode {
    match MatchLazy(part, Lead(refType))
    case Some(m) => TextNode(m.alt, refType, Some(m.url))
    case None => TextNode(part, Text, None)
  }

  /** The nodes the inner loop appends for `parts`, one per part, empty parts included. */
  function ClassifyParts(parts: seq<string>, refType: TextType): seq<TextNode> {
    if parts == [] then []
    else ClassifyParts(parts[..|parts| - 1], refType) + [ClassifyPart(parts[|parts| - 1], refType)]
  }

  /** One node per part, in order. */
  lemma {:induction false} ClassifyPartsByIndex(parts: seq<string>, refType: TextType)
    ensures |ClassifyParts(parts, refType)| == |parts|
    ensures forall k | 0 <= k < |parts| :: ClassifyParts(parts, refType)[k] == ClassifyPart(parts[k], refType)
  {
    if parts != [] {
      ClassifyPartsByIndex(parts[..|parts| - 1], refType);
    }
  }

  /** What one node of the input turns into. */
  function SplitNodeReferences(node: TextNode, refType: TextType): seq<TextNode> {
    if node.textType != Text then [node]
    else ClassifyParts(ReSplit(node.text, Lead(refType)), refType)
  }

  /** The whole pass, node by node. */
  function SplitAllReferences(nodes: seq<TextNode>, refType: TextType): seq<TextNode> {
    if nodes == [] then []
    else SplitAllReferences(nodes[..|nodes| - 1], refType) + SplitNodeReferences(nodes[|nodes| - 1], refType)
  }

  /** The inner loop of `split_nodes_image` and `split_nodes_link`: one node per part of the split. */
  method ClassifyEach(parts: seq<string>, refType: TextType) returns (nodes: seq<TextNode>)
    ensures nodes == ClassifyParts(parts, refType)
  {
    nodes := [];
    for i := 0 to |parts|
      invariant nodes == ClassifyParts(parts[..i], refType)
    {
      assert parts[..i + 1][..i] == parts[..i];
      var part := parts[i];
      var m := MatchLazy(part, Lead(refType));
      if m.Some? {
        nodes := nodes + [TextNode(m.value.alt, refType, Some(m.value.url))];
      } else {
        nodes := nodes + [TextNode(part, Text, None)];
      }
    }
    assert parts[..|parts|] == parts;
  }

  /** The outer loop shared by `split_nodes_image` and `split_nodes_link`. */
  method SplitNodesReferences(oldNodes: seq<TextNode>, refType: TextType) returns (newNodes: seq<TextNode>)
    requires IsReference(refType)
    ensures newNodes == SplitAllReferences(oldNodes, refType)
  {
    newNodes := [];
    for k := 0 to |oldNodes|
      invariant newNodes == SplitAllReferences(oldNodes[..k], refType)
    {
      assert oldNodes[..k + 1][..k] == oldNodes[..k];
      var node := oldNodes[k];
      if node.textType != Text {
        newNodes := newNodes + [node];
        continue;
      }
      var parts := ReSplit(node.text, Lead(refType));
      var more := ClassifyEach(parts, refType);
      newNodes := newNodes + more;
    }
    assert oldNodes[..|oldNodes|] == oldNodes;
  }

  /** `split_nodes_image`. */
  method SplitNodesImage(oldNodes: seq<TextNode>) returns (newNodes: seq<TextNode>)
    ensures newNodes == SplitAllReferences(oldNodes, Image)
  {
    newNodes := SplitNodesReferences(oldNodes, Image);
  }

  /** `split_nodes_link`. */
  method SplitNodesLink(oldNodes: seq<TextNode>) returns (newNodes: seq<TextNode>)
    ensures newNodes == SplitAllReferences(oldNodes, Link)
  {
    newNodes := SplitNodesReferences(oldNodes, Link);
  }

  /**
    * A plain-text node becomes an odd number of nodes that alternate: plain
    * text at even places (possibly empty: before a reference at the very
    * start, between two adjacent ones, after one at the very end) and a
    * reference with a url at odd places.
    */
  lemma ReferencesAlternate(s: string, refType: TextType)
    requires IsReference(refType)
    ensures var parts := ReSplit(s, Lead(refType));
      var nodes := ClassifyParts(parts, refType);
      && |nodes| == |parts|
      && |nodes| % 2 == 1
      && forall k | 0 <= k < |parts| ::
        if k % 2 == 0 then nodes[k] == TextNode(parts[k], Text, None)
        else nodes[k].textType == refType && nodes[k].url.Some?
  {
    var parts := ReSplit(s, Lead(refType));
    var nodes := ClassifyParts(parts, refType);
    ReSplitShape(s, Lead(refType));
    AlternatesByIndex(parts, Lead(refType));
    ClassifyPartsByIndex(parts, refType);
    forall k | 0 <= k < |parts|
      ensures if k % 2 == 0 then nodes[k] == TextNode(parts[k], Text, None)
        else nodes[k].textType == refType && nodes[k].url.Some?
    {
      ClassifiedByMatch(parts[k], refType);
    }
  }

  /** A part the pattern does not match stays plain text; a part it matches whole becomes a reference. */
  lemma ClassifiedByMatch(part: string, refType: TextType)
    ensures TextPart(part, Lead(refType)) ==> ClassifyPart(part, refType) == TextNode(part, Text, None)
    ensures WholeMatch(part, Lead(refType)) ==>
      ClassifyPart(part, refType).textType == refType && ClassifyPart(part, refType).url.Some?
  {
    MatchLenOfMatch(part, Lead(refType));
  }

  /** The markdown a node is written as; its inverse is the parse. */
  function Markdown(node: TextNode): string {
    var url := if node.url.Some? then node.url.value else "";
    match node.textType
    case Text => node.text
    case Bold => "**" + node.text + "**"
    case Italic => "_" + node.text + "_"
    case Code => "`" + node.text + "`"
    case Image => RefText("!", node.text, url)
    case Link => RefText("", node.text, url)
  }

  function Markdowns(nodes: seq<TextNode>): (r: seq<string>)
    ensures |r| == |nodes|
    ensures forall k | 0 <= k < |r| :: r[k] == Markdown(nodes[k])
  {
    if nodes == [] then [] else Markdowns(nodes[..|nodes| - 1]) + [Markdown(nodes[|nodes| - 1])]
  }

  /** Writing the nodes of a reference pass back as markdown gives the text they came from. */
  lemma ReferencesRoundTrip(s: string, refType: TextType)
    requires IsReference(refType)
    ensures Concat(Markdowns(SplitNodeReferences(TextNode(s, Text, None), refType))) == s
  {
    var lead := Lead(refType);
    var parts := ReSplit(s, lead);
    var nodes := ClassifyParts(parts, refType);
    ClassifyPartsByIndex(parts, refType);
    ReSplitShape(s, lead);
    AlternatesByIndex(parts, lead);
    forall k | 0 <= k < |parts| ensures Markdown(nodes[k]) == parts[k] {
      MatchLenOfMatch(parts[k], lead);
      if k % 2 == 1 {
        var m := MatchLazy(parts[k], lead).value;
        assert parts[k][..|RefText(lead, m.alt, m.url)|] == parts[k];
      }
    }
    assert Markdowns(nodes) == parts;
  }

  /** A node that is not plain text comes through a reference pass unchanged. */
  lemma ReferencesKeepFormattedNode(node: TextNode, refType: TextType)
    requires node.textType != Text
    ensures SplitAllReferences([node], refType) == [node]
  {
    assert [node][..0] == [];
    assert [] + [node] == [node];
  }

  /** Appending a node to the input of the reference pass appends its nodes to the output. */
  lemma SplitAllReferencesSnoc(xs: seq<TextNode>, node: TextNode, refType: TextType)
    ensures SplitAllReferences(xs + [node], refType) == SplitAllReferences(xs, refType) + SplitAllReferences([node], refType)
  {
    var zs := xs + [node];
    assert zs[..|zs| - 1] == xs && zs[|zs| - 1] == node;
    assert [node][..0] == [];
  }

  /** The reference pass works node by node: the output for a concatenation is the concatenation of the outputs. */
  lemma {:induction false} SplitAllReferencesAppend(xs: seq<TextNode>, ys: seq<TextNode>, refType: TextType)
    ensures SplitAllReferences(xs + ys, refType) == SplitAllReferences(xs, refType) + SplitAllReferences(ys, refType)
    decreases |ys|
  {
    if ys == [] {
      assert xs + ys == xs;
    } else {
      var ys', last := ys[..|ys| - 1], ys[|ys| - 1];
      assert ys == ys' + [last];
      var a, b, c := SplitAllReferences(xs, refType), SplitAllReferences(ys', refType), SplitAllReferences([last], refType);
      calc {
        SplitAllReferences(xs + ys, refType);
        { assert xs + ys == (xs + ys') + [last]; }
        SplitAllReferences((xs + ys') + [last], refType);
        { SplitAllReferencesSnoc(xs + ys', last, refType); }
        SplitAllReferences(xs + ys', refType) + c;
        { SplitAllReferencesAppend(xs, ys', refType); }
        (a + b) + c;
        a + (b + c);
        { SplitAllReferencesSnoc(ys', last, refType); }
        a + SplitAllReferences(ys, refType);
      }
    }
  }

  /** A slice of a text is free of whatever the text is free of. */
  lemma FreeSlice(s: string, i: nat, j: nat, free: seq<string>)
    requires i <= j <= |s|
    requires Free(s, free)
    ensures Free(s[i..j], free)
  {
    forall t | 0 <= t < |free| ensures !Contains(s[i..j], free[t]) {
      if Contains(s[i..j], free[t]) {
        ContainsSlice(s, i, j, free[t]);
      }
    }
  }

  /** The node made from one part is free of whatever the part is free of. */
  lemma ClassifiedPartClean(part: string, refType: TextType, free: seq<string>)
    requires Free(part, free)
    ensures var n := ClassifyPart(part, refType);
      Free(n.text, free) && (n.textType == Text || n.textType == refType)
  {
    match MatchLazy(part, Lead(refType))
    case Some(m) => {
      RefTextPieces(part, Lead(refType), m.alt, m.url);
      FreeSlice(part, |Lead(refType)| + 1, |Lead(refType)| + 1 + |m.alt|, free);
    }
    case None =>
  }

  /** Every node a reference pass makes from a plain text is free of whatever that text is free of. */
  lemma ReferencePartsClean(s: string, refType: TextType, free: seq<string>)
    requires Free(s, free)
    ensures forall n | n in ClassifyParts(ReSplit(s, Lead(refType)), refType) ::
      Free(n.text, free) && (n.textType == Text || n.textType == refType)
  {
    var parts := ReSplit(s, Lead(refType));
    ReSplitFromSlices(s, Lead(refType), 0, 0);
    ClassifyPartsByIndex(parts, refType);
    forall n | n in ClassifyParts(parts, refType) ensures Free(n.text, free) && (n.textType == Text || n.textType == refType) {
      var k :| 0 <= k < |parts| && n == ClassifyPart(parts[k], refType);
      var x: nat, y: nat :| x <= y <= |s| && s[x..y] == parts[k];
      FreeSlice(s, x, y, free);
      ClassifiedPartClean(parts[k], refType, free);
    }
  }

  /**
    * After a reference pass, every node is an input node passed through,
    * or a plain text or reference node free of whatever the plain text of
    * the input was free of.
    */
  lemma {:induction false} ReferencePassCleans(nodes: seq<TextNode>, refType: TextType, free: seq<string>)
    requires forall n | n in nodes && n.textType == Text :: Free(n.text, free)
    ensures forall n | n in SplitAllReferences(nodes, refType) ::
      n in nodes || ((n.textType == Text || n.textType == refType) && Free(n.text, free))
  {
    if nodes != [] {
      var init := nodes[..|nodes| - 1];
      var last := nodes[|nodes| - 1];
      assert forall n | n in init :: n in nodes;
      ReferencePassCleans(init, refType, free);
      if last.textType == Text {
        ReferencePartsClean(last.text, refType, free);
      }
    }
  }

  // ---------------------------------------------------------------------
  // text_to_textnodes
  // ---------------------------------------------------------------------

  /** The five passes in their fixed order: bold, italic, code, images, links. */
  function InlineNodes(text: string): Result<seq<TextNode>, SplitError> {
    match SplitAllDelimiter([TextNode(text, Text, None)], "**", Bold)
    case Err(e) => Err(e)
    case Ok(bold) =>
      match SplitAllDelimiter(bold, "_", Italic)
      case Err(e) => Err(e)
      case Ok(italic) =>
        match SplitAllDelimiter(italic, "`", Code)
        case Err(e) => Err(e)
        case Ok(code) => Ok(SplitAllReferences(SplitAllReferences(code, Image), Link))
  }

  /** `text_to_textnodes`: an unclosed delimiter in any pass is the `Err` it returns. */
  method TextToTextNodes(text: string) returns (r: Result<seq<TextNode>, SplitError>)
    ensures r == InlineNodes(text)
  {
    var nodes := [TextNode(text, Text, None)];
    r := SplitNodesDelimiter(nodes, "**", Bold);
    if r.Err? {
      return;
    }
    r := SplitNodesDelimiter(r.value, "_", Italic);
    if r.Err? {
      return;
    }
    r := SplitNodesDelimiter(r.value, "`", Code);
    if r.Err? {
      return;
    }
    nodes := SplitNodesImage(r.value);
    nodes := SplitNodesLink(nodes);
    r := Ok(nodes);
  }

  /** The delimiters of the three delimiter passes, in order, and the types they make. */
  const Delimiters: seq<string> := ["**", "_", "`"]
  const Formats: seq<TextType> := [Bold, Italic, Code]

  /**
    * What a node may still contain once the first `j` delimiter passes have
    * run: plain text none of their delimiters, a formatted node none of the
    * delimiters up to its own pass; images and links appear only after all
    * three passes.
    */
  predicate CleanAfter(n: TextNode, j: nat)
    requires j <= 3
  {
    match n.textType
    case Text => Free(n.text, Delimiters[..j])
    case Bold => 1 <= j && Free(n.text, Delimiters[..1])
    case Italic => 2 <= j && Free(n.text, Delimiters[..2])
    case Code => 3 <= j && Free(n.text, Delimiters[..3])
    case _ => j == 3 && Free(n.text, Delimiters)
  }

  /** Every node is clean after `j` passes. */
  predicate AllCleanAfter(nodes: seq<TextNode>, j: nat)
    requires j <= 3
  {
    forall n | n in nodes :: CleanAfter(n, j)
  }

  /** Delimiter pass `j` takes nodes clean after `j` passes to nodes clean after `j + 1`. */
  lemma DelimiterStep(nodes: seq<TextNode>, j: nat, delimiter: string, textType: TextType, out: seq<TextNode>, next: nat)
    requires j < 3 && next == j + 1 && delimiter == Delimiters[j] && textType == Formats[j]
    requires AllCleanAfter(nodes, j)
    requires SplitAllDelimiter(nodes, delimiter, textType) == Ok(out)
    ensures AllCleanAfter(out, next)
  {
    DelimiterPassCleans(nodes, delimiter, textType, Delimiters[..j]);
    forall n | n in out
      ensures CleanAfter(n, next)
    {
      NodeStep(n, nodes, j, textType, next);
    }
  }

  /** One node out of delimiter pass `j`: new or split nodes gain its delimiter, passed-through ones stay clean. */
  lemma NodeStep(n: TextNode, nodes: seq<TextNode>, j: nat, textType: TextType, next: nat)
    requires j < 3 && next == j + 1 && textType == Formats[j]
    requires AllCleanAfter(nodes, j)
    requires if n.textType == Text || n.textType == textType then Free(n.text, Delimiters[..j] + [Delimiters[j]]) else n in nodes
    ensures CleanAfter(n, next)
  {
    assert Delimiters[..j] + [Delimiters[j]] == Delimiters[..next];
    assert Delimiters[..3] == Delimiters;
    if n.textType != Text && n.textType != textType {
      assert CleanAfter(n, j);
    }
  }

  /** A reference pass keeps every node clean after the three delimiter passes. */
  lemma ReferenceStep(nodes: seq<TextNode>, refType: TextType)
    requires IsReference(refType)
    requires AllCleanAfter(nodes, 3)
    ensures AllCleanAfter(SplitAllReferences(nodes, refType), 3)
  {
    assert Delimiters[..3] == Delimiters;
    ReferencePassCleans(nodes, refType, Delimiters);
  }

  /** The three delimiter passes of a successful run, and what the reference passes make of them. */
  lemma InlineNodesPasses(text: string) returns (bold: seq<TextNode>, italic: seq<TextNode>, code: seq<TextNode>)
    requires InlineNodes(text).Ok?
    ensures SplitAllDelimiter([TextNode(text, Text, None)], "**", Bold) == Ok(bold)
    ensures SplitAllDelimiter(bold, "_", Italic) == Ok(italic)
    ensures SplitAllDelimiter(italic, "`", Code) == Ok(code)
    ensures InlineNodes(text).value == SplitAllReferences(SplitAllReferences(code, Image), Link)
  {
    bold := SplitAllDelimiter([TextNode(text, Text, None)], "**", Bold).value;
    italic := SplitAllDelimiter(bold, "_", Italic).value;
    code := SplitAllDelimiter(italic, "`", Code).value;
  }

  /** Every node of a successful run of the five passes is clean after all three delimiter passes. */
  lemma InlineNodesCleanAfter(text: string)
    requires InlineNodes(text).Ok?
    ensures AllCleanAfter(InlineNodes(text).value, 3)
  {
    var bold, italic, code := InlineNodesPasses(text);
    var start := [TextNode(text, Text, None)];
    assert AllCleanAfter(start, 0);
    DelimiterStep(start, 0, "**", Bold, bold, 1);
    DelimiterStep(bold, 1, "_", Italic, italic, 2);
    DelimiterStep(italic, 2, "`", Code, code, 3);
    ReferenceStep(code, Image);
    ReferenceStep(SplitAllReferences(code, Image), Link);
  }

  /**
    * The order of the passes decides what each node may still contain: the
    * text of a bold node may hold "_" and "`", which the later passes never
    * touch; italic text may hold "`"; code, plain text, images and links hold
    * none of the three delimiters.
    */
  lemma InlineNodesClean(text: string)
    requires InlineNodes(text).Ok?
    ensures forall n | n in InlineNodes(text).value ::
      match n.textType
      case Bold => Free(n.text, ["**"])
      case Italic => Free(n.text, ["**", "_"])
      case _ => Free(n.text, ["**", "_", "`"])
  {
    InlineNodesCleanAfter(text);
    assert Delimiters[..1] == ["**"] && Delimiters[..2] == ["**", "_"] && Delimiters[..3] == Delimiters;
  }
}
