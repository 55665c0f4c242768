/**
  * The four regular expressions of SSG/src/textnode.py, as deterministic
  * scanners over a string, each tied to the declarative meaning of its
  * pattern by a soundness contract and a completeness lemma.
  *
  * `lead` is "!" for images and "" for links.
  *  - `extract_markdown_*` use `lead\[([^\[\]]*)\]\(([^\(\)]*)\)`: each group
  *    is a run of characters outside a bracket pair, and the character
  *    after the run is forced, so the greedy run is the only candidate.
  *  - `split_nodes_*` use `lead\[(.*?)\]\((.*?)\)`: `.` never crosses a
  *    newline, the alt text stops at the first "](" and the url at the first
  *    ")". When no ")" follows that first "](" on the same line, a longer
  *    alt text cannot help either, since it would end on the same line,
  *    so the match fails.
  */
module MarkdownRegex {
  import opened Wrappers
  import opened PyStr

  /** A match at the start of a text: its two groups and the length of the matched text. */
  datatype RefMatch = RefMatch(alt: string, url: string, len: nat)

  /** The text a match with these groups covers. */
  function RefText(lead: string, alt: string, url: string): string {
    lead + "[" + alt + "](" + url + ")"
  }

  /** `t` starts with `p`. */
  predicate StartsWith(t: string, p: string) {
    |p| <= |t| && t[..|p|] == p
  }

  /** No character of `s` is `a` or `b`. */
  predicate Avoids(s: string, a: char, b: char) {
    forall q | 0 <= q < |s| :: s[q] != a && s[q] != b
  }

  /** The text up to a closing ")" at `p`, with "](" at `a`, reads as a reference with the groups in between. */
  lemma SliceIsRefText(t: string, lead: string, a: nat, p: nat)
    requires |lead| + 1 <= a && a + 2 <= p < |t|
    requires t[..|lead|] == lead && t[|lead|] == '['
    requires t[a] == ']' && t[a + 1] == '(' && t[p] == ')'
    ensures t[..p + 1] == RefText(lead, t[|lead| + 1..a], t[a + 2..p])
  {
    var o := |lead| + 1;
    assert t[..p + 1] == t[..|lead|] + [t[|lead|]] + t[o..a] + t[a..a + 2] + t[a + 2..p] + [t[p]];
  }

  // ---------------------------------------------------------------------
  // Greedy groups: `[^\[\]]*` and `[^\(\)]*`
  // ---------------------------------------------------------------------

  /** End of the longest run from `j` of characters other than `a` and `b`. */
  function RunEnd(t: string, j: nat, a: char, b: char): (e: nat)
    requires j <= |t|
    ensures j <= e <= |t|
    ensures Avoids(t[j..e], a, b)
    ensures e < |t| ==> t[e] == a || t[e] == b
    decreases |t| - j
  {
    if j == |t| || t[j] == a || t[j] == b then j
    else
      var e := RunEnd(t, j + 1, a, b);
      assert forall q | 0 <= q < e - j :: t[j..e][q] == t[j + q];
      e
  }

  lemma {:induction false} RunEndAt(t: string, j: nat, e: nat, a: char, b: char)
    requires j <= e < |t|
    requires Avoids(t[j..e], a, b)
    requires t[e] == a || t[e] == b
    ensures RunEnd(t, j, a, b) == e
    decreases e - j
  {
    if j < e {
      assert t[j] == t[j..e][0];
      assert t[j + 1..e] == t[j..e][1..];
      RunEndAt(t, j + 1, e, a, b);
    }
  }

  /** `re.match(lead + r"\[([^\[\]]*)\]\(([^\(\)]*)\)", t)`. */
  function MatchGreedy(t: string, lead: string): (r: Option<RefMatch>)
    ensures r.Some? ==>
      && StartsWith(t, RefText(lead, r.value.alt, r.value.url))
      && r.value.len == |RefText(lead, r.value.alt, r.value.url)|
      && Avoids(r.value.alt, '[', ']')
      && Avoids(r.value.url, '(', ')')
  {
    var o := |lead| + 1;
    if o <= |t| && t[..|lead|] == lead && t[|lead|] == '[' then
      var a := RunEnd(t, o, '[', ']');
      if a + 1 < |t| && t[a] == ']' && t[a + 1] == '(' then
        var p := RunEnd(t, a + 2, '(', ')');
        if p < |t| && t[p] == ')' then
          var alt, url := t[o..a], t[a + 2..p];
          SliceIsRefText(t, lead, a, p);
          Some(RefMatch(alt, url, p + 1))
        else None
      else None
    else None
  }

  /** Whenever the pattern matches at the start of `t`, the scanner finds exactly those groups. */
  lemma MatchGreedyComplete(t: string, lead: string, alt: string, url: string)
    requires Avoids(alt, '[', ']') && Avoids(url, '(', ')')
    requires StartsWith(t, RefText(lead, alt, url))
    ensures MatchGreedy(t, lead) == Some(RefMatch(alt, url, |RefText(lead, alt, url)|))
  {
    var o := |lead| + 1;
    var a := o + |alt|;
    var p := a + 2 + |url|;
    RefTextPieces(t, lead, alt, url);
    RunEndAt(t, o, a, '[', ']');
    RunEndAt(t, a + 2, p, '(', ')');
    assert |RefText(lead, alt, url)| == p + 1;
    assert MatchGreedy(t, lead) == Some(RefMatch(t[o..a], t[a + 2..p], p + 1));
  }

  /** A text that starts with a reference holds each piece of it at its place. */
  lemma RefTextPieces(t: string, lead: string, alt: string, url: string)
    requires StartsWith(t, RefText(lead, alt, url))
    ensures var o := |lead| + 1; var a := o + |alt|; var p := a + 2 + |url|;
      && p < |t|
      && t[..|lead|] == lead && t[|lead|] == '['
      && t[o..a] == alt && t[a] == ']' && t[a + 1] == '('
      && t[a + 2..p] == url && t[p] == ')'
      && (forall q | o <= q < a :: t[q] == alt[q - o])
      && (forall q | a + 2 <= q < p :: t[q] == url[q - a - 2])
  {
    var o := |lead| + 1;
    var a := o + |alt|;
    var p := a + 2 + |url|;
    var m := RefText(lead, alt, url);
    assert m == lead + ['['] + alt + [']', '('] + url + [')'];
    assert |m| == p + 1;
    assert t[..|m|] == m;
    assert forall q | 0 <= q < |m| :: t[q] == m[q] by {
      forall q | 0 <= q < |m| ensures t[q] == m[q] {
        assert t[..|m|][q] == t[q];
      }
    }
    assert t[..|lead|] == lead by {
      forall q | 0 <= q < |lead| ensures t[q] == lead[q] {
        assert m[q] == lead[q];
      }
    }
    assert m[|lead|] == '[' && m[a] == ']' && m[a + 1] == '(' && m[p] == ')';
    forall q | o <= q < a ensures t[q] == alt[q - o] {
      assert m[q] == alt[q - o];
    }
    forall q | a + 2 <= q < p ensures t[q] == url[q - a - 2] {
      assert m[q] == url[q - a - 2];
    }
    assert t[o..a] == alt;
    assert t[a + 2..p] == url;
  }

  // ---------------------------------------------------------------------
  // Lazy groups: `(.*?)\]\(` and `(.*?)\)`
  // ---------------------------------------------------------------------

  /** Neither a newline nor the pair "](" occurs in an alt text taken lazily. */
  predicate LazyAlt(alt: string) {
    && (forall q | 0 <= q < |alt| :: alt[q] != '\n')
    && (forall q | 0 <= q < |alt| - 1 :: !(alt[q] == ']' && alt[q + 1] == '('))
  }

  /** Neither a newline nor ")" occurs in a url taken lazily. */
  predicate LazyUrl(url: string) {
    forall q | 0 <= q < |url| :: url[q] != '\n' && url[q] != ')'
  }

  /** `(.*?)\]\(` from index `j`: the first "](" reached without crossing a newline. */
  function FindAltEnd(t: string, j: nat): (r: Option<nat>)
    ensures r.Some? ==> j <= r.value && r.value + 2 <= |t| && t[r.value] == ']' && t[r.value + 1] == '('
    decreases |t| - j
  {
    if |t| < j + 2 then None
    else if t[j] == ']' && t[j + 1] == '(' then Some(j)
    else if t[j] == '\n' then None
    else FindAltEnd(t, j + 1)
  }

  /** `(.*?)\)` from index `j`: the first ")" reached without crossing a newline. */
  function FindParen(t: string, j: nat): (r: Option<nat>)
    ensures r.Some? ==> j <= r.value < |t| && t[r.value] == ')'
    decreases |t| - j
  {
    if |t| <= j then None
    else if t[j] == ')' then Some(j)
    else if t[j] == '\n' then None
    else FindParen(t, j + 1)
  }

  /**
    * Where the lazy pattern's groups end when it is tried at the start of
    * `t`: `a` is the index of the "](" after the alt text, `p` the index of
    * the closing ")".
    */
  function LazyBounds(t: string, lead: string): (r: Option<(nat, nat)>)
    ensures r.Some? ==> |lead| + 1 <= r.value.0 && r.value.0 + 2 <= r.value.1 < |t|
  {
    var o := |lead| + 1;
    if o <= |t| && t[..|lead|] == lead && t[|lead|] == '[' then
      match FindAltEnd(t, o)
      case None => None
      case Some(a) =>
        match FindParen(t, a + 2)
        case None => None
        case Some(p) => Some((a, p))
    else None
  }

  /** The alt-text search passes over no newline and no earlier "](". */
  lemma {:induction false} FindAltEndScanned(t: string, j: nat)
    requires FindAltEnd(t, j).Some?
    ensures forall q | j <= q < FindAltEnd(t, j).value :: t[q] != '\n' && !(t[q] == ']' && t[q + 1] == '(')
    decreases |t| - j
  {
    if FindAltEnd(t, j).value > j {
      FindAltEndScanned(t, j + 1);
    }
  }

  /** The url search passes over no newline and no earlier ")". */
  lemma {:induction false} FindParenScanned(t: string, j: nat)
    requires FindParen(t, j).Some?
    ensures forall q | j <= q < FindParen(t, j).value :: t[q] != '\n' && t[q] != ')'
    decreases |t| - j
  {
    if FindParen(t, j).value > j {
      FindParenScanned(t, j + 1);
    }
  }

  /** What the lazy pattern has read when it matches: the lead, "[", the alt text, "](", the url and ")". */
  lemma LazyBoundsShape(t: string, lead: string)
    requires LazyBounds(t, lead).Some?
    ensures var (a, p) := LazyBounds(t, lead).value;
      && t[..|lead|] == lead && t[|lead|] == '['
      && t[a] == ']' && t[a + 1] == '(' && t[p] == ')'
      && (forall q | |lead| + 1 <= q < a :: t[q] != '\n' && !(t[q] == ']' && t[q + 1] == '('))
      && (forall q | a + 2 <= q < p :: t[q] != '\n' && t[q] != ')')
  {
    var a := FindAltEnd(t, |lead| + 1).value;
    FindAltEndScanned(t, |lead| + 1);
    FindParenScanned(t, a + 2);
  }

  /** `re.match(lead + r"\[(.*?)\]\((.*?)\)", t)`. */
  function MatchLazy(t: string, lead: string): (r: Option<RefMatch>)
    ensures r.Some? ==>
      && StartsWith(t, RefText(lead, r.value.alt, r.value.url))
      && r.value.len == |RefText(lead, r.value.alt, r.value.url)|
      && LazyAlt(r.value.alt)
      && LazyUrl(r.value.url)
  {
    match LazyBounds(t, lead)
    case None => None
    case Some((a, p)) =>
      LazyBoundsShape(t, lead);
      var o := |lead| + 1;
      var alt, url := t[o..a], t[a + 2..p];
      SliceIsRefText(t, lead, a, p);
      assert forall q | 0 <= q < |alt| :: alt[q] == t[o + q];
      assert forall q | 0 <= q < |url| :: url[q] == t[a + 2 + q];
      Some(RefMatch(alt, url, p + 1))
  }

  lemma {:induction false} FindAltEndAt(t: string, j: nat, a: nat)
    requires j <= a && a + 2 <= |t| && t[a] == ']' && t[a + 1] == '('
    requires forall q | j <= q < a :: t[q] != '\n' && !(t[q] == ']' && t[q + 1] == '(')
    ensures FindAltEnd(t, j) == Some(a)
    decreases a - j
  {
    if j < a {
      FindAltEndAt(t, j + 1, a);
    }
  }

  lemma {:induction false} FindParenAt(t: string, j: nat, p: nat)
    requires j <= p < |t| && t[p] == ')'
    requires forall q | j <= q < p :: t[q] != '\n' && t[q] != ')'
    ensures FindParen(t, j) == Some(p)
    decreases p - j
  {
    if j < p {
      FindParenAt(t, j + 1, p);
    }
  }

  /** Whenever the lazy pattern's leftmost reading starts `t`, the scanner finds exactly those groups. */
  lemma MatchLazyComplete(t: string, lead: string, alt: string, url: string)
    requires LazyAlt(alt) && LazyUrl(url)
    requires StartsWith(t, RefText(lead, alt, url))
    ensures MatchLazy(t, lead) == Some(RefMatch(alt, url, |RefText(lead, alt, url)|))
  {
    var o := |lead| + 1;
    var a := o + |alt|;
    var p := a + 2 + |url|;
    RefTextPieces(t, lead, alt, url);
    forall q | o <= q < a ensures t[q] != '\n' && !(t[q] == ']' && t[q + 1] == '(') {
      if q + 1 < a {
        assert t[q + 1] == alt[q + 1 - o];
      }
    }
    FindAltEndAt(t, o, a);
    FindParenAt(t, a + 2, p);
    assert LazyBounds(t, lead) == Some((a, p));
    assert |RefText(lead, alt, url)| == p + 1;
    assert MatchLazy(t, lead) == Some(RefMatch(t[o..a], t[a + 2..p], p + 1));
  }

  /** The alt-text search only looks ahead: cutting the text after its result does not change it. */
  lemma {:induction false} FindAltEndPrefix(t: string, k: nat, j: nat)
    requires k <= |t|
    ensures FindAltEnd(t[..k], j).Some? ==> FindAltEnd(t, j) == FindAltEnd(t[..k], j)
    ensures FindAltEnd(t, j).Some? && FindAltEnd(t, j).value + 2 <= k ==> FindAltEnd(t[..k], j) == FindAltEnd(t, j)
    decreases |t| - j
  {
    if j + 2 <= k {
      assert t[..k][j] == t[j] && t[..k][j + 1] == t[j + 1];
      FindAltEndPrefix(t, k, j + 1);
    } else if j + 2 <= |t| {
      FindAltEndPrefix(t, k, j + 1);
    }
  }

  lemma {:induction false} FindParenPrefix(t: string, k: nat, j: nat)
    requires k <= |t|
    ensures FindParen(t[..k], j).Some? ==> FindParen(t, j) == FindParen(t[..k], j)
    ensures FindParen(t, j).Some? && FindParen(t, j).value < k ==> FindParen(t[..k], j) == FindParen(t, j)
    decreases |t| - j
  {
    if j < k {
      assert t[..k][j] == t[j];
      FindParenPrefix(t, k, j + 1);
    } else if j < |t| {
      FindParenPrefix(t, k, j + 1);
    }
  }

  lemma LazyBoundsOfPrefix(t: string, lead: string, k: nat)
    requires k <= |t|
    requires LazyBounds(t[..k], lead).Some?
    ensures LazyBounds(t, lead) == LazyBounds(t[..k], lead)
  {
    var o := |lead| + 1;
    var u := t[..k];
    assert u[..|lead|] == t[..|lead|] && u[|lead|] == t[|lead|];
    var a := FindAltEnd(u, o).value;
    FindAltEndPrefix(t, k, o);
    FindParenPrefix(t, k, a + 2);
  }

  lemma LazyBoundsInPrefix(t: string, lead: string, k: nat)
    requires k <= |t|
    requires LazyBounds(t, lead).Some? && LazyBounds(t, lead).value.1 < k
    ensures LazyBounds(t[..k], lead) == LazyBounds(t, lead)
  {
    var o := |lead| + 1;
    var u := t[..k];
    var a := FindAltEnd(t, o).value;
    assert u[..|lead|] == t[..|lead|] && u[|lead|] == t[|lead|];
    FindAltEndPrefix(t, k, o);
    FindParenPrefix(t, k, a + 2);
  }

  /** A match found in a prefix of `t` is a match of `t`. */
  lemma MatchLazyOfPrefix(t: string, lead: string, k: nat)
    requires k <= |t|
    requires MatchLazy(t[..k], lead).Some?
    ensures MatchLazy(t, lead) == MatchLazy(t[..k], lead)
  {
    LazyBoundsOfPrefix(t, lead, k);
    var (a, p) := LazyBounds(t, lead).value;
    var o := |lead| + 1;
    assert t[..k][o..a] == t[o..a];
    assert t[..k][a + 2..p] == t[a + 2..p];
  }

  /** A match of `t` that ends inside a prefix is a match of the prefix. */
  lemma MatchLazyInPrefix(t: string, lead: string, k: nat)
    requires k <= |t|
    requires MatchLazy(t, lead).Some? && MatchLazy(t, lead).value.len <= k
    ensures MatchLazy(t[..k], lead) == MatchLazy(t, lead)
  {
    var (a, p) := LazyBounds(t, lead).value;
    LazyBoundsInPrefix(t, lead, k);
    var o := |lead| + 1;
    assert t[..k][o..a] == t[o..a];
    assert t[..k][a + 2..p] == t[a + 2..p];
  }

  // ---------------------------------------------------------------------
  // re.split with the lazy pattern as its one capturing group
  // ---------------------------------------------------------------------

  /** The length of the text the lazy pattern matches at the start of `t`, if it matches. */
  function MatchLen(t: string, lead: string): (r: Option<nat>)
    ensures r.Some? ==> |lead| + 4 <= r.value <= |t|
  {
    match LazyBounds(t, lead)
    case None => None
    case Some((a, p)) => Some(p + 1)
  }

  /** `MatchLen` is the length of the match `re.match` returns. */
  lemma MatchLenOfMatch(t: string, lead: string)
    ensures MatchLen(t, lead).None? <==> MatchLazy(t, lead).None?
    ensures MatchLen(t, lead).Some? ==> MatchLen(t, lead).value == MatchLazy(t, lead).value.len
  {
  }

  /**
    * `re.split` from index `i`, the current text part having started at
    * `start`: at each index the pattern is tried; a match closes the text
    * part and adds the matched text as a part of its own.
    */
  function ReSplitFrom(s: string, lead: string, start: nat, i: nat): seq<string>
    requires start <= i <= |s|
    decreases |s| - i
  {
    if i == |s| then [s[start..]]
    else match MatchLen(s[i..], lead)
      case Some(n) => [s[start..i], s[i..i + n]] + ReSplitFrom(s, lead, i + n, i + n)
      case None => ReSplitFrom(s, lead, start, i + 1)
  }

  /** `re.split(r"(" + lead + r"\[.*?\]\(.*?\))", s)`. */
  function ReSplit(s: string, lead: string): seq<string> {
    ReSplitFrom(s, lead, 0, 0)
  }

  /** The parts of the scan from `i`, where the open text part started at `start`, join back to the rest of `s`. */
  lemma {:induction false} ReSplitFromConcat(s: string, lead: string, start: nat, i: nat)
    requires start <= i <= |s|
    ensures Concat(ReSplitFrom(s, lead, start, i)) == s[start..]
    decreases |s| - i
  {
    var parts := ReSplitFrom(s, lead, start, i);
    if i == |s| {
      assert parts == [s[start..]];
      assert Concat(parts) == s[start..] + Concat([]);
    } else {
      match MatchLen(s[i..], lead)
      case Some(n) => {
        var j := i + n;
        var rest := ReSplitFrom(s, lead, j, j);
        assert parts == [s[start..i], s[i..j]] + rest;
        ReSplitFromConcat(s, lead, j, j);
        ConcatPair(s[start..i], s[i..j], rest);
        assert s[start..] == s[start..i] + (s[i..j] + s[j..]);
      }
      case None => {
        assert parts == ReSplitFrom(s, lead, start, i + 1);
        ReSplitFromConcat(s, lead, start, i + 1);
      }
    }
  }

  lemma ConcatPair(a: string, b: string, rest: seq<string>)
    ensures Concat([a, b] + rest) == a + (b + Concat(rest))
  {
    assert ([a, b] + rest)[1..] == [b] + rest;
    assert ([b] + rest)[1..] == rest;
  }

  /** A text part of a split: the pattern does not match at its start. */
  predicate TextPart(x: string, lead: string) {
    MatchLen(x, lead).None?
  }

  /** A matched part of a split: the pattern matches all of it. */
  predicate WholeMatch(x: string, lead: string) {
    MatchLen(x, lead) == Some(|x|)
  }

  /** Text parts and matched parts alternate, starting and ending with a text part. */
  predicate Alternates(parts: seq<string>, lead: string)
    decreases |parts|
  {
    && |parts| >= 1
    && TextPart(parts[0], lead)
    && (|parts| == 1 || (|parts| >= 3 && WholeMatch(parts[1], lead) && Alternates(parts[2..], lead)))
  }

  lemma AlternatesCons(x: string, y: string, rest: seq<string>, lead: string)
    requires TextPart(x, lead) && WholeMatch(y, lead) && Alternates(rest, lead)
    ensures Alternates([x, y] + rest, lead)
  {
    assert ([x, y] + rest)[2..] == rest;
  }

  /** Read by position: even parts are text parts and odd parts are matched parts. */
  lemma {:induction false} AlternatesByIndex(parts: seq<string>, lead: string)
    requires Alternates(parts, lead)
    ensures |parts| % 2 == 1
    ensures forall k | 0 <= k < |parts| :: if k % 2 == 0 then TextPart(parts[k], lead) else WholeMatch(parts[k], lead)
    decreases |parts|
  {
    if |parts| > 1 {
      var rest := parts[2..];
      AlternatesByIndex(rest, lead);
      forall k | 2 <= k < |parts| ensures if k % 2 == 0 then TextPart(parts[k], lead) else WholeMatch(parts[k], lead) {
        assert parts[k] == rest[k - 2];
        assert k % 2 == (k - 2) % 2;
      }
    }
  }

  /**
    * The scan from `i` with a text part open since `start`, where no match
    * starts at `start` unless `start == i`, yields alternating parts.
    */
  lemma {:induction false} ReSplitFromAlternates(s: string, lead: string, start: nat, i: nat)
    requires start <= i <= |s|
    requires start < i ==> MatchLen(s[start..], lead).None?
    ensures Alternates(ReSplitFrom(s, lead, start, i), lead)
    decreases |s| - i
  {
    if i == |s| {
      TextPartHasNoMatch(s, lead, start, i);
      assert s[start..i] == s[start..];
    } else if MatchLen(s[i..], lead).Some? {
      TextPartHasNoMatch(s, lead, start, i);
      var j := i + MatchLen(s[i..], lead).value;
      ReSplitFromAlternates(s, lead, j, j);
      AlternatesAfterMatch(s, lead, start, i, j);
    } else {
      assert ReSplitFrom(s, lead, start, i) == ReSplitFrom(s, lead, start, i + 1);
      ReSplitFromAlternates(s, lead, start, i + 1);
    }
  }

  lemma AlternatesAfterMatch(s: string, lead: string, start: nat, i: nat, j: nat)
    requires start <= i < j <= |s|
    requires MatchLen(s[start..i], lead).None?
    requires MatchLen(s[i..], lead) == Some(j - i)
    requires Alternates(ReSplitFrom(s, lead, j, j), lead)
    ensures Alternates(ReSplitFrom(s, lead, start, i), lead)
  {
    var rest := ReSplitFrom(s, lead, j, j);
    ReSplitFromAtMatch(s, lead, start, i, j);
    MatchedPartIsWhole(s, lead, i);
    AlternatesCons(s[start..i], s[i..j], rest, lead);
  }

  lemma ReSplitFromAtMatch(s: string, lead: string, start: nat, i: nat, j: nat)
    requires start <= i < j <= |s|
    requires MatchLen(s[i..], lead) == Some(j - i)
    ensures ReSplitFrom(s, lead, start, i) == [s[start..i], s[i..j]] + ReSplitFrom(s, lead, j, j)
  {
  }

  /** The text of a match found at `i` is, on its own, one whole match. */
  lemma MatchedPartIsWhole(s: string, lead: string, i: nat)
    requires i <= |s|
    requires MatchLen(s[i..], lead).Some?
    ensures var j := i + MatchLen(s[i..], lead).value;
      j <= |s| && MatchLen(s[i..j], lead) == Some(j - i)
  {
    var n := MatchLen(s[i..], lead).value;
    assert s[i..i + n] == s[i..][..n];
    LazyBoundsInPrefix(s[i..], lead, n);
  }

  /** A text part closed at `i` does not itself start with a match. */
  lemma TextPartHasNoMatch(s: string, lead: string, start: nat, i: nat)
    requires start <= i <= |s|
    requires start < i ==> MatchLen(s[start..], lead).None?
    ensures MatchLen(s[start..i], lead).None?
  {
    if start < i {
      assert s[start..i] == s[start..][..i - start];
      if LazyBounds(s[start..i], lead).Some? {
        LazyBoundsOfPrefix(s[start..], lead, i - start);
      }
    }
  }

  /**
    * The parts of `re.split` alternate: text parts at even indices, which
    * `re.match` rejects, and matched parts at odd indices, which `re.match`
    * accepts whole; together they give back `s`.
    */
  lemma ReSplitShape(s: string, lead: string)
    ensures |ReSplit(s, lead)| % 2 == 1
    ensures Concat(ReSplit(s, lead)) == s
    ensures Alternates(ReSplit(s, lead), lead)
  {
    ReSplitFromConcat(s, lead, 0, 0);
    ReSplitFromAlternates(s, lead, 0, 0);
    AlternatesByIndex(ReSplit(s, lead), lead);
  }

  /** Every part of `re.split` is a slice of `s`. */
  lemma {:induction false} ReSplitFromSlices(s: string, lead: string, start: nat, i: nat)
    requires start <= i <= |s|
    ensures forall k | 0 <= k < |ReSplitFrom(s, lead, start, i)| ::
      exists x: nat, y: nat | x <= y <= |s| :: s[x..y] == ReSplitFrom(s, lead, start, i)[k]
    decreases |s| - i
  {
    var parts := ReSplitFrom(s, lead, start, i);
    if i == |s| {
      assert parts[0] == s[start..|s|];
    } else {
      match MatchLen(s[i..], lead)
      case Some(n) => {
        var j := i + n;
        var rest := ReSplitFrom(s, lead, j, j);
        ReSplitFromSlices(s, lead, j, j);
        forall k | 0 <= k < |parts| ensures exists x: nat, y: nat | x <= y <= |s| :: s[x..y] == parts[k] {
          if k == 0 {
            assert s[start..i] == parts[k];
          } else if k == 1 {
            assert s[i..j] == parts[k];
          } else {
            assert parts[k] == rest[k - 2];
          }
        }
      }
      case None => {
        ReSplitFromSlices(s, lead, start, i + 1);
      }
    }
  }

  // ---------------------------------------------------------------------
  // re.findall with the greedy pattern
  // ---------------------------------------------------------------------

  /** A match reported by `findall`, with its position in the text. */
  datatype Hit = Hit(pos: nat, alt: string, url: string, len: nat)

  /**
    * The links pattern starts with the negative lookbehind `(?<!!)`: a
    * match may not start right after a '!'.
    */
  predicate MayStartAt(s: string, i: nat, lookbehind: bool)
    requires i <= |s|
  {
    !lookbehind || i == 0 || s[i - 1] != '!'
  }

  /** A match of the greedy pattern starts at index `p` of `s`. */
  predicate MatchesAt(s: string, lead: string, lookbehind: bool, p: nat)
    requires p <= |s|
  {
    MayStartAt(s, p, lookbehind) && MatchGreedy(s[p..], lead).Some?
  }

  /** `h` is a match of the greedy pattern in `s`: its text sits at `h.pos`, with groups free of brackets and parentheses. */
  predicate HitFound(s: string, lead: string, lookbehind: bool, h: Hit) {
    && h.pos + h.len <= |s|
    && MayStartAt(s, h.pos, lookbehind)
    && s[h.pos..h.pos + h.len] == RefText(lead, h.alt, h.url)
    && Avoids(h.alt, '[', ']')
    && Avoids(h.url, '(', ')')
  }

  /** What `findall` gets when it tries the pattern at index `p`: the match there, or nothing. */
  function MatchAt(s: string, lead: string, lookbehind: bool, p: nat): Option<RefMatch>
    requires p <= |s|
  {
    if MayStartAt(s, p, lookbehind) then MatchGreedy(s[p..], lead) else None
  }

  /**
    * Attempts that a left-to-right scan can step over: every match is
    * non-empty and ends inside the text, so no match starts at the end.
    */
  predicate Steppable(ms: seq<Option<RefMatch>>) {
    forall p | 0 <= p < |ms| :: ms[p].Some? ==> 0 < ms[p].value.len && p + ms[p].value.len < |ms|
  }

  /** The attempts of `findall` at every index of `s`, the end included. */
  function Attempts(s: string, lead: string, lookbehind: bool): (ms: seq<Option<RefMatch>>)
    ensures |ms| == |s| + 1
    ensures Steppable(ms)
    ensures forall p | 0 <= p <= |s| :: ms[p] == MatchAt(s, lead, lookbehind, p)
  {
    var ms := seq(|s| + 1, p requires 0 <= p <= |s| => MatchAt(s, lead, lookbehind, p));
    forall p | 0 <= p < |ms| && ms[p].Some? ensures 0 < ms[p].value.len && p + ms[p].value.len < |ms| {
      var m := ms[p].value;
      assert |RefText(lead, m.alt, m.url)| >= 4;
    }
    ms
  }

  /** The scan over the attempts from index `i`: after a match it resumes where the match ended. */
  function Scan(ms: seq<Option<RefMatch>>, i: nat): seq<Hit>
    requires Steppable(ms) && i < |ms|
    decreases |ms| - i
  {
    if i == |ms| - 1 then []
    else match ms[i]
      case Some(m) => [Hit(i, m.alt, m.url, m.len)] + Scan(ms, i + m.len)
      case None => Scan(ms, i + 1)
  }

  /** The scan of `re.findall` over `s` from index `i`. */
  function FindAllFrom(s: string, lead: string, lookbehind: bool, i: nat): seq<Hit>
    requires i <= |s|
  {
    Scan(Attempts(s, lead, lookbehind), i)
  }

  /** The attempt at the position of `h` matched, with the groups and length of `h`. */
  predicate Attempted(ms: seq<Option<RefMatch>>, h: Hit) {
    h.pos < |ms| && ms[h.pos] == Some(RefMatch(h.alt, h.url, h.len))
  }

  /** Every hit lies at or after `i` and is an attempt that matched there. */
  predicate AllAttempted(ms: seq<Option<RefMatch>>, i: nat, hits: seq<Hit>) {
    forall k | 0 <= k < |hits| :: i <= hits[k].pos && Attempted(ms, hits[k])
  }

  /** Each hit ends at or before the start of the next: the hits are in order and do not overlap. */
  predicate Ordered(hits: seq<Hit>) {
    forall k | 0 <= k < |hits| - 1 :: hits[k].pos + hits[k].len <= hits[k + 1].pos
  }

  /** Every hit of the scan is an attempt that matched there, in order and without overlap. */
  lemma {:induction false} ScanSound(ms: seq<Option<RefMatch>>, i: nat)
    requires Steppable(ms) && i < |ms|
    ensures AllAttempted(ms, i, Scan(ms, i)) && Ordered(Scan(ms, i))
    decreases |ms| - i
  {
    if i < |ms| - 1 {
      var hits := Scan(ms, i);
      if ms[i].Some? {
        var m := ms[i].value;
        var rest := Scan(ms, i + m.len);
        ScanSound(ms, i + m.len);
        assert hits == [Hit(i, m.alt, m.url, m.len)] + rest;
        forall k | 0 <= k < |hits|
          ensures i <= hits[k].pos && Attempted(ms, hits[k])
        {
          if k > 0 { assert hits[k] == rest[k - 1]; }
        }
        forall k | 0 <= k < |hits| - 1 ensures hits[k].pos + hits[k].len <= hits[k + 1].pos {
          if k > 0 { assert hits[k] == rest[k - 1] && hits[k + 1] == rest[k]; }
          else if rest != [] { assert hits[1] == rest[0]; }
        }
      } else {
        assert hits == Scan(ms, i + 1);
        ScanSound(ms, i + 1);
        var rest := Scan(ms, i + 1);
        assert forall k | 0 <= k < |rest| :: i + 1 <= rest[k].pos;
      }
    }
  }

  /** No attempt from `a` up to (not including) `b` matched. */
  predicate Idle(ms: seq<Option<RefMatch>>, a: nat, b: nat) {
    forall p | a <= p < b && p < |ms| :: ms[p].None?
  }

  /** The scan finds nothing exactly when no attempt from `i` on matched. */
  lemma {:induction false} ScanEmpty(ms: seq<Option<RefMatch>>, i: nat)
    requires Steppable(ms) && i < |ms|
    ensures Scan(ms, i) == [] <==> Idle(ms, i, |ms|)
    decreases |ms| - i
  {
    if i < |ms| - 1 && ms[i].None? {
      ScanEmpty(ms, i + 1);
    }
  }

  /** Before the first hit of the scan no attempt matched. */
  lemma {:induction false} ScanNoneBefore(ms: seq<Option<RefMatch>>, i: nat)
    requires Steppable(ms) && i < |ms|
    ensures var hits := Scan(ms, i); hits != [] ==> Idle(ms, i, hits[0].pos)
    decreases |ms| - i
  {
    if i < |ms| - 1 && ms[i].None? {
      ScanNoneBefore(ms, i + 1);
    }
  }

  /** No attempt matched between the end of one hit and the start of the next. */
  predicate GapsIdle(ms: seq<Option<RefMatch>>, hits: seq<Hit>) {
    forall k | 0 <= k < |hits| - 1 :: Idle(ms, hits[k].pos + hits[k].len, hits[k + 1].pos)
  }

  /** Between the end of one hit of the scan and the start of the next no attempt matched. */
  lemma {:induction false} ScanNoneBetween(ms: seq<Option<RefMatch>>, i: nat)
    requires Steppable(ms) && i < |ms|
    ensures GapsIdle(ms, Scan(ms, i))
    decreases |ms| - i
  {
    if i < |ms| - 1 {
      var hits := Scan(ms, i);
      match ms[i]
      case Some(m) =>
        var rest := Scan(ms, i + m.len);
        ScanNoneBetween(ms, i + m.len);
        ScanNoneBefore(ms, i + m.len);
        assert hits == [Hit(i, m.alt, m.url, m.len)] + rest;
        forall k | 0 <= k < |hits| - 1 ensures Idle(ms, hits[k].pos + hits[k].len, hits[k + 1].pos) {
          if k > 0 { assert hits[k] == rest[k - 1] && hits[k + 1] == rest[k]; }
        }
      case None =>
        ScanNoneBetween(ms, i + 1);
    }
  }

  /** After the end of the last hit of the scan no attempt matched. */
  lemma {:induction false} ScanNoneAfter(ms: seq<Option<RefMatch>>, i: nat)
    requires Steppable(ms) && i < |ms|
    ensures var hits := Scan(ms, i);
      hits != [] ==> Idle(ms, hits[|hits| - 1].pos + hits[|hits| - 1].len, |ms|)
    decreases |ms| - i
  {
    if i < |ms| - 1 {
      var hits := Scan(ms, i);
      match ms[i]
      case Some(m) =>
        var rest := Scan(ms, i + m.len);
        assert hits == [Hit(i, m.alt, m.url, m.len)] + rest;
        if rest == [] {
          ScanEmpty(ms, i + m.len);
        } else {
          ScanNoneAfter(ms, i + m.len);
          assert hits[|hits| - 1] == rest[|rest| - 1];
        }
      case None =>
        ScanNoneAfter(ms, i + 1);
    }
  }

  /** A matched attempt is a match of the pattern in `s` at that index. */
  lemma AttemptFound(s: string, lead: string, lookbehind: bool, h: Hit)
    requires h.pos <= |s| && MatchAt(s, lead, lookbehind, h.pos) == Some(RefMatch(h.alt, h.url, h.len))
    ensures HitFound(s, lead, lookbehind, h)
  {
    var t := s[h.pos..];
    assert s[h.pos..h.pos + h.len] == t[..h.len];
  }

  /** Every hit lies at or after `i` and is a match of the pattern in `s`. */
  predicate AllFound(s: string, lead: string, lookbehind: bool, i: nat, hits: seq<Hit>) {
    forall k | 0 <= k < |hits| :: i <= hits[k].pos && HitFound(s, lead, lookbehind, hits[k])
  }

  /** Every hit of `findall` is a match of the pattern at its position, in order and without overlap. */
  lemma FindAllSound(s: string, lead: string, lookbehind: bool, i: nat)
    requires i <= |s|
    ensures AllFound(s, lead, lookbehind, i, FindAllFrom(s, lead, lookbehind, i))
    ensures Ordered(FindAllFrom(s, lead, lookbehind, i))
  {
    var ms := Attempts(s, lead, lookbehind);
    var hits := Scan(ms, i);
    ScanSound(ms, i);
    forall k | 0 <= k < |hits| ensures HitFound(s, lead, lookbehind, hits[k]) {
      AttemptFound(s, lead, lookbehind, hits[k]);
    }
  }

  /** The pattern matches at `p` exactly when the attempt there matched. */
  lemma MatchesAtAttempt(s: string, lead: string, lookbehind: bool, p: nat)
    requires p <= |s|
    ensures MatchesAt(s, lead, lookbehind, p) <==> Attempts(s, lead, lookbehind)[p].Some?
  {
  }

  /** The pattern matches nowhere at the indices from `a` up to (not including) `b`. */
  predicate NoMatchIn(s: string, lead: string, lookbehind: bool, a: nat, b: nat) {
    forall p: nat | a <= p < b && p <= |s| :: !MatchesAt(s, lead, lookbehind, p)
  }

  /** Where no attempt matched, the pattern matches nowhere. */
  lemma IdleNoMatch(s: string, lead: string, lookbehind: bool, a: nat, b: nat)
    requires Idle(Attempts(s, lead, lookbehind), a, b)
    ensures NoMatchIn(s, lead, lookbehind, a, b)
  {
    forall p: nat | a <= p < b && p <= |s| ensures !MatchesAt(s, lead, lookbehind, p) {
      MatchesAtAttempt(s, lead, lookbehind, p);
    }
  }

  /** `findall` finds nothing exactly when the pattern matches nowhere from `i` on. */
  lemma FindAllEmpty(s: string, lead: string, lookbehind: bool, i: nat)
    requires i <= |s|
    ensures FindAllFrom(s, lead, lookbehind, i) == [] <==> NoMatchIn(s, lead, lookbehind, i, |s| + 1)
  {
    var ms := Attempts(s, lead, lookbehind);
    ScanEmpty(ms, i);
    if Scan(ms, i) == [] {
      IdleNoMatch(s, lead, lookbehind, i, |s| + 1);
    } else {
      var p :| i <= p < |ms| && ms[p].Some?;
      MatchesAtAttempt(s, lead, lookbehind, p);
    }
  }

  /** `findall` from `i` with a match at `i` reports it and goes on where it ends. */
  lemma FindAllAtMatch(s: string, lead: string, lookbehind: bool, i: nat)
    requires i < |s| && MatchesAt(s, lead, lookbehind, i)
    ensures var m := MatchGreedy(s[i..], lead).value;
      && i < i + m.len <= |s|
      && FindAllFrom(s, lead, lookbehind, i) == [Hit(i, m.alt, m.url, m.len)] + FindAllFrom(s, lead, lookbehind, i + m.len)
  {
    var ms := Attempts(s, lead, lookbehind);
    assert ms[i] == MatchGreedy(s[i..], lead);
  }

  /** `findall` reports nothing before the first match it finds: the pattern matches nowhere there. */
  lemma FindAllNoneBefore(s: string, lead: string, lookbehind: bool, i: nat)
    requires i <= |s|
    ensures var hits := FindAllFrom(s, lead, lookbehind, i);
      hits != [] ==> NoMatchIn(s, lead, lookbehind, i, hits[0].pos)
  {
    var ms := Attempts(s, lead, lookbehind);
    var hits := Scan(ms, i);
    ScanNoneBefore(ms, i);
    if hits != [] {
      IdleNoMatch(s, lead, lookbehind, i, hits[0].pos);
    }
  }

  /** The pattern matches nowhere between the end of one hit and the start of the next. */
  predicate NoMatchBetween(s: string, lead: string, lookbehind: bool, hits: seq<Hit>) {
    forall k | 0 <= k < |hits| - 1 :: NoMatchIn(s, lead, lookbehind, hits[k].pos + hits[k].len, hits[k + 1].pos)
  }

  /** The pattern matches nowhere between the end of one hit of `findall` and the start of the next. */
  lemma FindAllNoneBetween(s: string, lead: string, lookbehind: bool, i: nat)
    requires i <= |s|
    ensures NoMatchBetween(s, lead, lookbehind, FindAllFrom(s, lead, lookbehind, i))
  {
    var ms := Attempts(s, lead, lookbehind);
    var hits := Scan(ms, i);
    ScanNoneBetween(ms, i);
    forall k | 0 <= k < |hits| - 1
      ensures NoMatchIn(s, lead, lookbehind, hits[k].pos + hits[k].len, hits[k + 1].pos)
    {
      IdleNoMatch(s, lead, lookbehind, hits[k].pos + hits[k].len, hits[k + 1].pos);
    }
  }

  /** The pattern matches nowhere after the end of the last hit. */
  predicate NoMatchAfter(s: string, lead: string, lookbehind: bool, hits: seq<Hit>) {
    hits != [] ==> NoMatchIn(s, lead, lookbehind, hits[|hits| - 1].pos + hits[|hits| - 1].len, |s| + 1)
  }

  /** The pattern matches nowhere after the end of the last hit of `findall`. */
  lemma FindAllNoneAfter(s: string, lead: string, lookbehind: bool, i: nat)
    requires i <= |s|
    ensures NoMatchAfter(s, lead, lookbehind, FindAllFrom(s, lead, lookbehind, i))
  {
    var ms := Attempts(s, lead, lookbehind);
    var hits := Scan(ms, i);
    ScanNoneAfter(ms, i);
    if hits != [] {
      IdleNoMatch(s, lead, lookbehind, hits[|hits| - 1].pos + hits[|hits| - 1].len, |s| + 1);
    }
  }

  /** `re.findall(r"!\[([^\[\]]*)\]\(([^\(\)]*)\)", s)`, with positions. */
  function ImageHits(s: string): seq<Hit> {
    FindAllFrom(s, "!", false, 0)
  }

  /** `re.findall(r"(?<!!)\[([^\[\]]*)\]\(([^\(\)]*)\)", s)`, with positions. */
  function LinkHits(s: string): seq<Hit> {
    FindAllFrom(s, "", true, 0)
  }

  /**
    * No link that `findall` reports is the bracket part of an image it
    * reports: every image's '[' has a '!' just before it, which the
    * links pattern's lookbehind refuses.
    */
  lemma LinksAreNotImages(s: string)
    ensures forall x, y | 0 <= x < |LinkHits(s)| && 0 <= y < |ImageHits(s)| :: LinkHits(s)[x].pos != ImageHits(s)[y].pos + 1
  {
    forall x, y | 0 <= x < |LinkHits(s)| && 0 <= y < |ImageHits(s)| ensures LinkHits(s)[x].pos != ImageHits(s)[y].pos + 1 {
      FindAllSound(s, "", true, 0);
      FindAllSound(s, "!", false, 0);
      var h, g := LinkHits(s)[x], ImageHits(s)[y];
      assert HitFound(s, "!", false, g) && HitFound(s, "", true, h);
      assert RefText("!", g.alt, g.url)[0] == '!';
      assert s[g.pos] == s[g.pos..g.pos + g.len][0] == '!';
    }
  }
}
