/**
  * `extract_title` of the static site generator (SSG/src/main.py): the
  * title of a page is the first line that starts with "# ", with that
  * marker removed and the rest stripped; a page without such a line is an
  * error.
  */
module Title {
  import opened Wrappers
  import opened PyStr

  datatype TitleError = NoTitle

  const Newline: string := "\n"

  /** `line.startswith("# ")`: the line is a level-one heading. */
  predicate TitleLine(line: string) {
    |line| >= 2 && line[0] == '#' && line[1] == ' '
  }

  /** The loop with early return over the lines, from the first one on. */
  function FirstTitle(lines: seq<string>): (r: Option<string>)
    ensures r.None? <==> forall i | 0 <= i < |lines| :: !TitleLine(lines[i])
    ensures r.Some? ==> exists i | 0 <= i < |lines| ::
      && TitleLine(lines[i])
      && (forall j | 0 <= j < i :: !TitleLine(lines[j]))
      && r.value == Strip(lines[i][2..])
    ensures r.Some? ==> r.value == [] || (!IsSpace(r.value[0]) && !IsSpace(r.value[|r.value| - 1]))
  {
    if lines == [] then None
    else if TitleLine(lines[0]) then
      StripTrimmed(lines[0][2..]);
      Some(Strip(lines[0][2..]))
    else
      var r := FirstTitle(lines[1..]);
      assert forall i | 1 <= i < |lines| :: lines[i] == lines[1..][i - 1];
      r
  }

  /** The title of a page: the stripped rest of the first line that starts with "# ", or `NoTitle` when there is none. */
  function ExtractTitle(markdown: string): (r: Result<string, TitleError>)
    ensures r.Err? <==> forall i | 0 <= i < |Split(markdown, Newline)| :: !TitleLine(Split(markdown, Newline)[i])
    ensures r.Ok? ==> exists i | 0 <= i < |Split(markdown, Newline)| ::
      && TitleLine(Split(markdown, Newline)[i])
      && (forall j | 0 <= j < i :: !TitleLine(Split(markdown, Newline)[j]))
      && r.value == Strip(Split(markdown, Newline)[i][2..])
    ensures r.Ok? ==> r.value == [] || (!IsSpace(r.value[0]) && !IsSpace(r.value[|r.value| - 1]))
  {
    match FirstTitle(Split(markdown, Newline))
    case Some(title) => Ok(title)
    case None => Err(NoTitle)
  }

  /**
    * A first line that is not a title (a deeper heading "## ...", say) is
    * skipped: the title is then the one of the text after it.
    */
  lemma SkipsNonTitleLine(line: string, rest: string)
    requires !Contains(line, Newline)
    requires !TitleLine(line)
    ensures ExtractTitle(line + Newline + rest) == ExtractTitle(rest)
  {
    forall p: nat | p < |line| ensures !OccursAt(line + (Newline + rest), Newline, p) {
      assert (line + (Newline + rest))[p..p + 1] == line[p..p + 1];
      assert !OccursAt(line, Newline, p);
    }
    assert line + Newline + rest == line + (Newline + rest);
    SplitFromSkip(line, Newline + rest, Newline, []);
    SplitFromSep(rest, Newline, [] + line);
    assert [] + line == line;
    var lines := Split(line + Newline + rest, Newline);
    assert lines == [line] + Split(rest, Newline);
    assert lines[1..] == Split(rest, Newline);
  }

  /** A title on the first line wins over anything later. */
  lemma FirstLineTitle(line: string, rest: string)
    requires !Contains(line, Newline)
    requires TitleLine(line)
    ensures ExtractTitle(line + Newline + rest) == Ok(Strip(line[2..]))
  {
    forall p: nat | p < |line| ensures !OccursAt(line + (Newline + rest), Newline, p) {
      assert (line + (Newline + rest))[p..p + 1] == line[p..p + 1];
      assert !OccursAt(line, Newline, p);
    }
    assert line + Newline + rest == line + (Newline + rest);
    SplitFromSkip(line, Newline + rest, Newline, []);
    SplitFromSep(rest, Newline, [] + line);
    assert [] + line == line;
  }
}
