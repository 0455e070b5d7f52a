/** `extract_title` (src/htmlnode.py:117-143): the page title is the text of the first
    line that, once stripped, starts with `# `. */
module Title {
  import opened Wrappers
  import opened Errors
  import opened Strings

  /** A line whose stripped form starts with `#` and a space. */
  predicate IsTitleLine(line: string)
  {
    StartsWith(Strip(line), "# ")
  }

  /** The title a line carries: what follows its first two characters once stripped,
      stripped again. */
  function TitleText(line: string): string
  {
    Strip(Drop(Strip(line), 2))
  }

  /** `f` of the first element satisfying `p`, if any. */
  function FirstWith(xs: seq<string>, p: string -> bool, f: string -> string): Option<string>
  {
    if xs == [] then None
    else if p(xs[0]) then Some(f(xs[0]))
    else FirstWith(xs[1..], p, f)
  }

  /** `extract_title`: the empty document is refused first; otherwise the first title
      line among the document's lines gives the title, and a document without one is
      refused. */
  function ExtractTitle(markdown: string): (r: Result<string, Error>)
    ensures r.Failure? ==> r.error == EmptyMarkdown || r.error == NoTitle
    ensures r == Failure(EmptyMarkdown) <==> markdown == ""
  {
    if markdown == "" then Failure(EmptyMarkdown)
    else
      match FirstWith(Split(markdown, "\n"), IsTitleLine, TitleText)
      case None => Failure(NoTitle)
      case Some(t) => Success(t)
  }

  /** The search finds nothing exactly when no element qualifies. */
  lemma {:induction false} FirstWithNone(xs: seq<string>, p: string -> bool, f: string -> string)
    ensures FirstWith(xs, p, f).None? <==> forall i :: 0 <= i < |xs| ==> !p(xs[i])
  {
    if xs != [] {
      FirstWithNone(xs[1..], p, f);
      assert forall i :: 0 < i < |xs| ==> xs[i] == xs[1..][i - 1];
    }
  }

  /** The search returns `f` of the first qualifying element. */
  lemma {:induction false} FirstWithFound(xs: seq<string>, p: string -> bool, f: string -> string, i: nat)
    requires i < |xs| && p(xs[i])
    requires forall j :: 0 <= j < i ==> !p(xs[j])
    ensures FirstWith(xs, p, f) == Some(f(xs[i]))
  {
    if i > 0 {
      assert forall j :: 0 <= j < i - 1 ==> xs[1..][j] == xs[j + 1];
      FirstWithFound(xs[1..], p, f, i - 1);
    }
  }

  /** A non-empty document's title is the text of its first title line. */
  lemma TitleOfFirstHeading(markdown: string, lines: seq<string>, i: nat)
    requires markdown != "" && lines == Split(markdown, "\n")
    requires i < |lines| && IsTitleLine(lines[i])
    requires forall j :: 0 <= j < i ==> !IsTitleLine(lines[j])
    ensures ExtractTitle(markdown) == Success(TitleText(lines[i]))
  {
    FirstWithFound(lines, IsTitleLine, TitleText, i);
  }

  /** The missing-title error is raised exactly for a non-empty document none of whose
      lines is a title line. */
  lemma NoTitleIff(markdown: string)
    ensures ExtractTitle(markdown) == Failure(NoTitle)
      <==> markdown != "" && forall i :: 0 <= i < |Split(markdown, "\n")| ==> !IsTitleLine(Split(markdown, "\n")[i])
  {
    if markdown != "" {
      NoTitleLines(markdown, Split(markdown, "\n"));
    }
  }

  lemma NoTitleLines(markdown: string, lines: seq<string>)
    requires markdown != "" && lines == Split(markdown, "\n")
    ensures ExtractTitle(markdown) == Failure(NoTitle) <==> forall i :: 0 <= i < |lines| ==> !IsTitleLine(lines[i])
  {
    FirstWithNone(lines, IsTitleLine, TitleText);
  }

  /** A stripped title on the first line comes back unchanged, whatever follows. */
  lemma TitleRoundTrip(t: string, rest: string)
    requires t != "" && t[0] !in Whitespace && t[|t| - 1] !in Whitespace && !Contains(t, "\n")
    ensures ExtractTitle("# " + t + "\n" + rest) == Success(t)
  {
    var line := "# " + t;
    HeadFree(t);
    FirstLine(line, rest);
    TitleLine(t);
    TitleOfFirstHeading(line + "\n" + rest, Split(line + "\n" + rest, "\n"), 0);
  }

  /** A line without a newline, followed by one, is the first line. */
  lemma FirstLine(line: string, rest: string)
    requires !Contains(line, "\n")
    ensures Split(line + "\n" + rest, "\n")[0] == line
  {
    var s := line + "\n" + rest;
    FirstNewline(line, rest);
    SplitStep(s, "\n", |line|);
    assert s[..|line|] == line;
  }

  /** A one-line document holding `# ` and a stripped title gives that title. */
  lemma TitleAlone(t: string)
    requires t != "" && t[0] !in Whitespace && t[|t| - 1] !in Whitespace && !Contains(t, "\n")
    ensures ExtractTitle("# " + t) == Success(t)
  {
    var line := "# " + t;
    HeadFree(t);
    SplitNoSeparator(line, "\n");
    TitleLine(t);
    TitleOfFirstHeading(line, [line], 0);
  }

  /** `# ` followed by a stripped title is a title line carrying it. */
  lemma TitleLine(t: string)
    requires t != "" && t[0] !in Whitespace && t[|t| - 1] !in Whitespace
    ensures IsTitleLine("# " + t) && TitleText("# " + t) == t
  {
    var line := "# " + t;
    assert line[0] == '#' && line[|line| - 1] == t[|t| - 1];
    StripNoEdges(line, Whitespace);
    assert line[..2] == "# " && Drop(line, 2) == t;
    StripNoEdges(t, Whitespace);
  }

  /** `# ` and a line without a newline has none. */
  lemma HeadFree(t: string)
    requires !Contains(t, "\n")
    ensures !Contains("# " + t, "\n")
  {
    var line := "# " + t;
    forall k | 0 <= k < |line|
      ensures line[k] != '\n'
    {
      if k >= 2 {
        assert line[k] == t[k - 2];
        assert !OccursAt(t, "\n", k - 2);
      }
    }
    CharFree(line, '\n');
  }

  /** The first newline of `line + "\n" + rest` is the one after `line`. */
  lemma FirstNewline(line: string, rest: string)
    requires !Contains(line, "\n")
    ensures Find(line + "\n" + rest, "\n") == Some(|line|)
  {
    var s := line + "\n" + rest;
    assert s[|line| + 0] == '\n';
    forall j: nat | j < |line|
      ensures !OccursAt(s, "\n", j)
    {
      assert s[j] == line[j];
      assert !OccursAt(line, "\n", j);
    }
    FindIsFirst(s, "\n", |line|);
  }

  /** A level-two heading is not a title. */
  lemma SubheadingIsNoTitle()
    ensures ExtractTitle("## Sub") == Failure(NoTitle)
  {
    var md := "## Sub";
    CharFree(md, '\n');
    SplitNoSeparator(md, "\n");
    SubheadingLine();
    NoTitleIff(md);
  }

  lemma SubheadingLine()
    ensures !IsTitleLine("## Sub")
  {
    var md := "## Sub";
    assert md[0] == '#' && md[|md| - 1] == 'b' && md[1] == '#';
    UntitledLine(md);
  }

  /** A line with no whitespace at either end whose second character is not a space is
      not a title line. */
  lemma UntitledLine(line: string)
    requires line != "" && line[0] !in Whitespace && line[|line| - 1] !in Whitespace
    requires |line| < 2 || line[1] != ' '
    ensures !IsTitleLine(line)
  {
    StripNoEdges(line, Whitespace);
    if |line| >= 2 {
      assert line[..2][1] == line[1];
    }
  }
}
