/** The block layer of src/htmlnode.py: `markdown_to_blocks` (lines 571-601) cuts a
    document into stripped, non-blank blocks, and `block_to_block_type` (lines 603-656)
    classifies a block by trying its rules in a fixed order. */
module Blocks {
  import opened Wrappers
  import opened Strings
  import opened TextNodes

  /** Every character is one `str.strip()` removes. */
  predicate Blank(s: string)
  {
    forall k :: 0 <= k < |s| ==> s[k] in Whitespace
  }

  /** What one piece contributes: itself stripped, or nothing when that is empty. */
  function PieceBlock(part: string): seq<string>
  {
    if Strip(part) == "" then [] else [Strip(part)]
  }

  /** The pieces stripped, the blank ones dropped, in order. */
  function CleanBlocks(parts: seq<string>): seq<string>
  {
    if parts == [] then [] else PieceBlock(parts[0]) + CleanBlocks(parts[1..])
  }

  /** `markdown_to_blocks`: split on the literal "\n\n", strip each piece, keep the
      non-empty ones. */
  function MarkdownToBlocks(markdown: string): seq<string>
  {
    CleanBlocks(Split(markdown, "\n\n"))
  }

  /** A block as `markdown_to_blocks` keeps it: non-empty, and neither its first nor its
      last character is whitespace. */
  predicate Clean(b: string)
  {
    b != "" && b[0] !in Whitespace && b[|b| - 1] !in Whitespace
  }

  /** A clean block is its own `strip()`. */
  lemma CleanIsStripped(b: string)
    requires Clean(b)
    ensures Strip(b) == b
  {
    StripNoEdges(b, Whitespace);
  }

  /** The stripped piece, when non-empty, is clean. */
  lemma StripIsClean(p: string)
    requires Strip(p) != ""
    ensures Clean(Strip(p))
  {
    StripCharsSlice(p, Whitespace);
  }

  lemma {:induction false} CleanBlocksAreClean(parts: seq<string>)
    ensures forall i :: 0 <= i < |CleanBlocks(parts)| ==> Clean(CleanBlocks(parts)[i])
  {
    if parts != [] {
      CleanBlocksAreClean(parts[1..]);
      var tail := CleanBlocks(parts[1..]);
      var r := CleanBlocks(parts);
      if Strip(parts[0]) == "" {
        assert r == tail;
      } else {
        StripIsClean(parts[0]);
        AllCleanCons(Strip(parts[0]), tail);
        assert r == [Strip(parts[0])] + tail;
      }
      assert forall i :: 0 <= i < |r| ==> Clean(r[i]);
    }
  }

  lemma AllCleanCons(b: string, tail: seq<string>)
    requires Clean(b)
    requires forall i :: 0 <= i < |tail| ==> Clean(tail[i])
    ensures forall i :: 0 <= i < |[b] + tail| ==> Clean(([b] + tail)[i])
  {
    forall i | 0 <= i < |[b] + tail|
      ensures Clean(([b] + tail)[i])
    {
      if i > 0 {
        assert ([b] + tail)[i] == tail[i - 1];
      }
    }
  }

  /** Every block is non-empty and is its own `strip()`. */
  lemma BlocksAreClean(markdown: string)
    ensures forall i :: 0 <= i < |MarkdownToBlocks(markdown)| ==> Clean(MarkdownToBlocks(markdown)[i])
  {
    CleanBlocksAreClean(Split(markdown, "\n\n"));
  }

  lemma CleanBlocksCons(a: string, rest: seq<string>)
    ensures CleanBlocks([a] + rest) == CleanBlocks([a]) + CleanBlocks(rest)
  {
    assert ([a] + rest)[0] == a && ([a] + rest)[1..] == rest;
    assert [a][1..] == [];
    assert CleanBlocks([a]) == PieceBlock(a) + [];
  }

  lemma BlankAppend(a: string, b: string)
    ensures Blank(a + b) <==> Blank(a) && Blank(b)
  {
    if Blank(a + b) {
      forall k | 0 <= k < |b|
        ensures b[k] in Whitespace
      {
        assert b[k] == (a + b)[|a| + k];
      }
      forall k | 0 <= k < |a|
        ensures a[k] in Whitespace
      {
        assert a[k] == (a + b)[k];
      }
    }
    if Blank(a) && Blank(b) {
      forall k | 0 <= k < |a + b|
        ensures (a + b)[k] in Whitespace
      {
        if k >= |a| {
          assert (a + b)[k] == b[k - |a|];
        }
      }
    }
  }

  /** Where the first "\n\n" sits at `i`, the text is the piece before it, the
      separator and the rest. */
  lemma SeparatorCut(s: string, i: nat)
    requires Find(s, "\n\n") == Some(i)
    ensures i + 2 <= |s| && s == s[..i] + "\n\n" + s[i + 2..]
  {
    OccurrenceSlice(s, "\n\n", i, i + 2);
    SliceSplit(s, i, i + 2);
  }

  /** A document has no blocks exactly when it is blank; in particular the empty
      document has none. */
  lemma {:induction false} NoBlocksIffBlank(markdown: string)
    ensures MarkdownToBlocks(markdown) == [] <==> Blank(markdown)
    decreases |markdown|
  {
    match Find(markdown, "\n\n")
    case None =>
      assert Split(markdown, "\n\n") == [markdown];
      assert [markdown][1..] == [];
      assert CleanBlocks([markdown]) == (if Strip(markdown) == "" then [] else [Strip(markdown)]) + CleanBlocks([]);
      StripCharsEmpty(markdown, Whitespace);
    case Some(i) =>
      var a := markdown[..i];
      var rest := markdown[i + 2..];
      SeparatorCut(markdown, i);
      SplitStep(markdown, "\n\n", i);
      NoBlocksIffBlank(rest);
      CleanBlocksCons(a, Split(rest, "\n\n"));
      StripCharsEmpty(a, Whitespace);
      BlankAppend(a, "\n\n");
      BlankAppend(a + "\n\n", rest);
  }

  /** Blocks keep source order: a first piece without "\n\n" that does not end in a
      newline contributes its block (if any) ahead of the rest's blocks. */
  lemma BlocksCons(a: string, b: string)
    requires !Contains(a, "\n\n") && (a == "" || a[|a| - 1] != '\n')
    ensures MarkdownToBlocks(a + "\n\n" + b) == CleanBlocks([a]) + MarkdownToBlocks(b)
  {
    var s := a + "\n\n" + b;
    FirstSeparator(a, b);
    SplitStep(s, "\n\n", |a|);
    assert s[..|a|] == a && s[|a| + 2..] == b;
    CleanBlocksCons(a, Split(b, "\n\n"));
  }

  lemma FirstSeparator(a: string, b: string)
    requires !Contains(a, "\n\n") && (a == "" || a[|a| - 1] != '\n')
    ensures Find(a + "\n\n" + b, "\n\n") == Some(|a|)
  {
    var s := a + "\n\n" + b;
    assert OccursAt(s, "\n\n", |a|) by {
      assert s[|a| + 0] == '\n' && s[|a| + 1] == '\n';
    }
    forall j: nat | j < |a|
      ensures !OccursAt(s, "\n\n", j)
    {
      if j + 1 < |a| {
        assert a[j..j + 2] == s[j..j + 2];
        OccursAtSlice(a, "\n\n", j);
        OccursAtSlice(s, "\n\n", j);
      } else {
        OccursAtSlice(s, "\n\n", j);
        assert s[j..j + 2][0] == a[|a| - 1];
      }
    }
    FindIsFirst(s, "\n\n", |a|);
  }

  /** A document without "\n\n" is one block, its `strip()`, unless it is blank. */
  lemma SingleBlock(markdown: string)
    requires !Contains(markdown, "\n\n") && !Blank(markdown)
    ensures MarkdownToBlocks(markdown) == [Strip(markdown)]
  {
    SplitNoSeparator(markdown, "\n\n");
    StripCharsEmpty(markdown, Whitespace);
    var s := Strip(markdown);
    assert s != "";
    assert [markdown][1..] == [];
    assert CleanBlocks([markdown]) == [s] + CleanBlocks([]);
  }

  /** The number of `#` a string starts with. */
  function LeadingHashes(s: string): (r: nat)
    ensures r <= |s|
    ensures forall k :: 0 <= k < r ==> s[k] == '#'
    ensures r < |s| ==> s[r] != '#'
  {
    if s != "" && s[0] == '#' then 1 + LeadingHashes(s[1..]) else 0
  }

  /** The heading rule as the code checks it: one to six `#`, then a space. */
  predicate IsHeading(block: string)
  {
    var n := LeadingHashes(block);
    1 <= n <= 6 && n < |block| && block[n] == ' '
  }

  /** The regular expression `^#{1,6} `: some number of `#` from one to six at the
      start, followed by a space. */
  predicate HeadingPattern(block: string)
  {
    exists n :: 1 <= n <= 6 && n < |block| && block[n] == ' ' && forall k :: 0 <= k < n ==> block[k] == '#'
  }

  /** Counting the leading `#` decides the regular expression: a space right after
      one to six of them is the only way it matches. */
  lemma HeadingPatternIsHeading(block: string)
    ensures HeadingPattern(block) <==> IsHeading(block)
  {
    var n := LeadingHashes(block);
    if HeadingPattern(block) {
      var m :| 1 <= m <= 6 && m < |block| && block[m] == ' ' && forall k :: 0 <= k < m ==> block[k] == '#';
      assert m == n;
    }
  }

  /** The code-block rule: starts and ends with three backticks; the two fences may
      overlap. */
  predicate IsFenced(block: string)
  {
    StartsWith(block, "```") && EndsWith(block, "```")
  }

  predicate IsQuote(lines: seq<string>)
  {
    forall i :: 0 <= i < |lines| ==> StartsWith(lines[i], ">")
  }

  predicate IsUnordered(lines: seq<string>)
  {
    forall i :: 0 <= i < |lines| ==> StartsWith(lines[i], "* ") || StartsWith(lines[i], "- ")
  }

  /** The marker line `i` (from 0) of an ordered list starts with: `f'{i + 1}. '`. */
  function OrderedMarker(i: nat): string
  {
    NatToString(i + 1) + ". "
  }

  /** The ordered-list rule stated over all lines: line `i` starts with `i + 1`, a dot
      and a space. */
  predicate IsOrdered(lines: seq<string>)
  {
    forall i :: 0 <= i < |lines| ==> StartsWith(lines[i], OrderedMarker(i))
  }

  /** The ordered-list loop as the code runs it: the expected number starts at
      `expected` and goes up by one per line; the first line without its marker fails. */
  function OrderedFrom(lines: seq<string>, expected: nat): bool
    requires expected >= 1
  {
    lines == [] || (StartsWith(lines[0], NatToString(expected) + ". ") && OrderedFrom(lines[1..], expected + 1))
  }

  /** The loop accepts exactly the blocks whose line `i` starts with `i + 1`. */
  lemma {:induction false} OrderedFromIff(lines: seq<string>, first: nat)
    requires first >= 1
    ensures OrderedFrom(lines, first)
      <==> forall i :: 0 <= i < |lines| ==> StartsWith(lines[i], NatToString(first + i) + ". ")
  {
    if lines != [] {
      OrderedFromIff(lines[1..], first + 1);
      OrderedShift(lines, first);
    }
  }

  /** Numbering all lines from `first` is numbering the first line `first` and the rest
      from `first + 1`. */
  lemma OrderedShift(lines: seq<string>, first: nat)
    requires lines != []
    ensures (forall i :: 0 <= i < |lines| ==> StartsWith(lines[i], NatToString(first + i) + ". "))
      <==> (StartsWith(lines[0], NatToString(first) + ". ")
            && forall i :: 0 <= i < |lines[1..]| ==> StartsWith(lines[1..][i], NatToString((first + 1) + i) + ". "))
  {
    forall i | 0 <= i < |lines[1..]|
      ensures lines[1..][i] == lines[i + 1] && (first + 1) + i == first + (i + 1)
    {
    }
    if StartsWith(lines[0], NatToString(first) + ". ")
      && forall i :: 0 <= i < |lines[1..]| ==> StartsWith(lines[1..][i], NatToString((first + 1) + i) + ". ")
    {
      forall i | 0 < i < |lines|
        ensures StartsWith(lines[i], NatToString(first + i) + ". ")
      {
        assert lines[i] == lines[1..][i - 1] && first + i == (first + 1) + (i - 1);
      }
    }
  }

  lemma OrderedLoopIsOrdered(lines: seq<string>)
    ensures OrderedFrom(lines, 1) <==> IsOrdered(lines)
  {
    OrderedFromIff(lines, 1);
    assert forall i :: 0 <= i < |lines| ==> NatToString(1 + i) + ". " == OrderedMarker(i);
  }

  /** `block_to_block_type`. */
  function BlockToBlockType(block: string): BlockType
  {
    if IsHeading(block) then Heading
    else if IsFenced(block) then BlockType.Code
    else LinesType(Split(block, "\n"))
  }

  /** The rules that look at every line, in order. */
  function LinesType(lines: seq<string>): (r: BlockType)
    ensures r != Heading && r != BlockType.Code
  {
    if IsQuote(lines) then Quote
    else if IsUnordered(lines) then UnorderedList
    else if OrderedFrom(lines, 1) then OrderedList
    else Paragraph
  }

  /** The rules are tried in order and the first that holds decides: the heading
      pattern, then the fences, then every line quoted, every line a bullet, every line
      numbered from 1; a paragraph when none holds. */
  lemma BlockTypeRules(block: string)
    ensures var r := BlockToBlockType(block); var lines := Split(block, "\n");
      && (r == Heading <==> HeadingPattern(block))
      && (r == BlockType.Code <==> !HeadingPattern(block) && IsFenced(block))
      && (r == Quote <==> !HeadingPattern(block) && !IsFenced(block) && IsQuote(lines))
      && (r == UnorderedList <==>
            !HeadingPattern(block) && !IsFenced(block) && !IsQuote(lines) && IsUnordered(lines))
      && (r == OrderedList <==>
            !HeadingPattern(block) && !IsFenced(block) && !IsQuote(lines) && !IsUnordered(lines)
            && IsOrdered(lines))
      && (r == Paragraph <==>
            !HeadingPattern(block) && !IsFenced(block) && !IsQuote(lines) && !IsUnordered(lines)
            && !IsOrdered(lines))
  {
    HeadingPatternIsHeading(block);
    OrderedLoopIsOrdered(Split(block, "\n"));
  }

  /** A heading has from one to six leading `#`, with a space after them. */
  lemma HeadingLevel(block: string)
    requires BlockToBlockType(block) == Heading
    ensures 1 <= LeadingHashes(block) <= 6 && LeadingHashes(block) < |block|
    ensures block[LeadingHashes(block)] == ' '
  {
  }

  /** Three backticks alone are a code block: the opening and closing fence are the
      same three characters. */
  lemma FenceAloneIsCode()
    ensures BlockToBlockType("```") == BlockType.Code
  {
    assert LeadingHashes("```") == 0;
  }

  /** Seven `#` are too many for a heading. */
  lemma SevenHashesIsParagraph()
    ensures BlockToBlockType("####### x") == Paragraph
  {
    var b := "####### x";
    HashesOf(b, 7);
    OneLine(b);
    SevenHashesLines();
  }

  lemma SevenHashesLines()
    ensures LinesType(["####### x"]) == Paragraph
  {
    var b := "####### x";
    NotStartsWith(b, ">");
    NotStartsWith(b, "* ");
    NotStartsWith(b, "- ");
    NotStartsWith(b, "1. ");
    OneLineType(b);
  }

  /** The type of a one-line block that is neither quoted nor a bullet. */
  lemma OneLineType(b: string)
    requires !StartsWith(b, ">") && !StartsWith(b, "* ") && !StartsWith(b, "- ")
    ensures LinesType([b]) == if StartsWith(b, "1. ") then OrderedList else Paragraph
  {
    assert [b][0] == b;
    assert !IsQuote([b]);
    assert !IsUnordered([b]);
    assert [b][1..] == [];
    assert OrderedFrom([], 2);
    assert NatToString(1) == "1";
    assert OrderedFrom([b], 1) <==> StartsWith(b, "1. ");
  }

  /** A block without a newline is its only line. */
  lemma OneLine(b: string)
    requires forall k :: 0 <= k < |b| ==> b[k] != '\n'
    ensures Split(b, "\n") == [b]
  {
    CharFree(b, '\n');
    SplitNoSeparator(b, "\n");
  }

  lemma {:induction false} HashesOf(s: string, n: nat)
    requires n < |s| && s[n] != '#' && forall k :: 0 <= k < n ==> s[k] == '#'
    ensures LeadingHashes(s) == n
  {
    if n > 0 {
      HashesOf(s[1..], n - 1);
    }
  }

  /** Numbering must start at 1 and go up by one. */
  lemma SkippedNumberIsParagraph()
    ensures BlockToBlockType("1. a\n3. b") == Paragraph
  {
    var b := "1. a\n3. b";
    assert LeadingHashes(b) == 0;
    NotStartsWith(b, "```");
    SkippedSplit();
    SkippedLines();
  }

  lemma SkippedSplit()
    ensures Split("1. a\n3. b", "\n") == ["1. a", "3. b"]
  {
    SplitPair("1. a", "3. b", '\n');
    assert "1. a" + "\n" + "3. b" == "1. a\n3. b";
  }

  lemma SkippedLines()
    ensures LinesType(["1. a", "3. b"]) == Paragraph
  {
    var parts := ["1. a", "3. b"];
    NotStartsWith(parts[0], ">");
    NotStartsWith(parts[0], "* ");
    NotStartsWith(parts[0], "- ");
    assert NatToString(2) == "2";
    NotStartsWith("3. b", "2. ");
    assert parts[1..] == ["3. b"];
  }

  /** A string does not start with a prefix whose first character differs from its own. */
  lemma NotStartsWith(s: string, p: string)
    requires s != "" && p != "" && s[0] != p[0]
    ensures !StartsWith(s, p)
  {
    if |p| <= |s| {
      assert s[..|p|][0] == s[0];
    }
  }

  /** A single line numbered 1 is an ordered list. */
  lemma SingleItemIsOrdered()
    ensures BlockToBlockType("1. a") == OrderedList
  {
    var b := "1. a";
    OneLine(b);
    assert LeadingHashes(b) == 0;
    NotStartsWith(b, ">");
    NotStartsWith(b, "* ");
    NotStartsWith(b, "- ");
    assert b[..3] == "1. ";
    OneLineType(b);
  }
}
