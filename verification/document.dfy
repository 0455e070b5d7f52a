/** `markdown_to_html_node` (src/htmlnode.py:677-760): each block of the document becomes
    one node under a root `div`, chosen by the block's type. */
module Document {
  import opened Wrappers
  import opened Errors
  import opened Strings
  import opened TextNodes
  import opened HtmlNodes
  import Blocks
  import Inline
  import InlineRender

  /** Applies `f` to each element in order; the first failure stops the walk and is
      reported. Both the block loop and the list-item loops have this shape. */
  function MapAll<A, B>(f: A -> Result<B, Error>, xs: seq<A>): Result<seq<B>, Error>
  {
    if xs == [] then Success([])
    else
      var head :- f(xs[0]);
      var tail :- MapAll(f, xs[1..]);
      Success([head] + tail)
  }

  /** The walk succeeds exactly when every element succeeds. */
  lemma {:induction false} MapAllSucceeds<A, B>(f: A -> Result<B, Error>, xs: seq<A>)
    ensures MapAll(f, xs).Success? <==> forall i :: 0 <= i < |xs| ==> f(xs[i]).Success?
  {
    if xs != [] {
      MapAllSucceeds(f, xs[1..]);
      assert forall i :: 0 < i < |xs| ==> xs[i] == xs[1..][i - 1];
    }
  }

  /** A successful walk keeps one result per element, at the element's position. */
  lemma {:induction false} MapAllAt<A, B>(f: A -> Result<B, Error>, xs: seq<A>, i: nat)
    requires MapAll(f, xs).Success? && i < |xs|
    ensures |MapAll(f, xs).value| == |xs|
    ensures f(xs[i]).Success? && MapAll(f, xs).value[i] == f(xs[i]).value
  {
    if i > 0 {
      MapAllAt(f, xs[1..], i - 1);
    } else if |xs| > 1 {
      MapAllAt(f, xs[1..], 0);
    }
  }

  /** A failed walk reports the error of its first failing element. */
  lemma {:induction false} MapAllFailure<A, B>(f: A -> Result<B, Error>, xs: seq<A>)
    requires MapAll(f, xs).Failure?
    ensures exists i :: 0 <= i < |xs| && f(xs[i]).Failure? && MapAll(f, xs).error == f(xs[i]).error
  {
    if f(xs[0]).Success? {
      MapAllFailure(f, xs[1..]);
      var j :| 0 <= j < |xs[1..]| && f(xs[1..][j]).Failure? && MapAll(f, xs[1..]).error == f(xs[1..][j]).error;
      assert xs[1..][j] == xs[j + 1];
    }
  }

  /** The only error inline parsing raises: an unmatched `**`, `*`, `_` or `` ` ``. */
  predicate InlineError(e: Error)
  {
    e.UnmatchedDelimiter? && e.delimiter in {"**", "*", "_", "`"}
  }

  /** `text_to_children` fails only on an unmatched delimiter. */
  lemma ChildrenFailure(text: string)
    requires InlineRender.TextToChildren(text).Failure?
    ensures InlineError(InlineRender.TextToChildren(text).error)
  {
    InlineRender.TextToChildrenOutcome(text);
    Inline.TextToTextNodesFailure(text);
  }

  /** A heading: `h1` to `h6` after the number of leading `#`, holding the rest of the
      block after the marker and its space, stripped; later lines stay in the heading.
      Without a space after the `#` run the block would become a paragraph. */
  function HeadingNode(block: string): Result<HtmlNode, Error>
  {
    InlineParent(HeadingTagOf(block), HeadingText(block))
  }

  /** `h` and the level when the `#` run is followed by a space, `p` otherwise. */
  function HeadingTagOf(block: string): string
  {
    var level := Blocks.LeadingHashes(block);
    if level < |block| && block[level] == ' ' then "h" + NatToString(level) else "p"
  }

  /** The text after the `#` run and its space, stripped; the whole block otherwise. */
  function HeadingText(block: string): string
  {
    var level := Blocks.LeadingHashes(block);
    if level < |block| && block[level] == ' ' then Strip(block[level + 1..]) else block
  }

  /** A parent tagged `tag` holding the inline children of `text`. */
  function InlineParent(tag: string, text: string): Result<HtmlNode, Error>
  {
    var children :- InlineRender.TextToChildren(text);
    Success(Parent(tag, children, []))
  }

  /** `block.strip("```").strip('\n')`: every leading and trailing backtick, then every
      leading and trailing newline, goes. A language tag after the fence stays. */
  function CodeBody(block: string): string
  {
    StripChars(StripChars(block, {'`'}), {'\n'})
  }

  /** `line.lstrip('>').lstrip()`: all leading `>`, then all leading whitespace. */
  function QuoteLine(line: string): string
  {
    StripLeft(StripLeft(line, {'>'}), Whitespace)
  }

  function QuoteLines(lines: seq<string>): (r: seq<string>)
    ensures |r| == |lines|
    ensures forall i :: 0 <= i < |lines| ==> r[i] == QuoteLine(lines[i])
  {
    seq(|lines|, i requires 0 <= i < |lines| => QuoteLine(lines[i]))
  }

  /** The text of a quote: its lines with their markers removed, joined by newlines. */
  function QuoteText(block: string): string
  {
    Join(QuoteLines(Split(block, "\n")), "\n")
  }

  /** One list item: an `li` holding the item text's inline children. */
  function ItemNode(content: string): Result<HtmlNode, Error>
  {
    InlineParent("li", content)
  }

  /** `line[2:]` for each line of an unordered list. */
  function BulletContents(lines: seq<string>): (r: seq<string>)
    ensures |r| == |lines|
    ensures forall i :: 0 <= i < |lines| ==> r[i] == Drop(lines[i], 2)
  {
    if lines == [] then [] else [Drop(lines[0], 2)] + BulletContents(lines[1..])
  }

  /** For each line of an ordered list, the text after its first `". "`; a line without
      one is skipped. */
  function NumberedContents(lines: seq<string>): (r: seq<string>)
    ensures |r| <= |lines|
  {
    if lines == [] then []
    else
      match Find(lines[0], ". ")
      case None => NumberedContents(lines[1..])
      case Some(i) => [lines[0][i + 2..]] + NumberedContents(lines[1..])
  }

  /** The node for one block, by the block's type. */
  function BlockToHtmlNode(block: string): Result<HtmlNode, Error>
  {
    TypedBlockNode(block, Blocks.BlockToBlockType(block))
  }

  /** The node for a block of type `t`. */
  function TypedBlockNode(block: string, t: BlockType): Result<HtmlNode, Error>
  {
    match t
    case Heading => HeadingNode(block)
    case Paragraph => InlineParent("p", block)
    case Code => Success(Parent("pre", [Leaf(Some("code"), CodeBody(block), [])], []))
    case Quote => InlineParent("blockquote", QuoteText(block))
    case UnorderedList =>
      var items :- MapAll(ItemNode, BulletContents(Split(block, "\n")));
      Success(Parent("ul", items, []))
    case OrderedList =>
      var items :- MapAll(ItemNode, NumberedContents(Split(block, "\n")));
      Success(Parent("ol", items, []))
  }

  /** `markdown_to_html_node`: a `div` holding one node per block, in block order. The
      first inline error stops the conversion. */
  function MarkdownToHtmlNode(markdown: string): (r: Result<HtmlNode, Error>)
    ensures r.Success? ==> r.value.Parent? && r.value.tag == "div" && r.value.props == []
  {
    var nodes :- MapAll(BlockToHtmlNode, Blocks.MarkdownToBlocks(markdown));
    Success(Parent("div", nodes, []))
  }

  /** The tag each block type is rendered with; a heading's depends on its level. */
  function TagFor(t: BlockType, level: nat): string
  {
    match t
    case Heading => "h" + NatToString(level)
    case Paragraph => "p"
    case Code => "pre"
    case Quote => "blockquote"
    case UnorderedList => "ul"
    case OrderedList => "ol"
  }

  /** The document converts exactly when every block does; the `div` then has exactly
      one child per block, the node of the block at the same position. */
  lemma DocumentChildren(markdown: string)
    ensures var blocks := Blocks.MarkdownToBlocks(markdown);
      MarkdownToHtmlNode(markdown).Success? <==> forall i :: 0 <= i < |blocks| ==> BlockToHtmlNode(blocks[i]).Success?
  {
    MapAllSucceeds(BlockToHtmlNode, Blocks.MarkdownToBlocks(markdown));
  }

  lemma DocumentChildAt(markdown: string, i: nat)
    requires MarkdownToHtmlNode(markdown).Success? && i < |Blocks.MarkdownToBlocks(markdown)|
    ensures |MarkdownToHtmlNode(markdown).value.children| == |Blocks.MarkdownToBlocks(markdown)|
    ensures BlockToHtmlNode(Blocks.MarkdownToBlocks(markdown)[i]).Success?
    ensures MarkdownToHtmlNode(markdown).value.children[i] == BlockToHtmlNode(Blocks.MarkdownToBlocks(markdown)[i]).value
  {
    MapAllAt(BlockToHtmlNode, Blocks.MarkdownToBlocks(markdown), i);
  }

  /** A document without blocks is an empty `div`. */
  lemma BlankDocument(markdown: string)
    requires Blocks.Blank(markdown)
    ensures MarkdownToHtmlNode(markdown) == Success(Parent("div", [], []))
  {
    Blocks.NoBlocksIffBlank(markdown);
  }

  /** Conversion fails only on an unmatched inline delimiter. */
  lemma DocumentFailure(markdown: string)
    requires MarkdownToHtmlNode(markdown).Failure?
    ensures InlineError(MarkdownToHtmlNode(markdown).error)
  {
    var blocks := Blocks.MarkdownToBlocks(markdown);
    MapAllFailure(BlockToHtmlNode, blocks);
    var i :| 0 <= i < |blocks| && BlockToHtmlNode(blocks[i]).Failure?
      && MapAll(BlockToHtmlNode, blocks).error == BlockToHtmlNode(blocks[i]).error;
    BlockFailure(blocks[i]);
  }

  /** A block fails only on an unmatched inline delimiter; a code block never fails. */
  lemma BlockFailure(block: string)
    requires BlockToHtmlNode(block).Failure?
    ensures InlineError(BlockToHtmlNode(block).error)
    ensures Blocks.BlockToBlockType(block) != BlockType.Code
  {
    TypedBlockFailure(block, Blocks.BlockToBlockType(block));
  }

  lemma TypedBlockFailure(block: string, t: BlockType)
    requires TypedBlockNode(block, t).Failure?
    ensures InlineError(TypedBlockNode(block, t).error)
    ensures t != BlockType.Code
  {
    var lines := Split(block, "\n");
    match t
    case Heading => HeadingFailure(block);
    case Paragraph => InlineParentFailure("p", block);
    case Code =>
    case Quote => InlineParentFailure("blockquote", QuoteText(block));
    case UnorderedList => ItemsFailure(BulletContents(lines));
    case OrderedList => ItemsFailure(NumberedContents(lines));
  }

  lemma HeadingFailure(block: string)
    requires HeadingNode(block).Failure?
    ensures InlineError(HeadingNode(block).error)
  {
    InlineParentFailure(HeadingTagOf(block), HeadingText(block));
  }

  lemma InlineParentFailure(tag: string, text: string)
    requires InlineParent(tag, text).Failure?
    ensures InlineError(InlineParent(tag, text).error)
  {
    ChildrenFailure(text);
  }

  lemma ItemsFailure(contents: seq<string>)
    requires MapAll(ItemNode, contents).Failure?
    ensures InlineError(MapAll(ItemNode, contents).error)
  {
    MapAllFailure(ItemNode, contents);
    var i :| 0 <= i < |contents| && ItemNode(contents[i]).Failure?
      && MapAll(ItemNode, contents).error == ItemNode(contents[i]).error;
    InlineParentFailure("li", contents[i]);
  }

  /** Every block node is a parent without attributes, tagged after the block's type:
      `h1`..`h6` by the number of leading `#`, `p`, `pre`, `blockquote`, `ul`, `ol`. */
  lemma BlockTag(block: string)
    requires BlockToHtmlNode(block).Success?
    ensures BlockToHtmlNode(block).value.Parent? && BlockToHtmlNode(block).value.props == []
    ensures BlockToHtmlNode(block).value.tag
      == TagFor(Blocks.BlockToBlockType(block), Blocks.LeadingHashes(block))
  {
    var t := Blocks.BlockToBlockType(block);
    if t == Heading {
      Blocks.HeadingLevel(block);
      HeadingNodeTag(block);
    } else {
      TypedBlockTag(block, t);
    }
  }

  lemma TypedBlockTag(block: string, t: BlockType)
    requires t != Heading && TypedBlockNode(block, t).Success?
    ensures TypedBlockNode(block, t).value.Parent? && TypedBlockNode(block, t).value.props == []
    ensures TypedBlockNode(block, t).value.tag == TagFor(t, 0)
  {
  }

  lemma HeadingNodeTag(block: string)
    requires Blocks.IsHeading(block) && HeadingNode(block).Success?
    ensures HeadingNode(block).value.Parent? && HeadingNode(block).value.props == []
    ensures HeadingNode(block).value.tag == "h" + NatToString(Blocks.LeadingHashes(block))
  {
  }

  /** A heading holds the inline children of the text after its marker, stripped, and
      its level is between 1 and 6. */
  lemma HeadingBlock(block: string, level: nat, text: string)
    requires Blocks.BlockToBlockType(block) == Heading
    requires level == Blocks.LeadingHashes(block)
    requires level < |block| && text == Strip(block[level + 1..])
    ensures 1 <= level <= 6 && block[level] == ' '
    ensures BlockToHtmlNode(block) == InlineParent("h" + NatToString(level), text)
  {
    Blocks.HeadingLevel(block);
  }

  /** A parent of inline children exists exactly when the text tokenizes, and then
      holds one child per span. */
  lemma InlineParentChildren(tag: string, text: string)
    ensures InlineParent(tag, text).Success? <==> Inline.TextToTextNodes(text).Success?
    ensures InlineParent(tag, text).Success? ==>
      InlineParent(tag, text).value == Parent(tag, InlineRender.TextToChildren(text).value, [])
    ensures InlineParent(tag, text).Success? ==>
      |InlineRender.TextToChildren(text).value| == |Inline.TextToTextNodes(text).value|
  {
    InlineRender.TextToChildrenOutcome(text);
  }

  /** A code block is never parsed for inline markup: it renders as its body inside
      `<pre><code>`. */
  lemma CodeBlockHtml(block: string)
    requires Blocks.BlockToBlockType(block) == BlockType.Code
    ensures BlockToHtmlNode(block).Success?
    ensures ToHtml(BlockToHtmlNode(block).value) == "<pre><code>" + CodeBody(block) + "</code></pre>"
  {
    PreCodeHtml(CodeBody(block));
  }

  lemma PreCodeHtml(body: string)
    ensures ToHtml(Parent("pre", [Leaf(Some("code"), body, [])], [])) == "<pre><code>" + body + "</code></pre>"
  {
    var leaf := Leaf(Some("code"), body, []);
    var code := "<code>" + body + "</code>";
    assert ToHtml(leaf) == code by {
      InlineRender.TagHtml("code", body);
      Wrap("<", "code", ">", body, "</", "code", ">", "<code>", "</code>");
    }
    assert ToHtml(Parent("pre", [leaf], [])) == "<pre>" + code + "</pre>" by {
      SingleChild("pre", leaf, []);
      PlainElement("pre", code);
      Wrap("<", "pre", ">", code, "</", "pre", ">", "<pre>", "</pre>");
    }
    Regroup("<pre>", "<code>", body, "</code>", "</pre>");
    assert "<pre>" + "<code>" == "<pre><code>";
    assert "</code>" + "</pre>" == "</code></pre>";
  }

  /** An element without attributes, written out. */
  lemma PlainElement(tag: string, content: string)
    ensures Element(tag, [], content) == "<" + tag + ">" + content + "</" + tag + ">"
  {
    assert PropsToHtml([]) == "";
    assert "<" + tag + "" == "<" + tag;
  }

  /** A fenced block gives back the text between its fence lines, backticks and all,
      as long as that text does not begin or end with a newline. */
  lemma CodeFenceRoundTrip(body: string)
    requires body == "" || (body[0] != '\n' && body[|body| - 1] != '\n')
    ensures CodeBody("```\n" + body + "\n```") == body
  {
    var inner := "\n" + body + "\n";
    StripCharsExact("```", inner, "```", {'`'});
    assert "```\n" == "```" + "\n";
    assert "\n```" == "\n" + "```";
    Regroup("```", "\n", body, "\n", "```");
    StripCharsExact("\n", body, "\n", {'\n'});
  }

  /** A fenced block is a code block. */
  lemma FencedIsCode(body: string)
    ensures Blocks.BlockToBlockType("```\n" + body + "\n```") == BlockType.Code
  {
    var block := "```\n" + body + "\n```";
    assert block[..3] == "```" && block[|block| - 3..] == "```";
    assert Blocks.LeadingHashes(block) == 0;
  }

  /** An unordered list has one `li` per line, holding that line without its two-
      character marker. */
  lemma BulletItems(block: string, i: nat)
    requires Blocks.BlockToBlockType(block) == UnorderedList
    requires BlockToHtmlNode(block).Success?
    requires i < |Split(block, "\n")|
    ensures var lines := Split(block, "\n"); var items := BlockToHtmlNode(block).value.children;
      && |items| == |lines|
      && |lines[i]| >= 2 && (lines[i][..2] == "* " || lines[i][..2] == "- ")
      && ItemNode(lines[i][2..]).Success?
      && items[i] == ItemNode(lines[i][2..]).value
  {
    var lines := Split(block, "\n");
    Blocks.BlockTypeRules(block);
    assert StartsWith(lines[i], "* ") || StartsWith(lines[i], "- ");
    TypedItems(block, UnorderedList, BulletContents(lines), i);
  }

  /** A line starting with a number, a dot and a space has its first `". "` right after
      the number, since digits are not dots. */
  lemma MarkerFind(line: string, n: nat)
    requires StartsWith(line, NatToString(n) + ". ")
    ensures Find(line, ". ") == Some(|NatToString(n)|)
  {
    var digits := NatToString(n);
    var d := |digits|;
    assert line[..d + 2] == digits + ". ";
    assert line[d..d + 2] == ". ";
    OccursAtSlice(line, ". ", d);
    forall j: nat | j < d
      ensures !OccursAt(line, ". ", j)
    {
      assert line[j] == digits[j] && IsDigit(digits[j]);
      assert line[j + 0] != ". "[0];
    }
    FindIsFirst(line, ". ", d);
  }

  /** On lines numbered in order from `first`, every line yields an item: its text
      after the number, the dot and the space. */
  lemma {:induction false} NumberedContentsFrom(lines: seq<string>, first: nat)
    requires first >= 1
    requires forall i :: 0 <= i < |lines| ==> StartsWith(lines[i], NatToString(first + i) + ". ")
    ensures |NumberedContents(lines)| == |lines|
    ensures forall i :: 0 <= i < |lines| ==>
      lines[i] == NatToString(first + i) + ". " + NumberedContents(lines)[i]
  {
    if lines != [] {
      NumberedStep(lines, first);
      var tail := lines[1..];
      forall i | 0 <= i < |tail|
        ensures StartsWith(tail[i], NatToString((first + 1) + i) + ". ")
      {
        assert tail[i] == lines[i + 1] && (first + 1) + i == first + (i + 1);
      }
      NumberedContentsFrom(tail, first + 1);
      NumberedShift(lines, first);
    }
  }

  /** The induction step: the claim for the lines after the first carries over. */
  lemma NumberedShift(lines: seq<string>, first: nat)
    requires lines != [] && StartsWith(lines[0], NatToString(first) + ". ")
    requires |NumberedContents(lines[1..])| == |lines| - 1
    requires forall i :: 0 <= i < |lines| - 1 ==>
      lines[1..][i] == NatToString((first + 1) + i) + ". " + NumberedContents(lines[1..])[i]
    ensures |NumberedContents(lines)| == |lines|
    ensures forall i :: 0 <= i < |lines| ==>
      lines[i] == NatToString(first + i) + ". " + NumberedContents(lines)[i]
  {
    NumberedStep(lines, first);
    var rest := NumberedContents(lines[1..]);
    forall i | 0 < i < |lines|
      ensures lines[i] == NatToString(first + i) + ". " + NumberedContents(lines)[i]
    {
      assert NumberedContents(lines)[i] == rest[i - 1];
      assert lines[i] == lines[1..][i - 1] && first + i == (first + 1) + (i - 1);
    }
  }

  lemma NumberedStep(lines: seq<string>, n: nat)
    requires lines != [] && StartsWith(lines[0], NatToString(n) + ". ")
    ensures NumberedContents(lines)
      == [lines[0][|NatToString(n) + ". "|..]] + NumberedContents(lines[1..])
    ensures lines[0] == NatToString(n) + ". " + lines[0][|NatToString(n) + ". "|..]
  {
    MarkerFind(lines[0], n);
    var marker := NatToString(n) + ". ";
    assert lines[0][..|marker|] == marker;
  }

  /** An ordered list has one `li` per line, holding that line without its `i. `
      marker. */
  lemma NumberedItems(block: string, i: nat)
    requires Blocks.BlockToBlockType(block) == OrderedList
    requires BlockToHtmlNode(block).Success?
    requires i < |Split(block, "\n")|
    ensures var lines := Split(block, "\n"); var items := BlockToHtmlNode(block).value.children;
      && |items| == |lines|
      && StartsWith(lines[i], Blocks.OrderedMarker(i))
      && ItemNode(lines[i][|Blocks.OrderedMarker(i)|..]).Success?
      && items[i] == ItemNode(lines[i][|Blocks.OrderedMarker(i)|..]).value
  {
    var lines := Split(block, "\n");
    Blocks.BlockTypeRules(block);
    NumberedLines(lines);
    var contents := NumberedContents(lines);
    TypedItems(block, OrderedList, contents, i);
    var marker := Blocks.OrderedMarker(i);
    assert lines[i] == marker + contents[i];
    assert lines[i][..|marker|] == marker && lines[i][|marker|..] == contents[i];
  }

  /** The lines of an ordered list each split into their marker and the item text. */
  lemma NumberedLines(lines: seq<string>)
    requires Blocks.IsOrdered(lines)
    ensures |NumberedContents(lines)| == |lines|
    ensures forall i :: 0 <= i < |lines| ==> lines[i] == Blocks.OrderedMarker(i) + NumberedContents(lines)[i]
  {
    assert forall i :: 0 <= i < |lines| ==> Blocks.OrderedMarker(i) == NatToString(1 + i) + ". ";
    NumberedContentsFrom(lines, 1);
  }

  /** The items of a list block are the `li` nodes of its item texts, in order. */
  lemma TypedItems(block: string, t: BlockType, contents: seq<string>, i: nat)
    requires t == UnorderedList || t == OrderedList
    requires contents == (if t == UnorderedList then BulletContents(Split(block, "\n"))
                          else NumberedContents(Split(block, "\n")))
    requires BlockToHtmlNode(block).Success? && Blocks.BlockToBlockType(block) == t
    requires i < |contents|
    ensures |BlockToHtmlNode(block).value.children| == |contents|
    ensures ItemNode(contents[i]).Success?
    ensures BlockToHtmlNode(block).value.children[i] == ItemNode(contents[i]).value
  {
    MapAllAt(ItemNode, contents, i);
  }

  /** Each quote line loses its leading `>` run and then its leading whitespace, and
      nothing else. */
  lemma QuoteLineMeaning(line: string)
    ensures forall i :: 0 <= i < |line| - |StripLeft(line, {'>'})| ==> line[i] == '>'
    ensures forall i :: |line| - |StripLeft(line, {'>'})| <= i < |line| - |QuoteLine(line)| ==> line[i] in Whitespace
    ensures QuoteLine(line) != "" ==> QuoteLine(line)[0] !in Whitespace
  {
    var l := StripLeft(line, {'>'});
    StripLeftTwice(line, {'>'}, Whitespace, l, StripLeft(l, Whitespace));
  }

  /** A quote line is what remains at the end of its line. */
  lemma QuoteLineSuffix(line: string)
    ensures |QuoteLine(line)| <= |line|
    ensures QuoteLine(line) == line[|line| - |QuoteLine(line)|..]
  {
    var l := StripLeft(line, {'>'});
    StripLeftTwice(line, {'>'}, Whitespace, l, StripLeft(l, Whitespace));
  }

  /** Two left strips in a row cut a run of `a` characters, then a run of `b` characters. */
  lemma StripLeftTwice(s: string, a: set<char>, b: set<char>, l: string, r: string)
    requires l == StripLeft(s, a) && r == StripLeft(l, b)
    ensures |r| <= |l| <= |s| && r == s[|s| - |r|..]
    ensures forall i :: 0 <= i < |s| - |l| ==> s[i] in a
    ensures forall i :: |s| - |l| <= i < |s| - |r| ==> s[i] in b
    ensures r != "" ==> r[0] !in b
  {
    SuffixRun(s, l, r, b);
  }

  /** A suffix `r` of a suffix `l` of `s` is a suffix of `s`, and what `l` loses before
      `r` is the stretch of `s` between them. */
  lemma SuffixRun(s: string, l: string, r: string, b: set<char>)
    requires |r| <= |l| <= |s| && l == s[|s| - |l|..] && r == l[|l| - |r|..]
    requires forall i :: 0 <= i < |l| - |r| ==> l[i] in b
    ensures r == s[|s| - |r|..]
    ensures forall i :: |s| - |l| <= i < |s| - |r| ==> s[i] in b
  {
    var off := |s| - |l|;
    forall i | off <= i < |s| - |r|
      ensures s[i] in b
    {
      assert s[i] == l[i - off];
    }
  }

  /** A quote's text has exactly one line per line of the block, each with its marker
      removed. */
  lemma QuoteTextLines(block: string)
    ensures Split(QuoteText(block), "\n") == QuoteLines(Split(block, "\n"))
  {
    var lines := Split(block, "\n");
    var quoted := QuoteLines(lines);
    forall i | 0 <= i < |quoted|
      ensures !Contains(quoted[i], "\n")
    {
      QuoteLineFree(lines[i]);
    }
    SplitJoin(quoted, "\n");
  }

  /** A quote line cut from a line without a newline has none. */
  lemma QuoteLineFree(line: string)
    requires !Contains(line, "\n")
    ensures !Contains(QuoteLine(line), "\n")
  {
    var l := StripLeft(line, {'>'});
    StripLeftFree(line, {'>'});
    StripLeftFree(l, Whitespace);
  }

  /** Stripping on the left cannot bring in a newline. */
  lemma StripLeftFree(s: string, cs: set<char>)
    requires !Contains(s, "\n")
    ensures !Contains(StripLeft(s, cs), "\n")
  {
    SuffixKeepsFree(s, StripLeft(s, cs));
  }

  /** A suffix of a line without a newline has none. */
  lemma SuffixKeepsFree(line: string, r: string)
    requires |r| <= |line| && r == line[|line| - |r|..] && !Contains(line, "\n")
    ensures !Contains(r, "\n")
  {
    var k := |line| - |r|;
    forall j | 0 <= j < |r|
      ensures r[j] != '\n'
    {
      assert r[j] == line[k + j];
      assert !OccursAt(line, "\n", k + j);
    }
    CharFree(r, '\n');
  }
}
