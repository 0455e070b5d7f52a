# StaticWeb markdown-to-HTML core, in Dafny

StaticWeb is a small static-site generator. Its core turns a markdown document into a tree
of HTML nodes and serializes that tree. This project models that core as pure Dafny
functions over strings and immutable trees, and proves properties of it. The core lives in
`src/htmlnode.py` and `src/textnode.py`:

- **Value types** (`textnode.dfy`, module `TextNodes`): the six inline kinds (`TextType`),
  the six block kinds (`BlockType`) and the inline span `TextNode`, which has a text, a
  kind and an optional url and uses structural equality.
- **Render tree** (`htmlnodes.dfy`, `HtmlNodes`): `LeafNode` and `ParentNode`, with
  their constructor checks, `props_to_html` and the recursive `to_html`.
- **Inline tokenizer**:
  - `split_nodes_delimiter` (`delimiter.dfy`, `Delimiter`);
  - the image and link extractors (`extract.dfy`, `Extract`). Their two regular
    expressions are written out as a left-to-right scanner with lazy groups; `.` does
    not match a newline.
  - `split_nodes_image` / `split_nodes_link` (`imagelink.dfy`, `ImageLink`);
  - `text_to_textnodes`, the fixed fold of six passes (`inline.dfy`, `Inline`).
- **Inline renderer**: `text_node_to_html_node` and `text_to_children`
  (`inline_render.dfy`, `InlineRender`).
- **Block layer**: `markdown_to_blocks` and `block_to_block_type` (`blocks.dfy`,
  `Blocks`); `markdown_to_html_node` (`document.dfy`, `Document`).
- **Title**: `extract_title` (`title.dfy`, `Title`).

Every `ValueError` the core raises becomes an `Error` value in a `Result`
(`errors.dfy`, `wrappers.dfy`). This includes the one Python's `str.split` raises for an
empty separator. Python's `str.strip()` is modelled with the set of characters Python's
`str.isspace` accepts (`Strings.Whitespace`). Python's `str.split`, `str.find`, `strip`,
`lstrip` and f-string decimal formatting are modelled in `strings.dfy` (`Strings`).

Behaviours of the code worth noting:

- a block that is just the three backticks "```" is a code block, because it both starts
  and ends with the fence (src/htmlnode.py:621);
- a code block's body loses every leading and trailing newline, as `.strip('\n')` does
  (src/htmlnode.py:715);
- a quote line loses every leading `>` and then all leading whitespace, since `lstrip()`
  with no argument removes every whitespace character, not one optional space
  (src/htmlnode.py:726);
- a lone `!` that opens no image is ordinary text (`Inline.ExclamationIsPlain`).

## Model

| member | source | states |
|---|---|---|
| TextNodes.AllTextTypes | src/textnode.py:3-9 | There are exactly six inline kinds, each at its own position, with pairwise distinct enum values. |
| TextNodes.AllBlockTypes | src/textnode.py:11-17 | There are exactly six block kinds, each at its own position, with pairwise distinct enum values. |
| TextNodes.NewTextNode | src/textnode.py:21-24 | The constructor keeps the text, the kind and the url it is given; its partner `DefaultUrlIsNone` states that the url defaults to absent. |
| TextNodes.Equal | src/textnode.py:26-33 | `__eq__` between two spans compares text, kind and url; its partner `EqualIffSameFields` states it is exactly value equality. |
| TextNodes.EqualIffSameFields | src/textnode.py:26-33 | Two spans are equal exactly when text, kind and url all agree. |
| TextNodes.DefaultUrlIsNone | src/textnode.py:21-24 | The url defaults to absent, and passing None explicitly gives an equal span. |
| TextNodes.KindDistinguishes | src/textnode.py:31 | Spans that differ only in kind are unequal. |
| TextNodes.UrlDistinguishes | src/textnode.py:32 | A link with a url is unequal to the same link without one. |
| TextNodes.AllUrlInvariantAppend | src/htmlnode.py:284-291 | "Links and images carry a url, other spans none" holds for a concatenation exactly when it holds for both parts. |
| HtmlNodes.NewLeaf | src/htmlnode.py:30-37 | The leaf constructor fails exactly when the value is missing; otherwise it keeps tag and value, and missing props become empty props. |
| HtmlNodes.NewParent | src/htmlnode.py:49-60 | The parent constructor refuses a missing tag first, then missing children; an empty child list is accepted. |
| HtmlNodes.PropsToHtml | src/htmlnode.py:17-25 | The attribute string is empty exactly when there are no attributes, and otherwise starts with a space. |
| HtmlNodes.PropsToHtmlAppend | src/htmlnode.py:21-25 | Attributes render independently of each other, in insertion order. |
| HtmlNodes.PropsToHtmlSingle | src/htmlnode.py:23 | One attribute renders as a space, the name, `=` and the double-quoted value. |
| HtmlNodes.ToHtml | src/htmlnode.py:39-46 | An untagged leaf serializes to its value verbatim. |
| HtmlNodes.LeafExamples | src/htmlnode.py:39-46 | Examples: a `p` leaf wraps its value in `<p>` and `</p>`; an untagged leaf is its text. |
| HtmlNodes.ChildrenToHtmlAppend | src/htmlnode.py:71-78 | A parent's content is its children's output concatenated in order. |
| HtmlNodes.EmptyParent | src/htmlnode.py:62-78 | A parent with no children renders as `<tag></tag>`. |
| HtmlNodes.SingleChild | src/htmlnode.py:62-78 | A parent with one child wraps exactly that child's output in its tag and attributes. |
| Strings.Split | src/htmlnode.py:323 | The pieces of `str.split` joined with the separator give back the input. No piece contains the separator. There is one piece exactly when the separator is absent. Otherwise the first piece ends at the first occurrence. |
| Strings.SplitJoin | src/htmlnode.py:728 | Splitting a join of separator-free parts on a one-character separator gives the parts back. |
| Strings.FindNone | src/htmlnode.py:448 | The search finds nothing exactly when the needle does not occur. |
| Strings.StripLeft | src/htmlnode.py:726 | `lstrip` removes a prefix made only of stripped characters, and the result does not start with one. |
| Strings.StripRight | src/htmlnode.py:715 | `rstrip` removes a suffix made only of stripped characters, and the result does not end with one. |
| Strings.StripCharsSlice | src/htmlnode.py:596 | `strip` keeps one contiguous slice; everything cut on either side is a stripped character; the kept slice neither starts nor ends with one. |
| Strings.StripCharsIdempotent | src/htmlnode.py:596 | Stripping twice is stripping once. |
| Strings.StripCharsEmpty | src/htmlnode.py:596-598 | A string strips to empty exactly when all its characters are stripped characters. |
| Strings.NatToStringRoundTrip | src/htmlnode.py:647 | The decimal rendering of `f'{n}'` reads back as `n`. |
| Strings.NatToStringInjective | src/htmlnode.py:647 | Different numbers render differently. |
| Extract.FindClose | src/htmlnode.py:380 | The lazy url group stops at the first `)`, which must come before any newline. |
| Extract.FindAlt | src/htmlnode.py:380 | The lazy alt group stops at the first `](` followed by a closable url, and no newline may come before it. |
| Extract.MatchAt | src/htmlnode.py:396-407 | The pattern matches at a position exactly when the opener is there and the alt group can end. For a link the `[` must not follow a `!`. |
| Extract.MatchRenders | src/htmlnode.py:380 | A hit covers exactly the markdown rebuilt from its two groups, and the groups are newline-free. |
| Extract.OccurrenceIsMatch | src/htmlnode.py:396-407 | Wherever a pair's rebuilt markdown occurs behind a valid opener, the pattern matches there. |
| Extract.Scan | src/htmlnode.py:381 | `re.findall` yields hits in order, without overlap and inside the text. |
| Extract.ScanHit | src/htmlnode.py:381 | Each reported hit is the pattern's match at its start. |
| Extract.ScanGaps | src/htmlnode.py:381 | No hit starts in any gap between reported hits, so none is skipped. |
| Extract.HitOccurs | src/htmlnode.py:443-448 | A hit's rebuilt markdown occurs at the hit and spans it. |
| Extract.ExtractMarkdownImages | src/htmlnode.py:361-382 | The markdown rebuilt from each extracted image pair occurs in the text. |
| Extract.ExtractMarkdownLinks | src/htmlnode.py:384-409 | The markdown rebuilt from each extracted link pair occurs in the text. |
| Extract.ExtractRender | src/htmlnode.py:361-409 | Extracting from a pair's rendered markdown gives back exactly that pair. |
| Extract.NoBangNoImages | src/htmlnode.py:380 | Text without `!` has no images. |
| Extract.OnlyImagesNoLinks | src/htmlnode.py:407 | Text whose every `[` follows a `!` has no links, so the link pass leaves image markdown alone. |
| Extract.SliceImageFree | src/htmlnode.py:465-477 | A stretch where no image hit of the whole text starts holds no image hit of its own. |
| ImageLink.SplitNodesImage | src/htmlnode.py:411-479 | `split_nodes_image` as written; its partners `SplitNodesAsWrittenIsExact`, `SplitNodesImageFree`, `SplitNodesUnchanged` and `SplitNodesUrls` state that it cuts exactly at the image hits, leaves no image in plain text, drops only empty text without hits, and keeps the url invariant. |
| ImageLink.SplitNodesLinkAsWritten | src/htmlnode.py:482-545 | `split_nodes_link` as written, cutting at the first literal occurrence of each pair; its partners `SplitNodesAsWrittenIsExact` and `LinkSplitBug` state that this is the link hit on image-free text and can miss it otherwise. |
| ImageLink.SplitNodesLink | src/htmlnode.py:482-545 | The link pass cutting at the link hits; its partners `LinkPassIntended`, `LinkAfterImagesIsExact` and `SplitNodesUrls` state that it yields exactly the extracted links and round-trips, equals the pass as written after the image pass, and keeps the url invariant. |
| ImageLink.SplitAtMatches | src/htmlnode.py:465-477 | Cutting at the hits never yields an empty plain-text node. Every node carries a url exactly when it is a hit. The hit nodes carry the extracted pairs in order. |
| ImageLink.SplitAtMatchesRoundTrip | src/htmlnode.py:442-477 | The pieces written back as markdown give the text: nothing is lost, reordered or duplicated. |
| ImageLink.SplitNodeText | src/htmlnode.py:428-477 | One plain-text node with hits becomes non-empty plain pieces and hit nodes. Their pairs are the extracted ones, and written back they give the node's text. |
| ImageLink.CutStep | src/htmlnode.py:443-473 | One loop step as written: text before the first literal occurrence, the hit node, then the loop on what follows. |
| ImageLink.SplitAsWrittenMiss | src/htmlnode.py:452-462 | When a pair's markdown is not found, the loop keeps the rest as one plain-text node and stops. |
| ImageLink.SplitAsWrittenIsExact | src/htmlnode.py:442-477 | Cutting at each pair's first literal occurrence is cutting at the hits. This holds for images always, and for links unless a `[` follows a `!` while an image is present. So the warning branch is never taken. |
| ImageLink.SplitNodesAsWrittenIsExact | src/htmlnode.py:411-479 | `split_nodes_image` as written equals the cut at the image hits on every node list. The same holds for the link pass on lists whose plain text holds no image. |
| ImageLink.SplitNodesImageFree | src/htmlnode.py:411-479 | After the image pass, no plain-text node holds an image hit. |
| ImageLink.LinkAfterImagesIsExact | src/htmlnode.py:560-561 | After the image pass, the link pass as written cuts exactly at the link hits. |
| ImageLink.LinkPassIntended | src/htmlnode.py:482-545 | The corrected link pass on a plain-text node never yields an empty plain piece. Its link nodes carry exactly the extracted link pairs, in order, and written back the pieces give the text. |
| ImageLink.SplitNodesUnchanged | src/htmlnode.py:421-439 | Where no plain-text node holds a hit, the pass only drops empty plain-text nodes and keeps the rest in order. |
| ImageLink.SplitNodesUrls | src/htmlnode.py:411-545 | Either pass keeps "links and images carry a url, other spans none". |
| ImageLink.LinkSplitBug | src/htmlnode.py:513-539 | On `![a](b) [a](b)` the link pass as written cuts inside the image. The cut at the link hit keeps the image text and links the real link. |
| Delimiter.SplitNodesDelimiter | src/htmlnode.py:296-359 | `split_nodes_delimiter` over a node list; its partners `SplitNodesDelimiterSucceeds`, `SplitNodesDelimiterFirstFailure`, `SplitNodesDelimiterAppend`, `SplitNodesDelimiterUnchanged` and `SplitNodesDelimiterUrls` state when it succeeds, which error it reports, that it works node by node in order, and what it leaves alone. |
| Delimiter.SplitNode | src/htmlnode.py:312-355 | One node: other kinds pass unchanged and empty text is dropped. Text without the delimiter is kept. The pass fails exactly on an even piece count or an empty delimiter, with the matching error. |
| Delimiter.SectionsToNodesPositions | src/htmlnode.py:338-355 | Section `j` gives one node, typed when it is odd-indexed or empty, plain otherwise. Only an empty first or last section gives nothing. |
| Delimiter.SectionsFromInterior | src/htmlnode.py:338-355 | For every start index past the first section, the nodes number `hi - from` and the k-th is `SectionNode` of section `from + k`, where `hi` is the section count, less one when the last section is empty. |
| Delimiter.SectionsKeepText | src/htmlnode.py:338-355 | The nodes' texts concatenated are the sections concatenated. |
| Delimiter.SplitNodeKeepsText | src/htmlnode.py:323-355 | A successful split keeps all the text except the delimiters, and the delimiters rejoin it. |
| Delimiter.SplitNodesDelimiterSucceeds | src/htmlnode.py:311-359 | The pass over a list succeeds exactly when every node's split succeeds. |
| Delimiter.SplitNodesDelimiterFirstFailure | src/htmlnode.py:311-335 | A failing pass reports the error of its first failing node; every earlier node succeeded. |
| Delimiter.SplitNodesDelimiterAppend | src/htmlnode.py:311-359 | The pass over a concatenation is the pass over each part, results in order. |
| Delimiter.SplitNodesDelimiterUnchanged | src/htmlnode.py:312-331 | With no delimiter in any plain-text node, the pass only drops empty plain-text nodes, in order. |
| Delimiter.SplitNodesDelimiterUnmatched | src/htmlnode.py:334-335 | With a non-empty delimiter the only error is an unmatched-delimiter error for that delimiter. |
| Delimiter.SplitNodesDelimiterUrls | src/htmlnode.py:345-355 | A bold, italic or code pass keeps "links and images carry a url, other spans none". |
| Delimiter.CodeExample | src/htmlnode.py:338-355 | Example: ``a `b` c`` becomes plain `a `, code `b`, plain ` c`. |
| Delimiter.UnmatchedExample | src/htmlnode.py:333-335 | Example: ``a `b`` fails with the unmatched-delimiter error. |
| Inline.TextToTextNodes | src/htmlnode.py:547-569 | `text_to_textnodes` with the corrected link pass; its partners `TextToTextNodesUrls`, `TextToTextNodesFailure`, `PlainTextIsOneNode` and `LinkBugMasked` state the url invariant of its spans, its only error, its plain-text case, and its agreement with the code as written. |
| Inline.TextToTextNodesAsWritten | src/htmlnode.py:547-569 | `text_to_textnodes` exactly as written; its partner `LinkBugMasked` states that it equals `TextToTextNodes` on every text. |
| Inline.TextToTextNodesUrls | src/htmlnode.py:547-569 | Every span the tokenizer yields carries a url exactly when it is a link or an image. |
| Inline.TextToTextNodesFailure | src/htmlnode.py:560-567 | The tokenizer fails only on an unmatched `**`, `*`, `_` or backtick. |
| Inline.RunPassesFailure | src/htmlnode.py:562-567 | A failing fold of delimiter passes reports an unmatched delimiter that is one of the passes'. |
| Inline.RunPassesUrls | src/htmlnode.py:562-567 | The fold of delimiter passes keeps the url invariant. |
| Inline.PlainTextIsOneNode | src/htmlnode.py:554-569 | Non-empty text with no `*`, `_` or backtick and no image or link for the extractors to find comes back as one plain-text span holding it. |
| Inline.NoBracketIsPlain | src/htmlnode.py:361-408 | Text with no `[` holds no image or link, so text that also lacks `*`, `_` and the backtick is plain. |
| Inline.ExclamationIsPlain | src/htmlnode.py:554-569 | "Hello, world!" comes back as one plain-text span: a `!` that opens no image is ordinary text. |
| Inline.LinkBugMasked | src/htmlnode.py:547-569 | The tokenizer with the link pass as written and with the corrected link pass agree on every text. |
| Inline.SplitNodesAsWrittenUrls | src/htmlnode.py:411-545 | Either pass as written keeps the url invariant. |
| InlineRender.TextNodeToHtmlNode | src/htmlnode.py:275-293 | Conversion fails exactly for a link or image without url. The error is the missing-url one, and success gives a leaf. |
| InlineRender.TextNodeHtml | src/htmlnode.py:275-291 | A span with its url converts. Its leaf serializes to the text, to `<b>`, `<i>` or `<code>` around it, to `<a href="url">text</a>`, or to `<img src="url" alt="text"></img>`. |
| InlineRender.NodesToHtmlUrls | src/htmlnode.py:670-675 | Spans keeping the url invariant convert one leaf per span, in order, serializing to the spans' HTML. |
| InlineRender.NodesToHtmlAt | src/htmlnode.py:672-674 | Each converted leaf is the conversion of the span at the same position. |
| InlineRender.TextToChildren | src/htmlnode.py:661-675 | `text_to_children`; its partners `TextToChildrenOutcome` and `PlainTextChildren` state that it succeeds exactly when the tokenizer does, one leaf per span, and that plain text is one untagged leaf. |
| InlineRender.TextToChildrenOutcome | src/htmlnode.py:661-675 | `text_to_children` succeeds exactly when the tokenizer does; the missing-url error never arises. Its children serialize to the spans' HTML. |
| InlineRender.PlainTextChildren | src/htmlnode.py:661-675 | Non-empty text with no `*`, `_` or backtick and no image or link becomes a single untagged leaf holding it. |
| Blocks.MarkdownToBlocks | src/htmlnode.py:571-601 | `markdown_to_blocks`; its partners `BlocksAreClean`, `NoBlocksIffBlank`, `BlocksCons` and `SingleBlock` state that blocks are non-empty and stripped, when there are none, that they keep source order, and the single-block case. |
| Blocks.BlocksAreClean | src/htmlnode.py:590-601 | Every block is non-empty and has no whitespace at either end. |
| Blocks.CleanIsStripped | src/htmlnode.py:596 | Such a block equals its own `strip()`. |
| Blocks.NoBlocksIffBlank | src/htmlnode.py:590-601 | There are no blocks exactly when the document is empty or all whitespace. |
| Blocks.BlocksCons | src/htmlnode.py:590-601 | Blocks keep source order: the first piece's block, then the blocks of the rest. |
| Blocks.SingleBlock | src/htmlnode.py:590-601 | A non-blank document without a blank-line separator is one block, the document stripped. |
| Blocks.LeadingHashes | src/htmlnode.py:695-697 | The count of leading `#` is the longest run of `#` at the start. |
| Blocks.HeadingPatternIsHeading | src/htmlnode.py:616 | `^#{1,6} ` matches exactly when one to six `#` are followed by a space. |
| Blocks.OrderedFromIff | src/htmlnode.py:644-650 | The numbering loop accepts exactly when line `i` starts with `first + i`, a dot and a space. |
| Blocks.OrderedLoopIsOrdered | src/htmlnode.py:644-652 | Counting from 1, the loop accepts exactly the lists whose line `i` starts with `i + 1. `. |
| Blocks.LinesType | src/htmlnode.py:626-656 | The line-based rules never give a heading or code block. |
| Blocks.BlockTypeRules | src/htmlnode.py:603-656 | The rules apply in priority order: heading, fence, all-quote, all-bullet, numbered from 1, paragraph. Each type is given exactly when its rule holds and no earlier rule does. |
| Blocks.BlockToBlockType | src/htmlnode.py:603-656 | `block_to_block_type`; its partner `BlockTypeRules` states, for each of the six types, exactly when a block gets it, in the source's priority order. |
| Blocks.HeadingLevel | src/htmlnode.py:616 | A heading block starts with one to six `#` followed by a space. |
| Blocks.FenceAloneIsCode | src/htmlnode.py:621 | The three backticks alone make a code block. |
| Blocks.SevenHashesIsParagraph | src/htmlnode.py:616 | Seven `#` and a space make a paragraph. |
| Blocks.SkippedNumberIsParagraph | src/htmlnode.py:644-656 | A list numbered 1 then 3 is a paragraph. |
| Blocks.SingleItemIsOrdered | src/htmlnode.py:644-652 | `1. a` is an ordered list. |
| Document.MarkdownToHtmlNode | src/htmlnode.py:759-760 | A converted document is a `div` without attributes. |
| Document.DocumentChildren | src/htmlnode.py:687-760 | The document converts exactly when every block does. |
| Document.DocumentChildAt | src/htmlnode.py:687-760 | The `div` has exactly one child per block, the node of the block at the same position. |
| Document.BlankDocument | src/htmlnode.py:687-760 | A blank document gives an empty `div`. |
| Document.DocumentFailure | src/htmlnode.py:687-760 | A conversion fails only on an unmatched inline delimiter. |
| Document.BlockFailure | src/htmlnode.py:690-754 | A block fails only on an unmatched inline delimiter, and a code block never fails. |
| Document.BlockTag | src/htmlnode.py:690-754 | A block's node is an attribute-free parent tagged by its type. A heading gets `h` and its number of leading `#`. |
| Document.BlockToHtmlNode | src/htmlnode.py:690-754 | The per-block branch of `markdown_to_html_node`; its partners `BlockTag`, `BlockFailure`, `HeadingBlock`, `CodeBlockHtml`, `QuoteTextLines`, `BulletItems` and `NumberedItems` state the tag, the only error, and the children of each block type. |
| Document.HeadingBlock | src/htmlnode.py:693-702 | A heading block has level one to six and a space after the `#` run. It becomes `h` plus the level around the stripped text after the marker. |
| Document.InlineParentChildren | src/htmlnode.py:701-702 | A text-holding block converts exactly when its text tokenizes, holding one child per span. |
| Document.CodeBlockHtml | src/htmlnode.py:712-718 | A code block always converts and serializes to `<pre><code>`, the body verbatim, `</code></pre>`. |
| Document.CodeFenceRoundTrip | src/htmlnode.py:715 | A body without newlines at its ends, fenced by three backticks and newlines, comes back unchanged. |
| Document.FencedIsCode | src/htmlnode.py:621 | A fenced body is a code block. |
| Document.QuoteLineMeaning | src/htmlnode.py:726 | A quote line loses exactly its leading `>` run, then the whitespace after it. What is left does not start with whitespace. |
| Document.QuoteTextLines | src/htmlnode.py:722-728 | The quote text splits back into exactly the cleaned lines. |
| Document.BulletItems | src/htmlnode.py:732-741 | A bullet list has one `li` per line. Each line starts with `* ` or `- `, and its item holds the rest of the line. |
| Document.NumberedItems | src/htmlnode.py:743-754 | An ordered list has one `li` per line. Line `i` starts with `i + 1. `, and its item holds the rest of the line. |
| Document.NumberedLines | src/htmlnode.py:745-752 | For a numbered list, the text after each line's first `. ` is exactly what follows its marker. |
| Document.MapAllSucceeds | src/htmlnode.py:690-754 | A walk over blocks or items succeeds exactly when every element does. |
| Document.MapAllFailure | src/htmlnode.py:690-754 | A failed walk reports the error of a failing element. |
| Title.ExtractTitle | src/htmlnode.py:117-143 | The empty-document error is raised exactly for the empty document; the only other error is the missing title. |
| Title.TitleOfFirstHeading | src/htmlnode.py:137-141 | The title is the stripped text after the `# ` of the first line whose stripped form starts with `# `. |
| Title.NoTitleIff | src/htmlnode.py:134-143 | The missing-title error is raised exactly for a non-empty document with no title line. |
| Title.TitleRoundTrip | src/htmlnode.py:137-141 | A stripped title written as `# title` on the first line comes back unchanged, whatever follows. |
| Title.TitleAlone | src/htmlnode.py:137-141 | A one-line `# title` document gives the title. |
| Title.UntitledLine | src/htmlnode.py:139-140 | A line without edge whitespace whose second character is not a space is not a title line. |
| Title.SubheadingIsNoTitle | src/htmlnode.py:140 | `## Sub` is not a title. |

## Left out

- File copying, page generation and template filling (`copy_directory_recursive`,
  `generate_page`, `generate_pages_recursive`) and the command-line entry point: these are
  file-system I/O.
- `__repr__` of both node classes and the abstract `HTMLNode.to_html`: debug output and a
  base-class path no node reaches.
- The `print` of the warning branch in the image and link splitters: printing is output
  only. The branch itself is modelled; `ImageLink.SplitNodesAsWrittenIsExact` shows it is
  never taken by the image pass, or by the link pass after the image pass.
- None inputs (`text_to_textnodes(None)`, `markdown_to_blocks(None)`, the
  `AttributeError` of `extract_title(None)`): Dafny strings cannot be None.
- The `else` branch of `text_node_to_html_node` that rejects an unknown kind: `TextType`
  has only its six members, so the branch cannot be expressed.
- The `if not lines` guard of `block_to_block_type`: a split always yields at least one
  piece (`Strings.Split`).
- Props are an ordered list of pairs rather than a Python dict, so duplicate names are
  representable. Insertion order, which a dict keeps, is what matters for the output.
- The regular-expression engine: the two extraction patterns and the heading pattern
  are stated directly over strings.
- HtmlNodes.ToHtml: its contract states only the untagged-leaf case. The tagged forms
  are stated by `EmptyParent`, `SingleChild` and `ChildrenToHtmlAppend`, and the inline
  leaves by `InlineRender.TextNodeHtml`.
- Extract.ExtractMarkdownImages: its contract states only that each pair's markdown
  occurs. That the pairs are all the hits, in order and without overlap, is stated of
  `Extract.Scan` by `ScanHit` and `ScanGaps`.
- Extract.ExtractMarkdownLinks: likewise.
- Document.NumberedContents: its contract bounds only the length. Item contents are
  stated by `Document.NumberedLines` and `Document.NumberedItems` for the lists
  `block_to_block_type` accepts.
- Inline.TextToTextNodes: it runs the corrected link pass. `Inline.LinkBugMasked`
  proves this gives the same spans as the pass as written on every text.

## Findings

| source | as written | input that shows it | evidently intended | confidence | as-written member | corrected member |
|---|---|---|---|---|---|---|
| src/htmlnode.py:513-539 | `split_nodes_link` rebuilds each extracted link's markdown and cuts at its first literal occurrence. That occurrence may be the tail of an image `![text](url)`, which the link pattern itself refuses. | `[TextNode("![a](b) [a](b)", TEXT)]` given to `split_nodes_link` yields `"!"`, link `a`→`b`, `" [a](b)"`. | Cut at the link hit: `"![a](b) "`, then link `a`→`b`. Written back, the pieces give the text, and the link pairs are the extracted ones (`ImageLink.LinkPassIntended`). Through `text_to_textnodes` the misplaced cut cannot arise, because the image pass runs first (`Inline.LinkBugMasked`). | not executed | ImageLink.LinkSplitBug | ImageLink.SplitNodesLink |
