/** `text_to_textnodes` (src/htmlnode.py:547-569): the inline tokenizer. A non-empty text
    starts as one plain-text node and goes through six passes in a fixed order: images,
    links, then the delimiters `**` (bold), `*` and `_` (italic) and `` ` `` (code). */
module Inline {
  import opened Wrappers
  import opened Errors
  import opened Strings
  import opened TextNodes
  import opened Extract
  import ImageLink
  import Delimiter

  /** The delimiter passes, in the order they run, with the kind each gives. */
  const DelimiterPasses: seq<(string, TextType)> :=
    [("**", Bold), ("*", Italic), ("_", Italic), ("`", TextType.Code)]

  /** The delimiter passes run one after the other; the first failing pass stops the fold. */
  function RunPasses(nodes: seq<TextNode>, passes: seq<(string, TextType)>): Result<seq<TextNode>, Error>
    decreases |passes|
  {
    if passes == [] then Success(nodes)
    else
      var next :- Delimiter.SplitNodesDelimiter(nodes, passes[0].0, passes[0].1);
      RunPasses(next, passes[1..])
  }

  /** `text_to_textnodes`: the empty text gives no nodes; otherwise the six passes run on
      a single plain-text node. The link pass cuts at the link hits themselves, the
      intended behaviour of the pass (see `ImageLink.LinkSplitBug`). */
  function TextToTextNodes(text: string): Result<seq<TextNode>, Error>
  {
    if text == "" then Success([])
    else
      var afterImages := ImageLink.SplitNodesImage([TextNode(text, Text, None)]);
      var afterLinks := ImageLink.SplitNodesLink(afterImages);
      RunPasses(afterLinks, DelimiterPasses)
  }

  /** `text_to_textnodes` exactly as the code runs it, with the link pass as written. */
  function TextToTextNodesAsWritten(text: string): Result<seq<TextNode>, Error>
  {
    if text == "" then Success([])
    else
      var afterImages := ImageLink.SplitNodesImage([TextNode(text, Text, None)]);
      var afterLinks := ImageLink.SplitNodesLinkAsWritten(afterImages);
      RunPasses(afterLinks, DelimiterPasses)
  }

  /** Inside the tokenizer the link pass as written never misplaces a cut: the image
      pass runs first and leaves no image in plain text, so the tokenizer as written
      and the one with the corrected link pass agree on every text. */
  lemma LinkBugMasked(text: string)
    ensures TextToTextNodesAsWritten(text) == TextToTextNodes(text)
  {
    if text != "" {
      ImageLink.LinkAfterImagesIsExact([TextNode(text, Text, None)]);
    }
  }

  /** The link pass as the code runs it keeps the url invariant: whatever it cuts, it
      yields plain text without a url and typed nodes with one. */
  lemma {:induction false} SplitAsWrittenUrls(remaining: string, pairs: seq<(string, string)>, kind: Kind)
    ensures AllUrlInvariant(ImageLink.SplitAsWritten(remaining, pairs, kind))
    decreases |pairs|
  {
    var nodes := ImageLink.SplitAsWritten(remaining, pairs, kind);
    if pairs == [] {
      TextPieceUrls(remaining);
    } else {
      var md := Render(kind, pairs[0].0, pairs[0].1);
      var found := Find(remaining, md);
      if found.None? {
        ImageLink.SplitAsWrittenMiss(remaining, pairs, kind, md);
        TextPieceUrls(remaining);
      } else {
        var i := found.value;
        var j := i + |md|;
        ImageLink.CutStep(remaining, pairs[0].0, pairs[0].1, pairs, kind, i, j);
        var hit := ImageLink.HitNode(pairs[0].0, pairs[0].1, kind);
        var later := ImageLink.SplitAsWritten(remaining[j..], pairs[1..], kind);
        assert nodes == ImageLink.TextPiece(remaining[..i]) + [hit] + later;
        SplitAsWrittenUrls(remaining[j..], pairs[1..], kind);
        PieceHitUrls(remaining[..i], hit, later);
      }
    }
  }

  lemma TextPieceUrls(s: string)
    ensures AllUrlInvariant(ImageLink.TextPiece(s))
  {
  }

  /** Text before a hit, the hit, and nodes keeping the invariant keep it together. */
  lemma PieceHitUrls(before: string, hit: TextNode, rest: seq<TextNode>)
    requires hit.textType in {Link, Image} && hit.url.Some?
    requires AllUrlInvariant(rest)
    ensures AllUrlInvariant(ImageLink.TextPiece(before) + [hit] + rest)
  {
    var piece := ImageLink.TextPiece(before);
    assert AllUrlInvariant(piece) && AllUrlInvariant([hit]);
    AllUrlInvariantAppend(piece, [hit]);
    AllUrlInvariantAppend(piece + [hit], rest);
  }

  lemma {:induction false} SplitNodesAsWrittenUrls(nodes: seq<TextNode>, kind: Kind)
    requires AllUrlInvariant(nodes)
    ensures AllUrlInvariant(ImageLink.SplitNodesAsWritten(nodes, kind))
  {
    if nodes != [] {
      assert UrlInvariant(nodes[0]);
      SplitNodesAsWrittenUrls(nodes[1..], kind);
      var n := nodes[0];
      var head := ImageLink.SplitNodeAsWritten(n, kind);
      if n.textType == Text && n.text != "" {
        var pairs := Pairs(Scan(n.text, 0, kind));
        if pairs != [] {
          SplitAsWrittenUrls(n.text, pairs, kind);
        }
      }
      assert AllUrlInvariant(head);
      AllUrlInvariantAppend(head, ImageLink.SplitNodesAsWritten(nodes[1..], kind));
    }
  }

  /** The delimiter passes keep the url invariant. */
  lemma {:induction false} RunPassesUrls(nodes: seq<TextNode>, passes: seq<(string, TextType)>)
    requires forall i :: 0 <= i < |passes| ==> passes[i].1 != Link && passes[i].1 != Image
    requires AllUrlInvariant(nodes)
    requires RunPasses(nodes, passes).Success?
    ensures AllUrlInvariant(RunPasses(nodes, passes).value)
    decreases |passes|
  {
    if passes != [] {
      var next := Delimiter.SplitNodesDelimiter(nodes, passes[0].0, passes[0].1);
      Delimiter.SplitNodesDelimiterUrls(nodes, passes[0].0, passes[0].1);
      assert forall i :: 0 <= i < |passes[1..]| ==> passes[1..][i] == passes[i + 1];
      RunPassesUrls(next.value, passes[1..]);
    }
  }

  /** Every node the tokenizer yields carries a url exactly when it is a link or an
      image, so the renderer's missing-url error cannot arise from it. */
  lemma TextToTextNodesUrls(text: string)
    requires TextToTextNodes(text).Success?
    ensures AllUrlInvariant(TextToTextNodes(text).value)
  {
    if text != "" {
      var start := [TextNode(text, Text, None)];
      assert AllUrlInvariant(start);
      SplitNodesAsWrittenUrls(start, ImageKind);
      var afterImages := ImageLink.SplitNodesImage(start);
      ImageLink.SplitNodesUrls(afterImages, LinkKind);
      var afterLinks := ImageLink.SplitNodesLink(afterImages);
      assert RunPasses(afterLinks, DelimiterPasses) == TextToTextNodes(text);
      DelimiterPassesUntyped();
      RunPassesUrls(afterLinks, DelimiterPasses);
    }
  }

  /** No delimiter pass gives links or images. */
  lemma DelimiterPassesUntyped()
    ensures forall i :: 0 <= i < |DelimiterPasses| ==> DelimiterPasses[i].1 != Link && DelimiterPasses[i].1 != Image
  {
  }

  /** A failing fold reports one of its delimiters as unmatched. */
  lemma {:induction false} RunPassesFailure(nodes: seq<TextNode>, passes: seq<(string, TextType)>)
    requires forall i :: 0 <= i < |passes| ==> passes[i].0 != ""
    requires RunPasses(nodes, passes).Failure?
    ensures var e := RunPasses(nodes, passes).error;
      e.UnmatchedDelimiter? && exists i :: 0 <= i < |passes| && passes[i].0 == e.delimiter
    decreases |passes|
  {
    var next := Delimiter.SplitNodesDelimiter(nodes, passes[0].0, passes[0].1);
    if next.Failure? {
      Delimiter.SplitNodesDelimiterUnmatched(nodes, passes[0].0, passes[0].1);
      assert passes[0].0 == next.error.delimiter;
    } else {
      assert forall i :: 0 <= i < |passes[1..]| ==> passes[1..][i] == passes[i + 1];
      RunPassesFailure(next.value, passes[1..]);
    }
  }

  /** The tokenizer fails only on an unmatched `**`, `*`, `_` or `` ` ``. */
  lemma TextToTextNodesFailure(text: string)
    requires TextToTextNodes(text).Failure?
    ensures var e := TextToTextNodes(text).error;
      e.UnmatchedDelimiter? && e.delimiter in {"**", "*", "_", "`"}
  {
    var afterLinks := ImageLink.SplitNodesLink(ImageLink.SplitNodesImage([TextNode(text, Text, None)]));
    RunPassesFailure(afterLinks, DelimiterPasses);
  }

  /** A string none of whose characters is `d[0]` does not contain `d`. */
  lemma AbsentFirstChar(s: string, d: string)
    requires d != "" && forall k :: 0 <= k < |s| ==> s[k] != d[0]
    ensures !Contains(s, d)
  {
    forall i: nat
      ensures !OccursAt(s, d, i)
    {
      if i < |s| {
        assert s[i + 0] != d[0];
      }
    }
  }

  /** Text the tokenizer has nothing to do with: none of the delimiter characters `*`,
      `_` and the backtick (each of which always splits or raises), and no image or link
      for the extractors to find. A `[` or `!` outside a link or image is ordinary text. */
  predicate Plain(text: string)
  {
    && (forall k :: 0 <= k < |text| ==> text[k] !in {'*', '_', '`'})
    && ExtractMarkdownImages(text) == []
    && ExtractMarkdownLinks(text) == []
  }

  /** Without `[`, neither an image nor a link can open, so text that also lacks the
      delimiter characters is plain. */
  lemma NoBracketIsPlain(text: string)
    requires forall k :: 0 <= k < |text| ==> text[k] !in {'[', '*', '_', '`'}
    ensures Plain(text)
  {
    ScanWithoutOpener(text, 0, ImageKind);
    ScanWithoutOpener(text, 0, LinkKind);
  }

  /** The fold leaves a single plain-text node alone when it holds none of the delimiters. */
  lemma {:induction false} RunPassesPlain(n: TextNode, passes: seq<(string, TextType)>)
    requires n.textType == Text && n.text != ""
    requires forall i :: 0 <= i < |passes| ==> passes[i].0 != "" && !Contains(n.text, passes[i].0)
    ensures RunPasses([n], passes) == Success([n])
    decreases |passes|
  {
    if passes != [] {
      Delimiter.SplitNodesDelimiterUnchanged([n], passes[0].0, passes[0].1);
      assert DropEmptyText([n]) == [n] by {
        assert [n][1..] == [];
      }
      assert forall i :: 0 <= i < |passes[1..]| ==> passes[1..][i] == passes[i + 1];
      RunPassesPlain(n, passes[1..]);
    }
  }

  /** Text without markup characters comes back as one plain-text node. */
  lemma PlainTextIsOneNode(text: string)
    requires text != "" && Plain(text)
    ensures TextToTextNodes(text) == Success([TextNode(text, Text, None)])
  {
    var n := TextNode(text, Text, None);
    PlainPassesUnchanged(n);
    PlainSplitsUnchanged(n);
  }

  /** An exclamation mark that opens no image is ordinary text. */
  lemma ExclamationIsPlain()
    ensures TextToTextNodes("Hello, world!") == Success([TextNode("Hello, world!", Text, None)])
  {
    NoBracketIsPlain("Hello, world!");
    PlainTextIsOneNode("Hello, world!");
  }

  lemma PlainPassesUnchanged(n: TextNode)
    requires n.textType == Text && n.text != "" && Plain(n.text)
    ensures RunPasses([n], DelimiterPasses) == Success([n])
  {
    AbsentFirstChar(n.text, "**");
    AbsentFirstChar(n.text, "*");
    AbsentFirstChar(n.text, "_");
    AbsentFirstChar(n.text, "`");
    RunPassesPlain(n, DelimiterPasses);
  }

  lemma PlainSplitsUnchanged(n: TextNode)
    requires n.textType == Text && n.text != "" && Plain(n.text)
    ensures ImageLink.SplitNodesLink(ImageLink.SplitNodesImage([n])) == [n]
  {
    assert |Pairs(Scan(n.text, 0, ImageKind))| == 0;
    assert |Pairs(Scan(n.text, 0, LinkKind))| == 0;
    assert [n][1..] == [];
    assert ImageLink.SplitNodeAsWritten(n, ImageKind) == [n];
    assert ImageLink.SplitNode(n, LinkKind) == [n];
    assert ImageLink.SplitNodesAsWritten([n], ImageKind) == [n] + [];
    assert ImageLink.SplitNodes([n], LinkKind) == [n] + [];
  }
}
