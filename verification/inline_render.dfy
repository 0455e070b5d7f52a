/** `text_node_to_html_node` (src/htmlnode.py:275-293) and `text_to_children`
    (src/htmlnode.py:661-675): each inline span becomes one leaf of the render tree. */
module InlineRender {
  import opened Wrappers
  import opened Errors
  import opened TextNodes
  import opened HtmlNodes
  import opened Strings
  import Inline

  /** `text_node_to_html_node`: plain text is an untagged leaf, bold, italic and code
      are `b`, `i` and `code` leaves, a link is an `a` leaf with `href`, an image is an
      empty `img` leaf with `src` then `alt`. A link or image without a url is refused. */
  function TextNodeToHtmlNode(n: TextNode): (r: Result<HtmlNode, Error>)
    ensures r.Failure? <==> (n.textType == Link || n.textType == Image) && n.url.None?
    ensures r.Failure? ==> r.error == MissingUrl
    ensures r.Success? ==> r.value.Leaf?
  {
    match n.textType
    case Text => Success(Leaf(None, n.text, []))
    case Bold => Success(Leaf(Some("b"), n.text, []))
    case Italic => Success(Leaf(Some("i"), n.text, []))
    case Code => Success(Leaf(Some("code"), n.text, []))
    case Link =>
      if n.url.None? then Failure(MissingUrl)
      else Success(Leaf(Some("a"), n.text, [("href", n.url.value)]))
    case Image =>
      if n.url.None? then Failure(MissingUrl)
      else Success(Leaf(Some("img"), "", [("src", n.url.value), ("alt", n.text)]))
  }

  /** The HTML a span stands for, written out directly. */
  function SpanHtml(n: TextNode): string
    requires UrlInvariant(n)
  {
    match n.textType
    case Text => n.text
    case Bold => "<b>" + n.text + "</b>"
    case Italic => "<i>" + n.text + "</i>"
    case Code => "<code>" + n.text + "</code>"
    case Link => "<a href=\"" + n.url.value + "\">" + n.text + "</a>"
    case Image => "<img src=\"" + n.url.value + "\" alt=\"" + n.text + "\"></img>"
  }

  /** A span keeping the url invariant converts, and its leaf serializes to the span's
      HTML: the text verbatim, or wrapped in its tag with the url attributes in order. */
  lemma TextNodeHtml(n: TextNode)
    requires UrlInvariant(n)
    ensures TextNodeToHtmlNode(n).Success?
    ensures ToHtml(TextNodeToHtmlNode(n).value) == SpanHtml(n)
  {
    if n.textType == Link {
      LinkSpan(n);
    } else if n.textType == Image {
      ImageSpan(n);
    } else if n.textType != Text {
      TaggedSpan(n);
    }
  }

  lemma LinkSpan(n: TextNode)
    requires n.textType == Link && n.url.Some?
    ensures TextNodeToHtmlNode(n).Success?
    ensures ToHtml(TextNodeToHtmlNode(n).value) == SpanHtml(n)
  {
    LinkHtml(n.text, n.url.value);
  }

  lemma ImageSpan(n: TextNode)
    requires n.textType == Image && n.url.Some?
    ensures TextNodeToHtmlNode(n).Success?
    ensures ToHtml(TextNodeToHtmlNode(n).value) == SpanHtml(n)
  {
    ImageHtml(n.text, n.url.value);
  }

  lemma TaggedSpan(n: TextNode)
    requires n.textType in {Bold, Italic, TextType.Code} && n.url.None?
    ensures TextNodeToHtmlNode(n).Success?
    ensures ToHtml(TextNodeToHtmlNode(n).value) == SpanHtml(n)
  {
    if n.textType == Bold {
      FusedTagHtml("b", n.text, "<b>", "</b>");
    } else if n.textType == Italic {
      FusedTagHtml("i", n.text, "<i>", "</i>");
    } else {
      FusedTagHtml("code", n.text, "<code>", "</code>");
    }
  }

  lemma FusedTagHtml(tag: string, text: string, open: string, close: string)
    requires open == "<" + tag + ">" && close == "</" + tag + ">"
    ensures ToHtml(Leaf(Some(tag), text, [])) == open + text + close
  {
    TagHtml(tag, text);
    Wrap("<", tag, ">", text, "</", tag, ">", open, close);
  }

  lemma TagHtml(tag: string, text: string)
    ensures ToHtml(Leaf(Some(tag), text, [])) == "<" + tag + ">" + text + "</" + tag + ">"
  {
    assert PropsToHtml([]) == "";
    assert "<" + tag + "" == "<" + tag;
  }

  lemma LinkHtml(text: string, url: string)
    ensures ToHtml(Leaf(Some("a"), text, [("href", url)])) == "<a href=\"" + url + "\">" + text + "</a>"
  {
    PropsToHtmlSingle("href", url);
    assert "<" + "a" + " " + "href" + "=\"" == "<a href=\"";
    assert "\"" + ">" == "\">";
    assert "</" + "a" + ">" == "</a>";
  }

  lemma ImageHtml(text: string, url: string)
    ensures ToHtml(Leaf(Some("img"), "", [("src", url), ("alt", text)]))
      == "<img src=\"" + url + "\" alt=\"" + text + "\"></img>"
  {
    ImageProps(text, url);
    assert "<" + "img" + " src=\"" == "<img src=\"";
    assert "\"" + ">" + "" + "</" + "img" + ">" == "\"></img>";
  }

  lemma ImageProps(text: string, url: string)
    ensures PropsToHtml([("src", url), ("alt", text)]) == " src=\"" + url + "\" alt=\"" + text + "\""
  {
    var src := [("src", url)];
    var alt := [("alt", text)];
    assert [("src", url), ("alt", text)] == src + alt;
    PropsToHtmlAppend(src, alt);
    PropsToHtmlSingle("src", url);
    PropsToHtmlSingle("alt", text);
    assert " " + "src" + "=\"" == " src=\"";
    assert "\"" + " " + "alt" + "=\"" == "\" alt=\"";
  }

  /** The spans converted in order; the first failing span stops the conversion. */
  function NodesToHtml(nodes: seq<TextNode>): Result<seq<HtmlNode>, Error>
  {
    if nodes == [] then Success([])
    else
      var head :- TextNodeToHtmlNode(nodes[0]);
      var tail :- NodesToHtml(nodes[1..]);
      Success([head] + tail)
  }

  /** The spans' HTML, concatenated. */
  function SpansHtml(nodes: seq<TextNode>): string
    requires AllUrlInvariant(nodes)
  {
    if nodes == [] then "" else SpanHtml(nodes[0]) + SpansHtml(nodes[1..])
  }

  /** Spans keeping the url invariant all convert, one leaf per span in order, and the
      leaves serialize to the spans' HTML. */
  lemma {:induction false} NodesToHtmlUrls(nodes: seq<TextNode>)
    requires AllUrlInvariant(nodes)
    ensures NodesToHtml(nodes).Success?
    ensures |NodesToHtml(nodes).value| == |nodes|
    ensures ChildrenToHtml(NodesToHtml(nodes).value) == SpansHtml(nodes)
  {
    if nodes != [] {
      assert UrlInvariant(nodes[0]);
      TextNodeHtml(nodes[0]);
      assert AllUrlInvariant(nodes[1..]);
      NodesToHtmlUrls(nodes[1..]);
      var head := TextNodeToHtmlNode(nodes[0]).value;
      var tail := NodesToHtml(nodes[1..]).value;
      assert ([head] + tail)[0] == head && ([head] + tail)[1..] == tail;
    }
  }

  /** Each converted leaf is the conversion of the span at the same position. */
  lemma {:induction false} NodesToHtmlAt(nodes: seq<TextNode>, i: nat)
    requires NodesToHtml(nodes).Success? && i < |nodes|
    ensures i < |NodesToHtml(nodes).value|
    ensures TextNodeToHtmlNode(nodes[i]).Success?
    ensures NodesToHtml(nodes).value[i] == TextNodeToHtmlNode(nodes[i]).value
  {
    if i > 0 {
      NodesToHtmlAt(nodes[1..], i - 1);
    }
  }

  /** `text_to_children`: tokenize, then convert each span. */
  function TextToChildren(text: string): Result<seq<HtmlNode>, Error>
  {
    SpansToChildren(Inline.TextToTextNodes(text))
  }

  /** The tokenizer's error, or its spans converted. */
  function SpansToChildren(spans: Result<seq<TextNode>, Error>): Result<seq<HtmlNode>, Error>
  {
    var nodes :- spans;
    NodesToHtml(nodes)
  }

  /** Conversion never raises its missing-url error on tokenizer output: the children
      exist exactly when the tokenizer succeeds, one per span, serializing to the spans'
      HTML; otherwise the tokenizer's error is reported. */
  lemma TextToChildrenOutcome(text: string)
    ensures TextToChildren(text).Success? <==> Inline.TextToTextNodes(text).Success?
    ensures TextToChildren(text).Failure? ==> TextToChildren(text).error == Inline.TextToTextNodes(text).error
    ensures TextToChildren(text).Success? ==>
      var nodes := Inline.TextToTextNodes(text).value;
      AllUrlInvariant(nodes)
      && |TextToChildren(text).value| == |nodes|
      && ChildrenToHtml(TextToChildren(text).value) == SpansHtml(nodes)
  {
    if Inline.TextToTextNodes(text).Success? {
      Inline.TextToTextNodesUrls(text);
      NodesToHtmlUrls(Inline.TextToTextNodes(text).value);
    }
  }

  /** Text without markup becomes a single untagged leaf holding it. */
  lemma PlainTextChildren(text: string)
    requires text != "" && Inline.Plain(text)
    ensures TextToChildren(text) == Success([Leaf(None, text, [])])
  {
    Inline.PlainTextIsOneNode(text);
    SingleSpanChildren(text, TextNode(text, Text, None));
  }

  lemma SingleSpanChildren(text: string, n: TextNode)
    requires Inline.TextToTextNodes(text) == Success([n])
    requires TextNodeToHtmlNode(n).Success?
    ensures TextToChildren(text) == Success([TextNodeToHtmlNode(n).value])
  {
    NodesToHtmlSingle(n);
    assert SpansToChildren(Success([n])) == NodesToHtml([n]);
  }

  lemma NodesToHtmlSingle(n: TextNode)
    requires TextNodeToHtmlNode(n).Success?
    ensures NodesToHtml([n]) == Success([TextNodeToHtmlNode(n).value])
  {
    assert [n][1..] == [];
    assert NodesToHtml([]) == Success([]);
    assert [TextNodeToHtmlNode(n).value] + [] == [TextNodeToHtmlNode(n).value];
  }
}
