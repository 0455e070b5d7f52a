/** The value types of src/textnode.py: the two kind enumerations and the inline span
    `TextNode(text, text_type, url=None)` with structural equality. */
module TextNodes {
  import opened Wrappers

  /** The kind of an inline span. */
  datatype TextType = Text | Bold | Italic | Code | Link | Image

  /** The kind of a block. */
  datatype BlockType = Paragraph | Heading | Code | Quote | UnorderedList | OrderedList

  /** The string each `TextType` member carries as its enum value. */
  function TextTypeValue(t: TextType): string
  {
    match t
    case Text => "text"
    case Bold => "bold"
    case Italic => "italic"
    case Code => "code"
    case Link => "link"
    case Image => "image"
  }

  /** The string each `BlockType` member carries as its enum value. */
  function BlockTypeValue(b: BlockType): string
  {
    match b
    case Paragraph => "paragraph"
    case Heading => "heading"
    case Code => "code"
    case Quote => "quote"
    case UnorderedList => "unordered_list"
    case OrderedList => "ordered_list"
  }

  /** Position of a member in its enumeration's declaration. */
  function TextTypeOrdinal(t: TextType): nat
  {
    match t
    case Text => 0
    case Bold => 1
    case Italic => 2
    case Code => 3
    case Link => 4
    case Image => 5
  }

  /** Position of a member in its enumeration's declaration. */
  function BlockTypeOrdinal(b: BlockType): nat
  {
    match b
    case Paragraph => 0
    case Heading => 1
    case Code => 2
    case Quote => 3
    case UnorderedList => 4
    case OrderedList => 5
  }

  /** The members of `TextType`, in declaration order: six of them, all distinct. */
  function AllTextTypes(): (r: seq<TextType>)
    ensures |r| == 6
    ensures forall t: TextType :: TextTypeOrdinal(t) < |r| && r[TextTypeOrdinal(t)] == t
    ensures forall i, j :: 0 <= i < j < |r| ==> TextTypeValue(r[i]) != TextTypeValue(r[j])
  {
    var r := [Text, Bold, Italic, TextType.Code, Link, Image];
    r
  }

  /** The members of `BlockType`, in declaration order: six of them, all distinct. */
  function AllBlockTypes(): (r: seq<BlockType>)
    ensures |r| == 6
    ensures forall b: BlockType :: BlockTypeOrdinal(b) < |r| && r[BlockTypeOrdinal(b)] == b
    ensures forall i, j :: 0 <= i < j < |r| ==> BlockTypeValue(r[i]) != BlockTypeValue(r[j])
  {
    var r := [Paragraph, Heading, BlockType.Code, Quote, UnorderedList, OrderedList];
    r
  }

  /** An inline span: its text, its kind, and the url a link or image points at. */
  datatype TextNode = TextNode(text: string, textType: TextType, url: Option<string>)

  /** The constructor `TextNode(text, text_type, url=None)`, with the url defaulting to absent. */
  function NewTextNode(text: string, textType: TextType, url: Option<string> := None): (n: TextNode)
    ensures n.text == text && n.textType == textType && n.url == url
  {
    TextNode(text, textType, url)
  }

  /** `TextNode.__eq__` between two text nodes: all three fields agree. */
  predicate Equal(a: TextNode, b: TextNode)
  {
    a.text == b.text && a.textType == b.textType && a.url == b.url
  }

  /** `__eq__` is exactly value equality of the datatype. */
  lemma EqualIffSameFields(a: TextNode, b: TextNode)
    ensures Equal(a, b) <==> a == b
  {
  }

  /** Leaving the url out and passing `None` build equal nodes. */
  lemma DefaultUrlIsNone(text: string, textType: TextType)
    ensures Equal(NewTextNode(text, textType), NewTextNode(text, textType, None))
    ensures NewTextNode(text, textType).url.None?
  {
  }

  /** Nodes that differ only in kind are unequal. */
  lemma KindDistinguishes(text: string, a: TextType, b: TextType, url: Option<string>)
    requires a != b
    ensures !Equal(NewTextNode(text, a, url), NewTextNode(text, b, url))
  {
  }

  /** A link with a url is unequal to the same link without one. */
  lemma UrlDistinguishes(text: string, url: string)
    ensures !Equal(NewTextNode(text, Link, Some(url)), NewTextNode(text, Link))
  {
  }

  /** Links and images carry a url, and no other kind does. */
  predicate UrlInvariant(n: TextNode)
  {
    (n.textType == Link || n.textType == Image) <==> n.url.Some?
  }

  /** Every node of `nodes` keeps `UrlInvariant`. */
  predicate AllUrlInvariant(nodes: seq<TextNode>)
  {
    forall i :: 0 <= i < |nodes| ==> UrlInvariant(nodes[i])
  }

  /** The invariant holds of a concatenation exactly when it holds of both parts. */
  lemma AllUrlInvariantAppend(a: seq<TextNode>, b: seq<TextNode>)
    ensures AllUrlInvariant(a + b) <==> AllUrlInvariant(a) && AllUrlInvariant(b)
  {
    if AllUrlInvariant(a) && AllUrlInvariant(b) {
      forall i | 0 <= i < |a + b|
        ensures UrlInvariant((a + b)[i])
      {
        if i >= |a| {
          assert (a + b)[i] == b[i - |a|];
        }
      }
    }
    if AllUrlInvariant(a + b) {
      forall i | 0 <= i < |a|
        ensures UrlInvariant(a[i])
      {
        assert (a + b)[i] == a[i];
      }
      forall i | 0 <= i < |b|
        ensures UrlInvariant(b[i])
      {
        assert (a + b)[|a| + i] == b[i];
      }
    }
  }

  /** The nodes other than empty plain-text ones, in order. */
  function DropEmptyText(nodes: seq<TextNode>): seq<TextNode>
  {
    if nodes == [] then []
    else (if nodes[0].textType == Text && nodes[0].text == "" then [] else [nodes[0]]) + DropEmptyText(nodes[1..])
  }
}
