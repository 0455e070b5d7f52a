/** The render tree of src/htmlnode.py: `LeafNode` and `ParentNode`, their constructors'
    checks, `props_to_html` and the recursive `to_html` serializer. No escaping is done:
    values and attribute values are copied into the output verbatim. */
module HtmlNodes {
  import opened Wrappers
  import opened Errors

  /** One attribute, name and value; a node's attributes keep insertion order. */
  type Prop = (string, string)

  /** A render node. A leaf without a tag is raw text. A parent always has a tag and a
      (possibly empty) list of children: the constructor checks below make a parent
      without either unrepresentable. */
  datatype HtmlNode =
    | Leaf(leafTag: Option<string>, value: string, props: seq<Prop>)
    | Parent(tag: string, children: seq<HtmlNode>, props: seq<Prop>)

  /** Python's `props=None` renders like an empty dict. */
  function PropsOrEmpty(props: Option<seq<Prop>>): seq<Prop>
  {
    match props
    case None => []
    case Some(p) => p
  }

  /** `LeafNode(tag, value, props=None)`: refuses a missing value. */
  function NewLeaf(tag: Option<string>, value: Option<string>, props: Option<seq<Prop>> := None): (r: Result<HtmlNode, Error>)
    ensures r.Failure? <==> value.None?
    ensures r.Failure? ==> r.error == LeafWithoutValue
    ensures r.Success? ==> r.value == Leaf(tag, value.value, PropsOrEmpty(props))
  {
    match value
    case None => Failure(LeafWithoutValue)
    case Some(v) => Success(Leaf(tag, v, PropsOrEmpty(props)))
  }

  /** `ParentNode(tag, children, props=None)`: refuses a missing tag first, then a
      missing children list; an empty list is accepted. */
  function NewParent(tag: Option<string>, children: Option<seq<HtmlNode>>, props: Option<seq<Prop>> := None): (r: Result<HtmlNode, Error>)
    ensures r.Failure? <==> tag.None? || children.None?
    ensures tag.None? ==> r == Failure(ParentWithoutTag)
    ensures tag.Some? && children.None? ==> r == Failure(ParentWithoutChildren)
    ensures r.Success? ==> r.value == Parent(tag.value, children.value, PropsOrEmpty(props))
  {
    if tag.None? then Failure(ParentWithoutTag)
    else if children.None? then Failure(ParentWithoutChildren)
    else Success(Parent(tag.value, children.value, PropsOrEmpty(props)))
  }

  /** `props_to_html`: ` name="value"` for each attribute, in order. */
  function PropsToHtml(props: seq<Prop>): (r: string)
    ensures r == "" <==> props == []
    ensures r != "" ==> r[0] == ' '
  {
    if props == [] then ""
    else " " + props[0].0 + "=\"" + props[0].1 + "\"" + PropsToHtml(props[1..])
  }

  /** Attributes render independently of each other, in insertion order. */
  lemma {:induction false} PropsToHtmlAppend(a: seq<Prop>, b: seq<Prop>)
    ensures PropsToHtml(a + b) == PropsToHtml(a) + PropsToHtml(b)
  {
    if a == [] {
      assert a + b == b;
    } else {
      assert (a + b)[0] == a[0] && (a + b)[1..] == a[1..] + b;
      PropsToHtmlAppend(a[1..], b);
    }
  }

  /** An element with opening tag, attributes, content and closing tag. */
  function Element(tag: string, props: seq<Prop>, content: string): string
  {
    "<" + tag + PropsToHtml(props) + ">" + content + "</" + tag + ">"
  }

  /** `to_html`: an untagged leaf is its value verbatim; a tagged leaf wraps its value,
      a parent wraps the concatenation of its children's HTML. */
  function ToHtml(n: HtmlNode): (r: string)
    ensures n.Leaf? && n.leafTag.None? ==> r == n.value
    decreases n
  {
    match n
    case Leaf(None, v, _) => v
    case Leaf(Some(t), v, p) => Element(t, p, v)
    case Parent(t, cs, p) => Element(t, p, ChildrenToHtml(cs))
  }

  /** The children of a parent, serialized one after the other with no separator. */
  function ChildrenToHtml(cs: seq<HtmlNode>): string
    decreases cs
  {
    if cs == [] then "" else ToHtml(cs[0]) + ChildrenToHtml(cs[1..])
  }

  /** A parent's content is the in-order concatenation of its children's output. */
  lemma {:induction false} ChildrenToHtmlAppend(a: seq<HtmlNode>, b: seq<HtmlNode>)
    ensures ChildrenToHtml(a + b) == ChildrenToHtml(a) + ChildrenToHtml(b)
  {
    if a == [] {
      assert a + b == b;
    } else {
      assert (a + b)[0] == a[0] && (a + b)[1..] == a[1..] + b;
      ChildrenToHtmlAppend(a[1..], b);
    }
  }

  /** A parent with no children renders as an empty element. */
  lemma EmptyParent(tag: string)
    ensures ToHtml(Parent(tag, [], [])) == "<" + tag + "></" + tag + ">"
  {
  }

  /** A tagged leaf wraps its value; an untagged one is the value itself. */
  lemma LeafExamples()
    ensures ToHtml(Leaf(Some("p"), "Hello, world!", [])) == "<p>Hello, world!</p>"
    ensures ToHtml(Leaf(None, "Just some text", [])) == "Just some text"
  {
  }

  /** A single attribute renders as one space, the name, `=` and the quoted value. */
  lemma PropsToHtmlSingle(name: string, value: string)
    ensures PropsToHtml([(name, value)]) == " " + name + "=\"" + value + "\""
  {
    assert [(name, value)][1..] == [];
  }

  /** A parent with a single child wraps exactly that child's output. */
  lemma SingleChild(tag: string, child: HtmlNode, props: seq<Prop>)
    ensures ToHtml(Parent(tag, [child], props)) == Element(tag, props, ToHtml(child))
  {
    assert [child][1..] == [];
    assert ChildrenToHtml([child]) == ToHtml(child) + "";
    assert ToHtml(child) + "" == ToHtml(child);
  }
}
