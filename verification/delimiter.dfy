/** `split_nodes_delimiter` (src/htmlnode.py:296-359): one pass of the inline tokenizer
    that cuts every plain-text node at each occurrence of a delimiter and gives the
    fragments between delimiter pairs the pass's kind. */
module Delimiter {
  import opened Wrappers
  import opened Errors
  import opened Strings
  import opened TextNodes

  /** The nodes the section at index `i` (of `count` sections) contributes: a section
      inside a delimiter pair becomes a node of `textType` even when empty; an empty
      section outside the pairs becomes an empty `textType` node when it sits strictly
      between two delimiters and nothing at either end; any other section becomes
      plain text. */
  function SectionNodes(section: string, i: nat, count: nat, textType: TextType): seq<TextNode>
  {
    if i % 2 != 0 then [TextNode(section, textType, None)]
    else if section == "" && 0 < i && i + 1 < count then [TextNode("", textType, None)]
    else if section != "" then [TextNode(section, Text, None)]
    else []
  }

  /** The contributions of `sections[from..]`, in order. */
  function SectionsToNodes(sections: seq<string>, from: nat, textType: TextType): seq<TextNode>
    decreases |sections| - from
  {
    if from >= |sections| then []
    else SectionNodes(sections[from], from, |sections|, textType) + SectionsToNodes(sections, from + 1, textType)
  }

  /** The node section `j` becomes when it becomes one: of kind `textType` when it sits
      inside a delimiter pair or is empty, plain text otherwise. */
  function SectionNode(sections: seq<string>, j: nat, textType: TextType): TextNode
    requires j < |sections|
  {
    TextNode(sections[j], if j % 2 == 1 || sections[j] == "" then textType else Text, None)
  }

  /** Every section strictly after the first contributes exactly one node, except an
      empty last section, which contributes none. */
  lemma {:induction false} SectionsFromInterior(sections: seq<string>, from: nat, textType: TextType, hi: nat)
    requires |sections| % 2 == 1 && 1 <= from <= |sections| - 1
    requires hi == if sections[|sections| - 1] == "" then |sections| - 1 else |sections|
    ensures |SectionsToNodes(sections, from, textType)| == hi - from
    ensures forall k :: 0 <= k < hi - from ==>
      SectionsToNodes(sections, from, textType)[k] == SectionNode(sections, from + k, textType)
    decreases |sections| - from
  {
    if from == |sections| - 1 {
      LastSectionNodes(sections, textType, from);
    } else {
      SectionsFromInterior(sections, from + 1, textType, hi);
      InteriorSectionNode(sections, from, textType);
      var rest := SectionsToNodes(sections, from + 1, textType);
      assert SectionsToNodes(sections, from, textType) == [SectionNode(sections, from, textType)] + rest;
      ConsPositions(SectionsToNodes(sections, from, textType), SectionNode(sections, from, textType), rest);
      assert |rest| == hi - (from + 1);
    }
  }

  /** Each element of a cons past the head is the tail's element one position back. */
  lemma ConsPositions(r: seq<TextNode>, head: TextNode, rest: seq<TextNode>)
    requires r == [head] + rest
    ensures |r| == |rest| + 1 && r[0] == head
    ensures forall k :: 0 < k < |r| ==> r[k] == rest[k - 1]
  {
  }

  /** A section strictly inside the list becomes exactly its `SectionNode`. */
  lemma InteriorSectionNode(sections: seq<string>, from: nat, textType: TextType)
    requires 1 <= from < |sections| - 1
    ensures SectionNodes(sections[from], from, |sections|, textType) == [SectionNode(sections, from, textType)]
  {
  }

  /** The last section of an odd-length list lies outside every pair: it becomes a
      plain-text node, or nothing when it is empty. */
  lemma LastSectionNodes(sections: seq<string>, textType: TextType, last: nat)
    requires |sections| % 2 == 1 && |sections| >= 2 && last == |sections| - 1
    ensures sections[last] == "" ==> SectionsToNodes(sections, last, textType) == []
    ensures sections[last] != "" ==> SectionsToNodes(sections, last, textType) == [SectionNode(sections, last, textType)]
  {
    assert SectionsToNodes(sections, last + 1, textType) == [];
    assert last % 2 == 0;
  }

  /** The balanced split, position by position: dropping an empty first and an empty
      last section, the k-th node is `SectionNode` of the k-th remaining section. */
  lemma SectionsToNodesPositions(sections: seq<string>, textType: TextType)
    requires |sections| >= 3 && |sections| % 2 == 1
    ensures var lo := if sections[0] == "" then 1 else 0;
      var hi := if sections[|sections| - 1] == "" then |sections| - 1 else |sections|;
      var r := SectionsToNodes(sections, 0, textType);
      |r| == hi - lo && forall k :: 0 <= k < |r| ==> r[k] == SectionNode(sections, lo + k, textType)
  {
    var hi := if sections[|sections| - 1] == "" then |sections| - 1 else |sections|;
    SectionsFromInterior(sections, 1, textType, hi);
  }

  /** The concatenated texts of a node list. */
  function Texts(nodes: seq<TextNode>): string
  {
    if nodes == [] then "" else nodes[0].text + Texts(nodes[1..])
  }

  lemma {:induction false} TextsAppend(a: seq<TextNode>, b: seq<TextNode>)
    ensures Texts(a + b) == Texts(a) + Texts(b)
  {
    if a == [] {
      assert a + b == b;
    } else {
      assert (a + b)[0] == a[0] && (a + b)[1..] == a[1..] + b;
      TextsAppend(a[1..], b);
    }
  }

  /** No text is lost or added: the node texts, concatenated, are the sections
      concatenated, that is, the original text with every delimiter removed. */
  lemma {:induction false} SectionsKeepText(sections: seq<string>, from: nat, textType: TextType)
    requires from <= |sections|
    ensures Texts(SectionsToNodes(sections, from, textType)) == Join(sections[from..], "")
    decreases |sections| - from
  {
    if from < |sections| {
      SectionsKeepText(sections, from + 1, textType);
      var head := SectionNodes(sections[from], from, |sections|, textType);
      TextsAppend(head, SectionsToNodes(sections, from + 1, textType));
      SectionNodesText(sections[from], from, |sections|, textType);
      JoinEmptyStep(sections, from);
    }
  }

  /** A section's nodes carry exactly the section's text. */
  lemma SectionNodesText(section: string, i: nat, count: nat, textType: TextType)
    ensures Texts(SectionNodes(section, i, count, textType)) == section
  {
    var nodes := SectionNodes(section, i, count, textType);
    if nodes != [] {
      assert nodes[1..] == [];
    }
  }

  /** Joining with nothing between: the first part, then the rest joined. */
  lemma JoinEmptyStep(parts: seq<string>, from: nat)
    requires from < |parts|
    ensures Join(parts[from..], "") == parts[from] + Join(parts[from + 1..], "")
  {
    var tail := parts[from..];
    assert tail[0] == parts[from] && tail[1..] == parts[from + 1..];
    if |tail| == 1 {
      assert parts[from + 1..] == [];
      assert parts[from] + "" == parts[from];
    }
  }

  /** `split_nodes_delimiter` on one node. */
  function SplitNode(node: TextNode, delimiter: string, textType: TextType): (r: Result<seq<TextNode>, Error>)
    ensures node.textType != Text ==> r == Success([node])
    ensures node.textType == Text && node.text == "" ==> r == Success([])
    ensures node.textType == Text && node.text != "" && delimiter != "" && !Contains(node.text, delimiter)
      ==> r == Success([node])
    ensures r.Failure? <==>
      node.textType == Text && node.text != "" && (delimiter == "" || |Split(node.text, delimiter)| % 2 == 0)
    ensures r.Failure? ==>
      r.error == if delimiter == "" then EmptySeparator else UnmatchedDelimiter(delimiter, node.text)
  {
    if node.textType != Text then Success([node])
    else if node.text == "" then Success([])
    else if delimiter == "" then Failure(EmptySeparator)
    else
      var sections := Split(node.text, delimiter);
      if |sections| == 1 then Success([node])
      else if |sections| % 2 == 0 then Failure(UnmatchedDelimiter(delimiter, node.text))
      else Success(SectionsToNodes(sections, 0, textType))
  }

  /** `split_nodes_delimiter`: each node split in turn, the first failing node's error
      surfacing. */
  function SplitNodesDelimiter(nodes: seq<TextNode>, delimiter: string, textType: TextType): Result<seq<TextNode>, Error>
    decreases |nodes|
  {
    if nodes == [] then Success([])
    else
      var head :- SplitNode(nodes[0], delimiter, textType);
      var tail :- SplitNodesDelimiter(nodes[1..], delimiter, textType);
      Success(head + tail)
  }

  /** Two results in sequence: the first failure, or both values concatenated. */
  function Then(x: Result<seq<TextNode>, Error>, y: Result<seq<TextNode>, Error>): Result<seq<TextNode>, Error>
  {
    if x.Failure? then x else if y.Failure? then y else Success(x.value + y.value)
  }

  lemma ThenAssociative(x: Result<seq<TextNode>, Error>, y: Result<seq<TextNode>, Error>, z: Result<seq<TextNode>, Error>)
    ensures Then(x, Then(y, z)) == Then(Then(x, y), z)
  {
    if x.Success? && y.Success? && z.Success? {
      assert x.value + (y.value + z.value) == (x.value + y.value) + z.value;
    }
  }

  lemma SplitNodesDelimiterUnfold(nodes: seq<TextNode>, delimiter: string, textType: TextType)
    requires nodes != []
    ensures SplitNodesDelimiter(nodes, delimiter, textType)
      == Then(SplitNode(nodes[0], delimiter, textType), SplitNodesDelimiter(nodes[1..], delimiter, textType))
  {
  }

  /** The pass succeeds exactly when every node splits. */
  lemma {:induction false} SplitNodesDelimiterSucceeds(nodes: seq<TextNode>, delimiter: string, textType: TextType)
    ensures SplitNodesDelimiter(nodes, delimiter, textType).Success?
      <==> forall i :: 0 <= i < |nodes| ==> SplitNode(nodes[i], delimiter, textType).Success?
    decreases |nodes|
  {
    if nodes != [] {
      SplitNodesDelimiterSucceeds(nodes[1..], delimiter, textType);
      SplitNodesDelimiterUnfold(nodes, delimiter, textType);
      if SplitNode(nodes[0], delimiter, textType).Success? {
        forall i | 0 < i < |nodes|
          ensures SplitNode(nodes[i], delimiter, textType) == SplitNode(nodes[1..][i - 1], delimiter, textType)
        {
          assert nodes[i] == nodes[1..][i - 1];
        }
      }
    }
  }

  /** When the pass fails, the error is that of the first node that does not split. */
  lemma {:induction false} SplitNodesDelimiterFirstFailure(nodes: seq<TextNode>, delimiter: string, textType: TextType)
    requires SplitNodesDelimiter(nodes, delimiter, textType).Failure?
    ensures exists i ::
      && 0 <= i < |nodes|
      && SplitNode(nodes[i], delimiter, textType) == Failure(SplitNodesDelimiter(nodes, delimiter, textType).error)
      && (forall j :: 0 <= j < i ==> SplitNode(nodes[j], delimiter, textType).Success?)
    decreases |nodes|
  {
    SplitNodesDelimiterUnfold(nodes, delimiter, textType);
    var h := SplitNode(nodes[0], delimiter, textType);
    if h.Failure? {
      assert SplitNode(nodes[0], delimiter, textType) == Failure(h.error);
    } else {
      var rt := SplitNodesDelimiter(nodes[1..], delimiter, textType);
      SplitNodesDelimiterFirstFailure(nodes[1..], delimiter, textType);
      var i :| 0 <= i < |nodes[1..]| && SplitNode(nodes[1..][i], delimiter, textType) == Failure(rt.error)
          && forall j :: 0 <= j < i ==> SplitNode(nodes[1..][j], delimiter, textType).Success?;
      assert SplitNode(nodes[i + 1], delimiter, textType) == Failure(rt.error) by {
        assert nodes[i + 1] == nodes[1..][i];
      }
      ShiftAll(nodes, n => SplitNode(n, delimiter, textType).Success?, i);
    }
  }

  /** A property of the head and of the first `i` elements of the tail holds of the
      first `i + 1` elements. */
  lemma ShiftAll<T>(xs: seq<T>, ok: T -> bool, i: nat)
    requires i < |xs| && ok(xs[0])
    requires forall j :: 0 <= j < i ==> ok(xs[1..][j])
    ensures forall j :: 0 <= j < i + 1 ==> ok(xs[j])
  {
    forall j | 1 <= j < i + 1
      ensures ok(xs[j])
    {
      assert xs[j] == xs[1..][j - 1];
    }
  }

  /** A failing pass with a non-empty delimiter reports that delimiter unmatched. */
  lemma SplitNodesDelimiterUnmatched(nodes: seq<TextNode>, delimiter: string, textType: TextType)
    requires delimiter != ""
    requires SplitNodesDelimiter(nodes, delimiter, textType).Failure?
    ensures var e := SplitNodesDelimiter(nodes, delimiter, textType).error;
      e.UnmatchedDelimiter? && e.delimiter == delimiter
  {
    SplitNodesDelimiterFirstFailure(nodes, delimiter, textType);
  }

  /** The pass distributes over concatenation of its input: the output keeps input
      order, and the first failure in input order is the one reported. */
  lemma {:induction false} SplitNodesDelimiterAppend(a: seq<TextNode>, b: seq<TextNode>, delimiter: string, textType: TextType)
    ensures SplitNodesDelimiter(a + b, delimiter, textType)
      == Then(SplitNodesDelimiter(a, delimiter, textType), SplitNodesDelimiter(b, delimiter, textType))
    decreases |a|
  {
    if a == [] {
      assert a + b == b;
      var rb := SplitNodesDelimiter(b, delimiter, textType);
      assert rb.Success? ==> [] + rb.value == rb.value;
    } else {
      assert (a + b)[0] == a[0] && (a + b)[1..] == a[1..] + b;
      SplitNodesDelimiterAppend(a[1..], b, delimiter, textType);
      SplitNodesDelimiterUnfold(a + b, delimiter, textType);
      SplitNodesDelimiterUnfold(a, delimiter, textType);
      ThenAssociative(SplitNode(a[0], delimiter, textType), SplitNodesDelimiter(a[1..], delimiter, textType),
        SplitNodesDelimiter(b, delimiter, textType));
    }
  }

  /** Where no plain-text node holds the delimiter, the pass only drops the empty
      plain-text nodes and keeps everything else as it was, in order. */
  lemma {:induction false} SplitNodesDelimiterUnchanged(nodes: seq<TextNode>, delimiter: string, textType: TextType)
    requires delimiter != ""
    requires forall i :: 0 <= i < |nodes| ==> nodes[i].textType != Text || !Contains(nodes[i].text, delimiter)
    ensures SplitNodesDelimiter(nodes, delimiter, textType) == Success(DropEmptyText(nodes))
    decreases |nodes|
  {
    if nodes != [] {
      SplitNodesDelimiterUnchanged(nodes[1..], delimiter, textType);
    }
  }

  /** One node split by a pass whose kind is neither link nor image keeps the url
      invariant: every node it produces is either the input node or a fresh node
      without a url. */
  lemma SplitNodeUrls(node: TextNode, delimiter: string, textType: TextType)
    requires textType != Link && textType != Image
    requires UrlInvariant(node)
    requires SplitNode(node, delimiter, textType).Success?
    ensures AllUrlInvariant(SplitNode(node, delimiter, textType).value)
  {
    if node.textType == Text && node.text != "" && delimiter != "" {
      var sections := Split(node.text, delimiter);
      if |sections| != 1 {
        SectionsUrls(sections, 0, textType);
      }
    }
  }

  /** The sections' nodes carry no url and are neither links nor images. */
  lemma {:induction false} SectionsUrls(sections: seq<string>, from: nat, textType: TextType)
    requires textType != Link && textType != Image
    ensures AllUrlInvariant(SectionsToNodes(sections, from, textType))
    decreases |sections| - from
  {
    if from < |sections| {
      SectionsUrls(sections, from + 1, textType);
      var head := SectionNodes(sections[from], from, |sections|, textType);
      assert AllUrlInvariant(head);
      assert SectionsToNodes(sections, from, textType) == head + SectionsToNodes(sections, from + 1, textType);
    }
  }

  /** A pass whose kind is neither link nor image keeps the url invariant. */
  lemma {:induction false} SplitNodesDelimiterUrls(nodes: seq<TextNode>, delimiter: string, textType: TextType)
    requires textType != Link && textType != Image
    requires AllUrlInvariant(nodes)
    requires SplitNodesDelimiter(nodes, delimiter, textType).Success?
    ensures AllUrlInvariant(SplitNodesDelimiter(nodes, delimiter, textType).value)
    decreases |nodes|
  {
    if nodes != [] {
      assert UrlInvariant(nodes[0]);
      SplitNodeUrls(nodes[0], delimiter, textType);
      SplitNodesDelimiterUrls(nodes[1..], delimiter, textType);
      var head := SplitNode(nodes[0], delimiter, textType).value;
      var tail := SplitNodesDelimiter(nodes[1..], delimiter, textType).value;
      assert SplitNodesDelimiter(nodes, delimiter, textType).value == head + tail;
    }
  }

  /** Splitting a plain-text node loses no text: the produced texts, concatenated, are
      the node's text with every delimiter removed, and putting the delimiters back
      between the sections gives the original text. */
  lemma SplitNodeKeepsText(node: TextNode, delimiter: string, textType: TextType)
    requires node.textType == Text && delimiter != ""
    requires SplitNode(node, delimiter, textType).Success?
    ensures Texts(SplitNode(node, delimiter, textType).value) == Join(Split(node.text, delimiter), "")
    ensures Join(Split(node.text, delimiter), delimiter) == node.text
  {
    var sections := Split(node.text, delimiter);
    if node.text == "" {
      assert Split(node.text, delimiter) == [""] by {
        assert !Contains(node.text, delimiter);
        SplitNoSeparator(node.text, delimiter);
      }
    } else if |sections| == 1 {
      assert [node][1..] == [];
    } else {
      SectionsKeepText(sections, 0, textType);
      assert sections[0..] == sections;
    }
  }

  /** Inline code in the middle of a sentence. */
  lemma CodeExample()
    ensures SplitNode(TextNode("a `b` c", Text, None), "`", TextType.Code)
      == Success([TextNode("a ", Text, None), TextNode("b", TextType.Code, None), TextNode(" c", Text, None)])
  {
    CodeExampleSplit();
    CodeExampleNodes();
  }

  lemma CodeExampleSplit()
    ensures Split("a `b` c", "`") == ["a ", "b", " c"]
  {
    var parts := ["a ", "b", " c"];
    CharFree("a ", '`');
    CharFree("b", '`');
    CharFree(" c", '`');
    assert Join(parts, "`") == "a `b` c";
    SplitJoin(parts, "`");
  }

  lemma CodeExampleNodes()
    ensures SectionsToNodes(["a ", "b", " c"], 0, TextType.Code)
      == [TextNode("a ", Text, None), TextNode("b", TextType.Code, None), TextNode(" c", Text, None)]
  {
    var parts := ["a ", "b", " c"];
    assert SectionsToNodes(parts, 3, TextType.Code) == [];
    assert SectionsToNodes(parts, 2, TextType.Code) == [TextNode(" c", Text, None)];
    assert SectionsToNodes(parts, 1, TextType.Code) == [TextNode("b", TextType.Code, None), TextNode(" c", Text, None)];
  }

  /** An opening delimiter without its closing one is an error naming both. */
  lemma UnmatchedExample()
    ensures SplitNode(TextNode("a `b", Text, None), "`", TextType.Code) == Failure(UnmatchedDelimiter("`", "a `b"))
  {
    SplitPair("a ", "b", '`');
    assert "a " + "`" + "b" == "a `b";
  }
}
