/** `split_nodes_image` and `split_nodes_link` (src/htmlnode.py:411-545): each plain-text
    node is cut around the image (or link) hits the extractor finds in it. The code does
    not cut at the hits' positions: for each extracted pair it rebuilds the markdown and
    cuts the remaining text at that string's first literal occurrence. `SplitAsWritten`
    models that; `SplitAtMatches` cuts at the hits themselves. For images the two agree
    on every input (`SplitNodesAsWrittenIsExact`); for links they do not (`LinkSplitBug`),
    unless the image pass has run first (`LinkAfterImagesIsExact`). */
module ImageLink {
  import opened Wrappers
  import opened Strings
  import opened TextNodes
  import opened Extract

  /** The kind of node a hit becomes. */
  function KindType(kind: Kind): TextType
  {
    if kind == ImageKind then Image else Link
  }

  /** A stretch of text as nodes: none when it is empty, else one plain-text node (the
      code never appends an empty piece). */
  function TextPiece(s: string): seq<TextNode>
  {
    if s == "" then [] else [TextNode(s, Text, None)]
  }

  /** The node a hit becomes: its alt (or link text) with its url. */
  function HitNode(alt: string, url: string, kind: Kind): TextNode
  {
    TextNode(alt, KindType(kind), Some(url))
  }

  /** The typed nodes' `(text, url)` pairs, in order. */
  function TypedPairs(nodes: seq<TextNode>): seq<(string, string)>
  {
    if nodes == [] then []
    else
      (if nodes[0].textType != Text && nodes[0].url.Some? then [(nodes[0].text, nodes[0].url.value)] else [])
      + TypedPairs(nodes[1..])
  }

  lemma {:induction false} TypedPairsAppend(a: seq<TextNode>, b: seq<TextNode>)
    ensures TypedPairs(a + b) == TypedPairs(a) + TypedPairs(b)
  {
    if a == [] {
      assert a + b == b;
    } else {
      assert (a + b)[0] == a[0] && (a + b)[1..] == a[1..] + b;
      TypedPairsAppend(a[1..], b);
    }
  }

  /** What a cut yields: non-empty plain text, or a node of the pass's kind with a url. */
  predicate Piece(n: TextNode, kind: Kind)
  {
    && UrlInvariant(n)
    && (n.textType == Text || n.textType == KindType(kind))
    && (n.textType == Text ==> n.text != "")
  }

  /** The text from `from` on, cut at the hits `ms`: each non-empty stretch between hits
      becomes a plain-text node and each hit a node of the pass's kind carrying its url.
      No plain-text node is empty, every node keeps the url invariant, and the typed
      nodes carry exactly the hits' pairs, in order. */
  function SplitAtMatches(text: string, from: nat, ms: seq<Match>, kind: Kind): (r: seq<TextNode>)
    requires from <= |text| && Ordered(text, from, ms)
    ensures forall i :: 0 <= i < |r| ==> Piece(r[i], kind)
    ensures TypedPairs(r) == Pairs(ms)
    decreases |ms|
  {
    if ms == [] then
      var r := TextPiece(text[from..]);
      assert TypedPairs(r) == [] by {
        if r != [] {
          assert r[1..] == [];
        }
      }
      r
    else
      var h := ms[0];
      var before := TextPiece(text[from..h.start]);
      var hit := HitNode(h.alt, h.url, kind);
      var rest := SplitAtMatches(text, h.end, ms[1..], kind);
      var r := before + [hit] + rest;
      assert forall i :: 0 <= i < |r| ==> Piece(r[i], kind) by {
        forall i | 0 <= i < |r|
          ensures Piece(r[i], kind)
        {
          if i > |before| {
            assert r[i] == rest[i - |before| - 1];
          }
        }
      }
      assert TypedPairs(r) == Pairs(ms) by {
        TypedPairsAppend(before + [hit], rest);
        TypedPairsAppend(before, [hit]);
        assert [hit][1..] == [];
        if before != [] {
          assert before[1..] == [];
        }
        assert Pairs(ms) == [(h.alt, h.url)] + Pairs(ms[1..]);
      }
      r
  }

  /** What `SplitAtMatches` produces, written back as markdown: plain text as itself, a
      typed node as the markdown of its pair. */
  function Markdown(nodes: seq<TextNode>, kind: Kind): string
  {
    if nodes == [] then ""
    else
      (if nodes[0].textType == Text || nodes[0].url.None? then nodes[0].text
       else Render(kind, nodes[0].text, nodes[0].url.value))
      + Markdown(nodes[1..], kind)
  }

  lemma {:induction false} MarkdownAppend(a: seq<TextNode>, b: seq<TextNode>, kind: Kind)
    ensures Markdown(a + b, kind) == Markdown(a, kind) + Markdown(b, kind)
  {
    if a == [] {
      assert a + b == b;
    } else {
      assert (a + b)[0] == a[0] && (a + b)[1..] == a[1..] + b;
      MarkdownAppend(a[1..], b, kind);
    }
  }

  /** A stretch written back is itself. */
  lemma MarkdownTextPiece(s: string, kind: Kind)
    ensures Markdown(TextPiece(s), kind) == s
  {
    if s != "" {
      assert TextPiece(s)[1..] == [];
    }
  }

  /** A hit written back is the markdown of its pair. */
  lemma MarkdownHit(alt: string, url: string, kind: Kind)
    ensures Markdown([HitNode(alt, url, kind)], kind) == Render(kind, alt, url)
  {
    assert [HitNode(alt, url, kind)][1..] == [];
  }

  /** One step of `SplitAtMatchesRoundTrip`: the stretch before the first hit, the
      markdown of the hit's pair, then the rest written back. */
  lemma SplitAtMatchesStep(text: string, from: nat, ms: seq<Match>, kind: Kind)
    requires from <= |text| && Ordered(text, from, ms) && ms != []
    ensures Markdown(SplitAtMatches(text, from, ms, kind), kind)
      == text[from..ms[0].start] + Render(kind, ms[0].alt, ms[0].url)
         + Markdown(SplitAtMatches(text, ms[0].end, ms[1..], kind), kind)
  {
    var h := ms[0];
    var before := TextPiece(text[from..h.start]);
    var hit := HitNode(h.alt, h.url, kind);
    var rest := SplitAtMatches(text, h.end, ms[1..], kind);
    MarkdownAppend(before + [hit], rest, kind);
    MarkdownAppend(before, [hit], kind);
    MarkdownTextPiece(text[from..h.start], kind);
    MarkdownHit(h.alt, h.url, kind);
  }

  /** Nothing is lost: the pieces of the scan's cut, written back as markdown, give the
      text cut. */
  lemma {:induction false} SplitAtMatchesRoundTrip(text: string, from: nat, kind: Kind)
    requires from <= |text|
    ensures Markdown(SplitAtMatches(text, from, Scan(text, from, kind), kind), kind) == text[from..]
    decreases |text| - from
  {
    var ms := Scan(text, from, kind);
    if ms == [] {
      MarkdownTextPiece(text[from..], kind);
    } else {
      var h := ms[0];
      assert Markdown(SplitAtMatches(text, from, ms, kind), kind)
        == text[from..h.start] + Render(kind, h.alt, h.url) + Markdown(SplitAtMatches(text, h.end, ms[1..], kind), kind) by {
        SplitAtMatchesStep(text, from, ms, kind);
      }
      assert text[h.start..h.end] == Render(kind, h.alt, h.url) by {
        HitOccurs(text, from, kind, 0);
        OccurrenceSlice(text, Render(kind, h.alt, h.url), h.start, h.end);
      }
      assert Markdown(SplitAtMatches(text, h.end, ms[1..], kind), kind) == text[h.end..] by {
        ScanTail(text, from, kind);
        SplitAtMatchesRoundTrip(text, h.end, kind);
      }
      SuffixCut(text, from, h.start, h.end);
      Rewrite3(Markdown(SplitAtMatches(text, from, ms, kind), kind), text[from..],
               text[from..h.start], Render(kind, h.alt, h.url), Markdown(SplitAtMatches(text, h.end, ms[1..], kind), kind),
               text[from..h.start], text[h.start..h.end], text[h.end..]);
    }
  }

  /** Two three-part concatenations that agree part by part are equal. */
  lemma Rewrite3<T>(x: seq<T>, y: seq<T>, a: seq<T>, b: seq<T>, c: seq<T>, a2: seq<T>, b2: seq<T>, c2: seq<T>)
    requires x == a + b + c
    requires a == a2 && b2 == b && c == c2
    requires y == a2 + b2 + c2
    ensures x == y
  {
  }

  /** A suffix cut at two points. */
  lemma SuffixCut(text: string, from: nat, a: nat, b: nat)
    requires from <= a <= b <= |text|
    ensures text[from..] == text[from..a] + text[a..b] + text[b..]
  {
    SliceConcat(text, from, a, |text|);
    SliceConcat(text, a, b, |text|);
  }

  /** The loop over the extracted pairs as the code runs it: cut `remaining` at the first
      literal occurrence of the pair's markdown (`split(md, 1)`); where there is none,
      keep what is left as one plain-text node and stop (the warning branch). */
  function SplitAsWritten(remaining: string, pairs: seq<(string, string)>, kind: Kind): seq<TextNode>
    decreases |pairs|, 1
  {
    if pairs == [] then TextPiece(remaining) else CutFirst(remaining, pairs, kind)
  }

  /** One turn of that loop, for the first pair. */
  function CutFirst(remaining: string, pairs: seq<(string, string)>, kind: Kind): seq<TextNode>
    requires pairs != []
    decreases |pairs|, 0
  {
    var md := Render(kind, pairs[0].0, pairs[0].1);
    match Find(remaining, md)
    case None => TextPiece(remaining)
    case Some(i) =>
      TextPiece(remaining[..i]) + [HitNode(pairs[0].0, pairs[0].1, kind)]
      + SplitAsWritten(remaining[i + |md|..], pairs[1..], kind)
  }

  /** Where the first pair's markdown does not occur, the rest is kept as plain text. */
  lemma SplitAsWrittenMiss(remaining: string, pairs: seq<(string, string)>, kind: Kind, md: string)
    requires pairs != [] && md == Render(kind, pairs[0].0, pairs[0].1) && Find(remaining, md).None?
    ensures SplitAsWritten(remaining, pairs, kind) == TextPiece(remaining)
  {
  }

  /** No `[` of the text from `from` on sits right after a `!`. */
  predicate NoBangBracket(text: string, from: nat)
  {
    forall k :: from <= k < |text| && 0 < k && text[k] == '[' ==> text[k - 1] != '!'
  }

  /** Where the link pattern's refusal of `![` cannot matter: no `[` from `from` on
      follows a `!`, or no image hit starts anywhere in the text. */
  predicate LinkClear(text: string, from: nat)
  {
    NoBangBracket(text, from) || ImageFree(text)
  }

  /** A link's markdown right after a `!` is an image's markdown. */
  lemma BangOccurrence(text: string, q: nat, alt: string, url: string)
    requires OccursAt(text, Render(LinkKind, alt, url), q) && 0 < q && text[q - 1] == '!'
    ensures OccursAt(text, Render(ImageKind, alt, url), q - 1)
  {
    var md := Render(LinkKind, alt, url);
    var img := Render(ImageKind, alt, url);
    assert img == "!" + md;
    forall k | 0 <= k < |img|
      ensures text[q - 1 + k] == img[k]
    {
      if k > 0 {
        assert img[k] == md[k - 1];
      }
    }
  }

  /** Where no hit starts in `[from, q]`, the markdown of plain groups does not occur at
      `q` either. */
  lemma NoOccurrenceWithoutHit(text: string, from: nat, q: nat, kind: Kind, alt: string, url: string)
    requires from <= q && NoMatchIn(text, from, q + 1, kind) && PlainGroups(alt, url)
    requires kind == LinkKind ==> LinkClear(text, from)
    ensures !OccursAt(text, Render(kind, alt, url), q)
  {
    var md := Render(kind, alt, url);
    if OccursAt(text, md, q) {
      if kind == LinkKind && q > 0 && text[q - 1] == '!' {
        assert text[q] == md[0] == '[';
        BangOccurrence(text, q, alt, url);
        OccurrenceIsMatch(text, q - 1, ImageKind, alt, url);
        assert false;
      }
      OccurrenceIsMatch(text, q, kind, alt, url);
      assert false;
    }
  }

  /** The first hit's markdown occurs first exactly where the hit starts: an earlier
      occurrence would be an earlier hit, which the scan does not skip. For links this
      needs the text clear of `![` or of images, since the link pattern refuses a `[`
      after a `!`. */
  lemma FirstOccurrenceIsFirstHit(text: string, from: nat, kind: Kind, h: Match)
    requires from <= |text| && Scan(text, from, kind) != [] && Scan(text, from, kind)[0] == h
    requires kind == LinkKind ==> LinkClear(text, from)
    ensures Find(text[from..], Render(kind, h.alt, h.url)) == Some(h.start - from)
  {
    FirstHitOccurs(text, from, kind, h);
    NoEarlierOccurrence(text, from, kind, h);
    FindIsFirst(text[from..], Render(kind, h.alt, h.url), h.start - from);
  }

  /** The first hit's markdown occurs, in the text from `from` on, where the hit starts. */
  lemma FirstHitOccurs(text: string, from: nat, kind: Kind, h: Match)
    requires from <= |text| && Scan(text, from, kind) != [] && Scan(text, from, kind)[0] == h
    ensures from <= h.start && OccursAt(text[from..], Render(kind, h.alt, h.url), h.start - from)
  {
    HitOccurs(text, from, kind, 0);
    OccursShift(text, Render(kind, h.alt, h.url), from, h.start);
  }

  /** Before the first hit, its markdown does not occur. */
  lemma NoEarlierOccurrence(text: string, from: nat, kind: Kind, h: Match)
    requires from <= |text| && Scan(text, from, kind) != [] && Scan(text, from, kind)[0] == h
    requires kind == LinkKind ==> LinkClear(text, from)
    ensures forall j: nat :: j < h.start - from ==> !OccursAt(text[from..], Render(kind, h.alt, h.url), j)
  {
    assert PlainGroups(h.alt, h.url) by {
      ScanHit(text, from, kind, 0);
      MatchPlain(text, h.start, kind);
    }
    assert NoMatchIn(text, from, h.start, kind) by {
      ScanGap(text, from, kind, 0);
    }
    forall j: nat | j < h.start - from
      ensures !OccursAt(text[from..], Render(kind, h.alt, h.url), j)
    {
      NoOccurrenceWithoutHit(text, from, from + j, kind, h.alt, h.url);
      NoOccurrenceShift(text, Render(kind, h.alt, h.url), from, j);
    }
  }

  /** Each hit's markdown occurs first, in what is left after the previous hit, exactly
      where the hit starts, and the hit covers just that occurrence. */
  predicate CutsAtHits(text: string, from: nat, ms: seq<Match>, kind: Kind)
    decreases |ms|
  {
    ms == [] ||
      (&& from <= ms[0].start <= ms[0].end <= |text|
       && Find(text[from..], Render(kind, ms[0].alt, ms[0].url)) == Some(ms[0].start - from)
       && ms[0].end == ms[0].start + |Render(kind, ms[0].alt, ms[0].url)|
       && CutsAtHits(text, ms[0].end, ms[1..], kind))
  }

  /** The scan's hits are cut at by the loop as written, for images always and for links
      whenever the text is clear of `![` or of images. */
  lemma {:induction false} ScanCutsAtHits(text: string, from: nat, kind: Kind)
    requires from <= |text|
    requires kind == LinkKind ==> LinkClear(text, from)
    ensures CutsAtHits(text, from, Scan(text, from, kind), kind)
    decreases |text| - from
  {
    var ms := Scan(text, from, kind);
    if ms != [] {
      var h := ms[0];
      FirstOccurrenceIsFirstHit(text, from, kind, h);
      HitOccurs(text, from, kind, 0);
      ScanTail(text, from, kind);
      ScanCutsAtHits(text, h.end, kind);
      CutsAtHitsStep(text, from, kind, h, ms, Scan(text, h.end, kind));
    }
  }

  /** `CutsAtHits` from the facts about the first hit and the rest. */
  lemma CutsAtHitsStep(text: string, from: nat, kind: Kind, h: Match, ms: seq<Match>, rest: seq<Match>)
    requires ms != [] && ms[0] == h && ms[1..] == rest
    requires from <= h.start <= h.end <= |text|
    requires Find(text[from..], Render(kind, h.alt, h.url)) == Some(h.start - from)
    requires h.end == h.start + |Render(kind, h.alt, h.url)|
    requires CutsAtHits(text, h.end, rest, kind)
    ensures CutsAtHits(text, from, ms, kind)
  {
  }

  /** Where the loop as written finds every hit's markdown at the hit, it cuts exactly as
      `SplitAtMatches` does. */
  lemma {:induction false} CutsAtHitsExact(text: string, from: nat, ms: seq<Match>, kind: Kind)
    requires from <= |text| && Ordered(text, from, ms) && CutsAtHits(text, from, ms, kind)
    ensures SplitAsWritten(text[from..], Pairs(ms), kind) == SplitAtMatches(text, from, ms, kind)
    decreases |ms|
  {
    if ms == [] {
      assert Pairs(ms) == [];
    } else {
      var h := ms[0];
      CutsAtHitsExact(text, h.end, ms[1..], kind);
      CutAtHit(text, from, ms, kind);
    }
  }

  /** One cut of the loop as written, at the first hit. */
  lemma CutAtHit(text: string, from: nat, ms: seq<Match>, kind: Kind)
    requires from <= |text| && ms != [] && CutsAtHits(text, from, ms, kind)
    ensures ms[0].end <= |text|
    ensures SplitAsWritten(text[from..], Pairs(ms), kind)
      == TextPiece(text[from..ms[0].start]) + [HitNode(ms[0].alt, ms[0].url, kind)]
         + SplitAsWritten(text[ms[0].end..], Pairs(ms[1..]), kind)
  {
    var h := ms[0];
    PairsSplit(ms);
    CutStep(text[from..], h.alt, h.url, Pairs(ms), kind, h.start - from, h.end - from);
    SuffixSlices(text, from, h.start, h.end);
    CutRewrite(SplitAsWritten(text[from..], Pairs(ms), kind), text[from..][..h.start - from], text[from..h.start],
               HitNode(h.alt, h.url, kind), text[from..][h.end - from..], text[h.end..],
               Pairs(ms)[1..], Pairs(ms[1..]), kind);
  }

  /** The first pair is the first hit's, the rest are the other hits'. */
  lemma PairsSplit(ms: seq<Match>)
    requires ms != []
    ensures Pairs(ms)[0] == (ms[0].alt, ms[0].url) && Pairs(ms)[1..] == Pairs(ms[1..])
  {
  }

  /** Slicing a suffix is slicing the whole, shifted. */
  lemma SuffixSlices(text: string, from: nat, a: nat, b: nat)
    requires from <= a <= b <= |text|
    ensures text[from..][..a - from] == text[from..a]
    ensures text[from..][b - from..] == text[b..]
  {
  }

  /** One unfolding of the loop as written, where the first pair's markdown is found at `i`
      and ends at `j`. */
  lemma CutStep(rem: string, alt: string, url: string, ps: seq<(string, string)>, kind: Kind, i: nat, j: nat)
    requires ps != [] && ps[0] == (alt, url)
    requires Find(rem, Render(kind, alt, url)) == Some(i)
    requires j == i + |Render(kind, alt, url)| && j <= |rem|
    ensures SplitAsWritten(rem, ps, kind)
      == TextPiece(rem[..i]) + [HitNode(alt, url, kind)] + SplitAsWritten(rem[j..], ps[1..], kind)
  {
  }

  /** A cut restated with equal parts. */
  lemma CutRewrite(x: seq<TextNode>, r1: string, t1: string, n: TextNode, r2: string, t2: string,
                   p2: seq<(string, string)>, q2: seq<(string, string)>, kind: Kind)
    requires x == TextPiece(r1) + [n] + SplitAsWritten(r2, p2, kind)
    requires r1 == t1 && r2 == t2 && p2 == q2
    ensures x == TextPiece(t1) + [n] + SplitAsWritten(t2, q2, kind)
  {
  }

  /** Cutting at the first literal occurrence of each hit's markdown cuts at the hit
      itself, for images always and for links whenever the text is clear of `![` or of
      images. */
  lemma SplitAsWrittenIsExact(text: string, from: nat, kind: Kind)
    requires from <= |text|
    requires kind == LinkKind ==> LinkClear(text, from)
    ensures var ms := Scan(text, from, kind);
      SplitAsWritten(text[from..], Pairs(ms), kind) == SplitAtMatches(text, from, ms, kind)
  {
    ScanCutsAtHits(text, from, kind);
    CutsAtHitsExact(text, from, Scan(text, from, kind), kind);
  }

  /** One node through the image or link pass, as written: non-text nodes pass, empty
      text is dropped, text without hits is kept as is. */
  function SplitNodeAsWritten(node: TextNode, kind: Kind): seq<TextNode>
  {
    if node.textType != Text then [node]
    else if node.text == "" then []
    else
      var pairs := Pairs(Scan(node.text, 0, kind));
      if pairs == [] then [node] else SplitAsWritten(node.text, pairs, kind)
  }

  /** One node through the pass, cut at the hits themselves. */
  function SplitNode(node: TextNode, kind: Kind): seq<TextNode>
  {
    if node.textType != Text then [node]
    else if node.text == "" then []
    else
      var ms := Scan(node.text, 0, kind);
      if ms == [] then [node] else SplitAtMatches(node.text, 0, ms, kind)
  }

  /** The per-node functions applied to a list, results concatenated in order. */
  function SplitNodes(nodes: seq<TextNode>, kind: Kind): seq<TextNode>
  {
    if nodes == [] then [] else SplitNode(nodes[0], kind) + SplitNodes(nodes[1..], kind)
  }

  function SplitNodesAsWritten(nodes: seq<TextNode>, kind: Kind): seq<TextNode>
  {
    if nodes == [] then [] else SplitNodeAsWritten(nodes[0], kind) + SplitNodesAsWritten(nodes[1..], kind)
  }

  /** `split_nodes_image`, as written. */
  function SplitNodesImage(nodes: seq<TextNode>): seq<TextNode>
  {
    SplitNodesAsWritten(nodes, ImageKind)
  }

  /** `split_nodes_link` as written: the first literal occurrence of `[text](url)` may be
      the tail of an image, `![text](url)`, which the link pattern itself rejects. */
  function SplitNodesLinkAsWritten(nodes: seq<TextNode>): seq<TextNode>
  {
    SplitNodesAsWritten(nodes, LinkKind)
  }

  /** `split_nodes_link` cutting at the link hits themselves. */
  function SplitNodesLink(nodes: seq<TextNode>): seq<TextNode>
  {
    SplitNodes(nodes, LinkKind)
  }

  /** The pass as written cuts exactly at the hits: the image pass on every list, the
      link pass on a list whose plain-text nodes hold no image. */
  lemma {:induction false} SplitNodesAsWrittenIsExact(nodes: seq<TextNode>, kind: Kind)
    requires kind == LinkKind ==> PlainImageFree(nodes)
    ensures SplitNodesAsWritten(nodes, kind) == SplitNodes(nodes, kind)
  {
    if nodes != [] {
      var n := nodes[0];
      if n.textType == Text && n.text != "" {
        SplitAsWrittenIsExact(n.text, 0, kind);
        assert n.text[0..] == n.text;
      }
      assert forall i :: 0 <= i < |nodes[1..]| ==> nodes[1..][i] == nodes[i + 1];
      SplitNodesAsWrittenIsExact(nodes[1..], kind);
    }
  }

  /** No plain-text node of the list holds an image hit. */
  predicate PlainImageFree(nodes: seq<TextNode>)
  {
    forall i :: 0 <= i < |nodes| && nodes[i].textType == Text ==> ImageFree(nodes[i].text)
  }

  lemma PlainImageFreeAppend(a: seq<TextNode>, b: seq<TextNode>)
    requires PlainImageFree(a) && PlainImageFree(b)
    ensures PlainImageFree(a + b)
  {
    forall i | 0 <= i < |a + b| && (a + b)[i].textType == Text
      ensures ImageFree((a + b)[i].text)
    {
      if i >= |a| {
        assert (a + b)[i] == b[i - |a|];
      }
    }
  }

  /** Image-free text, a typed node and image-free nodes make an image-free list. */
  lemma PieceHitFree(before: string, hit: TextNode, rest: seq<TextNode>)
    requires ImageFree(before) && hit.textType != Text && PlainImageFree(rest)
    ensures PlainImageFree(TextPiece(before) + [hit] + rest)
  {
    PlainImageFreeAppend(TextPiece(before), [hit]);
    PlainImageFreeAppend(TextPiece(before) + [hit], rest);
  }

  /** The cut at the first hit, then the cut of what follows it. */
  lemma SplitAtMatchesCons(text: string, from: nat, ms: seq<Match>, kind: Kind)
    requires from <= |text| && Ordered(text, from, ms) && ms != []
    ensures SplitAtMatches(text, from, ms, kind)
      == TextPiece(text[from..ms[0].start]) + [HitNode(ms[0].alt, ms[0].url, kind)]
         + SplitAtMatches(text, ms[0].end, ms[1..], kind)
  {
  }

  /** Every plain-text node of the cut at the image hits holds no image hit of its own:
      the scan skips no hit, so none starts between two it reports. */
  lemma {:induction false} ImagePiecesFree(text: string, from: nat)
    requires from <= |text|
    ensures PlainImageFree(SplitAtMatches(text, from, Scan(text, from, ImageKind), ImageKind))
    decreases |text| - from
  {
    var ms := Scan(text, from, ImageKind);
    ScanGap(text, from, ImageKind, 0);
    if ms == [] {
      SliceImageFree(text, from, |text|);
      assert text[from..] == text[from..|text|];
    } else {
      var h := ms[0];
      SliceImageFree(text, from, h.start);
      ScanTail(text, from, ImageKind);
      ImagePiecesFree(text, h.end);
      PieceHitFree(text[from..h.start], HitNode(h.alt, h.url, ImageKind), SplitAtMatches(text, h.end, ms[1..], ImageKind));
      SplitAtMatchesCons(text, from, ms, ImageKind);
    }
  }

  /** Whatever the image pass is given, no plain-text node it yields holds an image. */
  lemma {:induction false} SplitNodesImageFree(nodes: seq<TextNode>)
    ensures PlainImageFree(SplitNodes(nodes, ImageKind))
  {
    if nodes != [] {
      var n := nodes[0];
      if n.textType == Text && n.text != "" {
        if Scan(n.text, 0, ImageKind) == [] {
          ScanGap(n.text, 0, ImageKind, 0);
          SliceImageFree(n.text, 0, |n.text|);
          assert n.text[0..|n.text|] == n.text;
        } else {
          ImagePiecesFree(n.text, 0);
        }
      }
      assert PlainImageFree(SplitNode(n, ImageKind));
      SplitNodesImageFree(nodes[1..]);
      PlainImageFreeAppend(SplitNode(n, ImageKind), SplitNodes(nodes[1..], ImageKind));
    }
  }

  /** After the image pass, the link pass as written cuts exactly at the link hits: the
      misplaced cut of `LinkSplitBug` needs an image left in plain text. */
  lemma LinkAfterImagesIsExact(nodes: seq<TextNode>)
    ensures SplitNodesLinkAsWritten(SplitNodesImage(nodes)) == SplitNodesLink(SplitNodesImage(nodes))
  {
    SplitNodesAsWrittenIsExact(nodes, ImageKind);
    SplitNodesImageFree(nodes);
    SplitNodesAsWrittenIsExact(SplitNodesImage(nodes), LinkKind);
  }

  /** The corrected link pass on a plain-text node: no plain piece is empty, the link
      nodes carry exactly the pairs `extract_markdown_links` finds, in order, and the
      pieces written back as markdown give the text. */
  lemma LinkPassIntended(text: string)
    requires text != ""
    ensures var r := SplitNodesLink([TextNode(text, Text, None)]);
      && (forall i :: 0 <= i < |r| && r[i].textType == Text ==> r[i].text != "")
      && TypedPairs(r) == ExtractMarkdownLinks(text)
      && Markdown(r, LinkKind) == text
  {
    var n := TextNode(text, Text, None);
    SplitNodesSingle(n, LinkKind);
    if Scan(text, 0, LinkKind) == [] {
      assert [n][1..] == [];
    } else {
      SplitNodeText(n, LinkKind);
    }
  }

  /** A list of one node goes through the pass as that node does. */
  lemma SplitNodesSingle(n: TextNode, kind: Kind)
    ensures SplitNodes([n], kind) == SplitNode(n, kind)
  {
    assert [n][1..] == [];
    assert SplitNode(n, kind) + [] == SplitNode(n, kind);
  }

  /** Each pass keeps the url invariant. */
  lemma {:induction false} SplitNodesUrls(nodes: seq<TextNode>, kind: Kind)
    requires AllUrlInvariant(nodes)
    ensures AllUrlInvariant(SplitNodes(nodes, kind))
  {
    if nodes != [] {
      assert UrlInvariant(nodes[0]);
      SplitNodesUrls(nodes[1..], kind);
      var head := SplitNode(nodes[0], kind);
      assert AllUrlInvariant(head);
      assert SplitNodes(nodes, kind) == head + SplitNodes(nodes[1..], kind);
    }
  }

  /** Where no plain-text node holds a hit, the pass only drops empty plain-text nodes. */
  lemma {:induction false} SplitNodesUnchanged(nodes: seq<TextNode>, kind: Kind)
    requires forall i :: 0 <= i < |nodes| && nodes[i].textType == Text ==> Scan(nodes[i].text, 0, kind) == []
    ensures SplitNodes(nodes, kind) == DropEmptyText(nodes)
  {
    if nodes != [] {
      SplitNodesUnchanged(nodes[1..], kind);
    }
  }

  /** On one plain-text node the pass is the cut at the hits: no plain-text piece is
      empty, the typed pieces carry the extracted pairs in order, and the pieces written
      back as markdown give the node's text. */
  lemma SplitNodeText(node: TextNode, kind: Kind)
    requires node.textType == Text && node.text != "" && Scan(node.text, 0, kind) != []
    ensures var r := SplitNode(node, kind);
      && (forall i :: 0 <= i < |r| && r[i].textType == Text ==> r[i].text != "")
      && TypedPairs(r) == Pairs(Scan(node.text, 0, kind))
      && Markdown(r, kind) == node.text
  {
    SplitAtMatchesRoundTrip(node.text, 0, kind);
    assert node.text[0..] == node.text;
  }

  /** The text of `LinkSplitBug`: an image followed by a link with the same groups. */
  const BugText := "![a](b) [a](b)"

  /** The link scan of `BugText` finds only the link after the image. */
  lemma BugTextLinks()
    ensures Scan(BugText, 0, LinkKind) == [Match(8, 14, "a", "b")]
  {
    var t := BugText;
    assert FindClose(t, 12) == Some(13);
    assert !AltEndsAt(t, 9) && AltEndsAt(t, 10);
    assert FindAlt(t, 9) == Some(10);
    assert t[9..10] == "a" && t[12..13] == "b";
    assert MatchAt(t, 8, LinkKind) == Some(Match(8, 14, "a", "b"));
    assert Scan(t, 14, LinkKind) == [];
    assert Scan(t, 0, LinkKind) == Scan(t, 8, LinkKind) by {
      assert forall p: nat :: p < 8 ==> !OpenerAt(t, p, LinkKind);
      assert Scan(t, 7, LinkKind) == Scan(t, 8, LinkKind);
      assert Scan(t, 6, LinkKind) == Scan(t, 7, LinkKind);
      assert Scan(t, 5, LinkKind) == Scan(t, 6, LinkKind);
      assert Scan(t, 4, LinkKind) == Scan(t, 5, LinkKind);
      assert Scan(t, 3, LinkKind) == Scan(t, 4, LinkKind);
      assert Scan(t, 2, LinkKind) == Scan(t, 3, LinkKind);
      assert Scan(t, 1, LinkKind) == Scan(t, 2, LinkKind);
    }
  }

  /** The first literal `[a](b)` in `BugText` is the tail of the image. */
  lemma BugTextFind()
    ensures Find(BugText, "[a](b)") == Some(1)
  {
    var t := BugText;
    var md := "[a](b)";
    assert OccursAt(t, md, 1) by {
      assert t[1..7] == md;
    }
    assert !OccursAt(t, md, 0) by {
      assert t[0] != md[0];
    }
    FindIsFirst(t, md, 1);
  }

  /** The markdown of the link in `BugText`. */
  lemma BugLink()
    ensures Render(LinkKind, "a", "b") == "[a](b)"
  {
  }

  /** `Find` looks only at the needle's characters. */
  lemma SameFind(s: string, p: string, q: string)
    requires p == q
    ensures Find(s, p) == Find(s, q)
  {
  }

  /** The link pass as written, on `![a](b) [a](b)`: it cuts at the `[a](b)` inside the
      image instead of at the link hit after it, so the output keeps a stray `!`, turns
      the image's tail into a link and leaves the real link as plain text. */
  lemma LinkSplitBug()
    ensures Scan(BugText, 0, LinkKind) == [Match(8, 14, "a", "b")]
    ensures SplitNodeAsWritten(TextNode(BugText, Text, None), LinkKind)
         == [TextNode("!", Text, None), TextNode("a", Link, Some("b")), TextNode(" [a](b)", Text, None)]
    ensures SplitNode(TextNode(BugText, Text, None), LinkKind)
         == [TextNode("![a](b) ", Text, None), TextNode("a", Link, Some("b"))]
  {
    BugTextLinks();
    BugAsWritten();
    BugAtHits();
  }

  /** The cut as written of `BugText`. */
  lemma BugAsWritten()
    ensures SplitNodeAsWritten(TextNode(BugText, Text, None), LinkKind)
         == [TextNode("!", Text, None), TextNode("a", Link, Some("b")), TextNode(" [a](b)", Text, None)]
  {
    var bang := TextNode("!", Text, None);
    var link := TextNode("a", Link, Some("b"));
    var tail := TextNode(" [a](b)", Text, None);
    BugNode();
    BugCut();
    BugPieces();
    assert HitNode("a", "b", LinkKind) == link;
    Rewrite3(SplitAsWritten(BugText, [("a", "b")], LinkKind), [bang] + [link] + [tail],
             TextPiece(BugText[..1]), [HitNode("a", "b", LinkKind)], SplitAsWritten(BugText[7..], [], LinkKind),
             [bang], [link], [tail]);
    Three(bang, link, tail);
  }

  lemma Three<T>(a: T, b: T, c: T)
    ensures [a] + [b] + [c] == [a, b, c]
  {
  }

  /** The node's one extracted pair goes through the loop as written. */
  lemma BugNode()
    ensures SplitNodeAsWritten(TextNode(BugText, Text, None), LinkKind)
         == SplitAsWritten(BugText, [("a", "b")], LinkKind)
  {
    BugTextLinks();
    assert Pairs(Scan(BugText, 0, LinkKind)) == [("a", "b")];
  }

  /** The first literal `[a](b)` in `BugText`, as the loop as written looks for it. */
  lemma BugFind()
    ensures Find(BugText, Render(LinkKind, "a", "b")) == Some(1)
  {
    BugTextFind();
    BugLink();
    SameFind(BugText, Render(LinkKind, "a", "b"), "[a](b)");
  }

  /** The loop as written cuts `BugText` after its first character. */
  lemma BugCut()
    ensures SplitAsWritten(BugText, [("a", "b")], LinkKind)
         == TextPiece(BugText[..1]) + [HitNode("a", "b", LinkKind)] + SplitAsWritten(BugText[7..], [], LinkKind)
  {
    BugFind();
    CutStep(BugText, "a", "b", [("a", "b")], LinkKind, 1, 7);
    assert [("a", "b")][1..] == [];
  }

  /** The text pieces around that cut. */
  lemma BugPieces()
    ensures TextPiece(BugText[..1]) == [TextNode("!", Text, None)]
    ensures SplitAsWritten(BugText[7..], [], LinkKind) == [TextNode(" [a](b)", Text, None)]
  {
    assert BugText[..1] == "!" && BugText[7..] == " [a](b)";
  }

  /** The cut of `BugText` at its one link hit. */
  lemma BugAtHits()
    ensures SplitNode(TextNode(BugText, Text, None), LinkKind)
         == [TextNode("![a](b) ", Text, None), TextNode("a", Link, Some("b"))]
  {
    var t := BugText;
    BugTextLinks();
    assert t[0..8] == "![a](b) ";
  }
}
