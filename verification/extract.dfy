/** `extract_markdown_images` and `extract_markdown_links` (src/htmlnode.py:361-409),
    written as the left-to-right scanner that `re.findall` runs for the patterns
    `!\[(.*?)\]\((.*?)\)` and `(?<!\!)\[(.*?)\]\((.*?)\)`: at each position it tries
    the pattern, takes the shortest alt and then the shortest url (neither group may
    cross a newline, since `.` does not match one), and after a hit resumes at its end. */
module Extract {
  import opened Wrappers
  import opened Strings

  /** Which of the two patterns is scanned for. */
  datatype Kind = ImageKind | LinkKind

  /** One hit: the slice `text[start..end]` it covers and its two groups. */
  datatype Match = Match(start: nat, end: nat, alt: string, url: string)

  /** The markdown a hit is made of: `![alt](url)` for an image, `[alt](url)` for a link.
      The splitters rebuild exactly this string from a pair. */
  function Render(kind: Kind, alt: string, url: string): string
  {
    Opener(kind) + alt + "](" + url + ")"
  }

  /** The brackets a hit opens with. */
  function Opener(kind: Kind): string
  {
    if kind == ImageKind then "![" else "["
  }

  /** `md` is laid out as the markdown of `(alt, url)`: the opener, the alt, `](`, the
      url and a closing `)` as the last character. */
  predicate Laid(md: string, kind: Kind, alt: string, url: string)
  {
    var a := OpenerLength(kind);
    var m := a + |alt|;
    var c := m + 2 + |url|;
    && |md| == c + 1
    && md[..a] == Opener(kind) && md[a..m] == alt
    && md[m] == ']' && md[m + 1] == '(' && md[m + 2..c] == url && md[c] == ')'
  }

  /** Rendering lays the pieces out as `Laid` says. */
  lemma RenderLayout(kind: Kind, alt: string, url: string)
    ensures Laid(Render(kind, alt, url), kind, alt, url)
  {
    var o := Opener(kind);
    var md := Render(kind, alt, url);
    var a := |o|;
    var m := a + |alt|;
    var c := m + 2 + |url|;
    assert md[..a] == o;
    assert md[a..m] == alt;
    assert md[m + 2..c] == url;
  }

  /** `(.*?)\)` from `from`: the first `)`, unless a newline comes before it. */
  function FindClose(text: string, from: nat): (r: Option<nat>)
    ensures r.Some? ==> (from <= r.value < |text| && text[r.value] == ')'
                         && Avoids(text, from, r.value, ')') && Avoids(text, from, r.value, '\n'))
    ensures r.None? ==> forall k :: from <= k < |text| && text[k] == ')' ==> !Avoids(text, from, k, '\n')
    decreases |text| - from
  {
    if from >= |text| then None
    else if text[from] == ')' then Some(from)
    else if text[from] == '\n' then None
    else FindClose(text, from + 1)
  }

  /** A lazy alt group can stop at `k`: `](` sits there and a url closes after it. */
  predicate AltEndsAt(text: string, k: nat)
  {
    k + 1 < |text| && text[k] == ']' && text[k + 1] == '(' && FindClose(text, k + 2).Some?
  }

  /** `(.*?)\]\((.*?)\)` from `from`: where the shortest newline-free alt group ends. */
  function FindAlt(text: string, from: nat): (r: Option<nat>)
    ensures r.Some? ==> from <= r.value && AltEndsAt(text, r.value) && Avoids(text, from, r.value, '\n')
    ensures r.Some? ==> forall k :: from <= k < r.value ==> !AltEndsAt(text, k)
    ensures r.None? ==> forall k :: from <= k < |text| && Avoids(text, from, k, '\n') ==> !AltEndsAt(text, k)
    decreases |text| - from
  {
    if from + 1 >= |text| then None
    else if AltEndsAt(text, from) then Some(from)
    else if text[from] == '\n' then None
    else FindAlt(text, from + 1)
  }

  /** The pattern's opening bracket(s) sit at `p`; for a link, the `[` must not follow a `!`. */
  predicate OpenerAt(text: string, p: nat, kind: Kind)
  {
    match kind
    case ImageKind => p + 1 < |text| && text[p] == '!' && text[p + 1] == '['
    case LinkKind => p < |text| && text[p] == '[' && (p == 0 || text[p - 1] != '!')
  }

  function OpenerLength(kind: Kind): nat
  {
    if kind == ImageKind then 2 else 1
  }

  /** The hit of the pattern anchored at `p`, if the pattern matches there. */
  function MatchAt(text: string, p: nat, kind: Kind): (r: Option<Match>)
    ensures r.Some? <==> OpenerAt(text, p, kind) && FindAlt(text, p + OpenerLength(kind)).Some?
    ensures r.Some? ==> r.value.start == p && p + OpenerLength(kind) + 3 <= r.value.end <= |text|
  {
    if !OpenerAt(text, p, kind) then None
    else
      match FindAlt(text, p + OpenerLength(kind))
      case None => None
      case Some(m) =>
        var c := FindClose(text, m + 2).value;
        Some(Match(p, c + 1, text[p + OpenerLength(kind)..m], text[m + 2..c]))
  }

  /** The groups a hit can have: an alt without newline, a url without newline or `)`. */
  predicate PlainGroups(alt: string, url: string)
  {
    && (forall k :: 0 <= k < |alt| ==> alt[k] != '\n')
    && (forall k :: 0 <= k < |url| ==> url[k] != '\n' && url[k] != ')')
  }

  /** A hit covers exactly the markdown rebuilt from its groups, and its groups are plain. */
  lemma MatchRenders(text: string, p: nat, kind: Kind)
    requires MatchAt(text, p, kind).Some?
    ensures var h := MatchAt(text, p, kind).value;
      text[p..h.end] == Render(kind, h.alt, h.url) && PlainGroups(h.alt, h.url)
  {
    MatchCovers(text, p, kind);
    MatchPlain(text, p, kind);
  }

  lemma MatchCovers(text: string, p: nat, kind: Kind)
    requires MatchAt(text, p, kind).Some?
    ensures var h := MatchAt(text, p, kind).value;
      h.end == p + |Render(kind, h.alt, h.url)| && OccursAt(text, Render(kind, h.alt, h.url), p)
  {
    var h := MatchAt(text, p, kind).value;
    var a := p + OpenerLength(kind);
    var m := FindAlt(text, a).value;
    var c := FindClose(text, m + 2).value;
    assert h.alt == text[a..m] && h.url == text[m + 2..c] && h.end == c + 1;
    assert text[p..a] == Opener(kind);
    assert text[m..m + 2] == "](";
    assert text[c..c + 1] == ")";
    SlicesRender(text, kind, p, a, m, c);
  }

  /** Slices of `text` holding the opener, an alt, `](`, a url and `)` back to back
      together hold the markdown of that alt and url. */
  lemma SlicesRender(text: string, kind: Kind, p: nat, a: nat, m: nat, c: nat)
    requires p <= a <= m && m + 2 <= c < |text|
    requires text[p..a] == Opener(kind) && text[m..m + 2] == "](" && text[c..c + 1] == ")"
    ensures text[p..c + 1] == Render(kind, text[a..m], text[m + 2..c])
  {
    SliceConcat(text, p, a, m);
    SliceConcat(text, p, m, m + 2);
    SliceConcat(text, p, m + 2, c);
    SliceConcat(text, p, c, c + 1);
  }

  lemma MatchPlain(text: string, p: nat, kind: Kind)
    requires MatchAt(text, p, kind).Some?
    ensures var h := MatchAt(text, p, kind).value;
      PlainGroups(h.alt, h.url)
  {
    var h := MatchAt(text, p, kind).value;
    var a := p + OpenerLength(kind);
    var m := FindAlt(text, a).value;
    var c := FindClose(text, m + 2).value;
    forall k | 0 <= k < |h.alt|
      ensures h.alt[k] != '\n'
    {
      assert h.alt[k] == text[a + k];
    }
    forall k | 0 <= k < |h.url|
      ensures h.url[k] != '\n' && h.url[k] != ')'
    {
      assert h.url[k] == text[m + 2 + k];
    }
  }

  /** Conversely, wherever the markdown for a newline-free alt and a url free of
      newlines and `)` occurs behind a valid opener, the pattern matches there (possibly
      with a shorter alt). */
  lemma OccurrenceIsMatch(text: string, p: nat, kind: Kind, alt: string, url: string)
    requires OccursAt(text, Render(kind, alt, url), p)
    requires kind == LinkKind ==> p == 0 || text[p - 1] != '!'
    requires PlainGroups(alt, url)
    ensures MatchAt(text, p, kind).Some?
  {
    RenderLayout(kind, alt, url);
    LaidOccurrenceIsMatch(text, p, kind, alt, url, Render(kind, alt, url));
  }

  /** `OccurrenceIsMatch` for any string laid out like the markdown of the pair. */
  lemma LaidOccurrenceIsMatch(text: string, p: nat, kind: Kind, alt: string, url: string, md: string)
    requires Laid(md, kind, alt, url) && OccursAt(text, md, p)
    requires kind == LinkKind ==> p == 0 || text[p - 1] != '!'
    requires PlainGroups(alt, url)
    ensures MatchAt(text, p, kind).Some?
  {
    var a := p + OpenerLength(kind);
    var m := a + |alt|;
    LaidOpener(text, p, kind, alt, url, md);
    LaidAltEnds(text, p, kind, alt, url, md);
    LaidAltAvoids(text, p, kind, alt, url, md);
    assert FindAlt(text, a).Some?;
  }

  /** Where `md` occurs at `p`, the text agrees with it character by character. */
  lemma OccursChars(text: string, md: string, p: nat, i: nat, j: nat)
    requires OccursAt(text, md, p) && i <= j <= |md|
    ensures forall k :: p + i <= k < p + j ==> text[k] == md[i..j][k - p - i]
  {
    forall k | p + i <= k < p + j
      ensures text[k] == md[i..j][k - p - i]
    {
      assert text[k] == text[p..p + |md|][k - p];
    }
  }

  lemma LaidOpener(text: string, p: nat, kind: Kind, alt: string, url: string, md: string)
    requires Laid(md, kind, alt, url) && OccursAt(text, md, p)
    requires kind == LinkKind ==> p == 0 || text[p - 1] != '!'
    ensures OpenerAt(text, p, kind)
  {
    OccursChars(text, md, p, 0, OpenerLength(kind));
    assert text[p] == Opener(kind)[0];
    if kind == ImageKind {
      assert text[p + 1] == Opener(kind)[1];
    }
  }

  lemma LaidAltEnds(text: string, p: nat, kind: Kind, alt: string, url: string, md: string)
    requires Laid(md, kind, alt, url) && OccursAt(text, md, p)
    requires PlainGroups(alt, url)
    ensures AltEndsAt(text, p + OpenerLength(kind) + |alt|)
    ensures var m := p + OpenerLength(kind) + |alt|; FindClose(text, m + 2) == Some(m + 2 + |url|)
  {
    var m := p + OpenerLength(kind) + |alt|;
    var c := m + 2 + |url|;
    assert text[m] == ']' && text[m + 1] == '(' && text[c] == ')' by {
      assert text[p..p + |md|] == md;
      assert text[m] == md[m - p] && text[m + 1] == md[m + 1 - p] && text[c] == md[c - p];
    }
    OccursChars(text, md, p, m + 2 - p, c - p);
    assert Avoids(text, m + 2, c, '\n') && Avoids(text, m + 2, c, ')');
    FindCloseFinds(text, m + 2, c);
  }

  lemma LaidAltAvoids(text: string, p: nat, kind: Kind, alt: string, url: string, md: string)
    requires Laid(md, kind, alt, url) && OccursAt(text, md, p)
    requires PlainGroups(alt, url)
    ensures Avoids(text, p + OpenerLength(kind), p + OpenerLength(kind) + |alt|, '\n')
  {
    var a := OpenerLength(kind);
    OccursChars(text, md, p, a, a + |alt|);
  }

  /** A `)` with no `)` or newline before it is the one `FindClose` returns. */
  lemma {:induction false} FindCloseFinds(text: string, from: nat, c: nat)
    requires from <= c < |text| && text[c] == ')'
    requires Avoids(text, from, c, '\n') && Avoids(text, from, c, ')')
    ensures FindClose(text, from) == Some(c)
    decreases c - from
  {
    if from < c {
      FindCloseFinds(text, from + 1, c);
    }
  }

  /** No hit of `kind` starts in `[lo, hi)`. */
  predicate NoMatchIn(text: string, lo: nat, hi: nat, kind: Kind)
  {
    forall p: nat :: lo <= p < hi ==> MatchAt(text, p, kind).None?
  }

  /** Hits in order and without overlap, each non-empty and inside the text, none
      starting before `from`. */
  predicate Ordered(text: string, from: nat, ms: seq<Match>)
    decreases |ms|
  {
    ms == [] || (from <= ms[0].start < ms[0].end <= |text| && Ordered(text, ms[0].end, ms[1..]))
  }

  /** `re.findall` from `from`: every hit is the pattern's hit at its start, the hits are
      in order and do not overlap, and none is skipped (see `ScanGaps`). */
  function Scan(text: string, from: nat, kind: Kind): (r: seq<Match>)
    ensures Ordered(text, from, r)
    decreases |text| - from
  {
    if from >= |text| then []
    else
      match MatchAt(text, from, kind)
      case Some(h) =>
        var rest := Scan(text, h.end, kind);
        assert ([h] + rest)[0] == h && ([h] + rest)[1..] == rest;
        [h] + rest
      case None => Scan(text, from + 1, kind)
  }

  /** Hit `i` of the scan is the pattern's hit at its start. */
  lemma {:induction false} ScanHit(text: string, from: nat, kind: Kind, i: nat)
    requires i < |Scan(text, from, kind)|
    ensures var h := Scan(text, from, kind)[i];
      from <= h.start && MatchAt(text, h.start, kind) == Some(h)
    decreases |text| - from
  {
    match MatchAt(text, from, kind)
    case Some(h) =>
      if i > 0 {
        ScanHit(text, h.end, kind, i - 1);
      }
    case None =>
      ScanHit(text, from + 1, kind, i);
  }

  /** Where the `i`-th gap between hits starts: at `from`, or where hit `i - 1` ends. */
  function GapStart(r: seq<Match>, i: nat, from: nat): nat
    requires i <= |r|
  {
    if i == 0 then from else r[i - 1].end
  }

  /** Where the `i`-th gap between hits ends: where hit `i` starts, or at the end. */
  function GapEnd(r: seq<Match>, i: nat, text: string): nat
    requires i <= |r|
  {
    if i < |r| then r[i].start else |text|
  }

  /** The scan misses nothing: no hit starts in any gap between the hits it reports. */
  lemma ScanGaps(text: string, from: nat, kind: Kind)
    ensures var r := Scan(text, from, kind);
      forall i :: 0 <= i <= |r| ==> NoMatchIn(text, GapStart(r, i, from), GapEnd(r, i, text), kind)
  {
    var r := Scan(text, from, kind);
    forall i | 0 <= i <= |r|
      ensures NoMatchIn(text, GapStart(r, i, from), GapEnd(r, i, text), kind)
    {
      ScanGap(text, from, kind, i);
    }
  }

  /** One gap of `ScanGaps`. */
  lemma {:induction false} ScanGap(text: string, from: nat, kind: Kind, i: nat)
    requires i <= |Scan(text, from, kind)|
    ensures var r := Scan(text, from, kind);
      NoMatchIn(text, GapStart(r, i, from), GapEnd(r, i, text), kind)
    decreases |text| - from, 1
  {
    if from >= |text| {
      assert Scan(text, from, kind) == [];
    } else if MatchAt(text, from, kind).Some? {
      ScanGapAfterHit(text, from, kind, i);
    } else {
      ScanGapAfterMiss(text, from, kind, i);
    }
  }

  lemma {:induction false} ScanGapAfterHit(text: string, from: nat, kind: Kind, i: nat)
    requires from < |text| && MatchAt(text, from, kind).Some?
    requires i <= |Scan(text, from, kind)|
    ensures var r := Scan(text, from, kind);
      NoMatchIn(text, GapStart(r, i, from), GapEnd(r, i, text), kind)
    decreases |text| - from, 0
  {
    var r := Scan(text, from, kind);
    var h := MatchAt(text, from, kind).value;
    var rest := Scan(text, h.end, kind);
    assert r == [h] + rest;
    if i > 0 {
      ScanGap(text, h.end, kind, i - 1);
      var lo, hi := GapStart(rest, i - 1, h.end), GapEnd(rest, i - 1, text);
      assert GapStart(r, i, from) == lo by {
        if i > 1 {
          assert r[i - 1] == rest[i - 2];
        }
      }
      assert GapEnd(r, i, text) == hi by {
        if i < |r| {
          assert r[i] == rest[i - 1];
        }
      }
    } else {
      assert GapStart(r, 0, from) == GapEnd(r, 0, text);
    }
  }

  lemma {:induction false} ScanGapAfterMiss(text: string, from: nat, kind: Kind, i: nat)
    requires from < |text| && MatchAt(text, from, kind).None?
    requires i <= |Scan(text, from, kind)|
    ensures var r := Scan(text, from, kind);
      NoMatchIn(text, GapStart(r, i, from), GapEnd(r, i, text), kind)
    decreases |text| - from, 0
  {
    var r := Scan(text, from, kind);
    assert r == Scan(text, from + 1, kind);
    var hi := GapEnd(r, i, text);
    if i > 0 {
      assert NoMatchIn(text, GapStart(r, i, from), hi, kind) by {
        ScanGap(text, from + 1, kind, i);
        assert GapStart(r, i, from) == GapStart(r, i, from + 1);
      }
    } else {
      assert NoMatchIn(text, from, hi, kind) by {
        ScanGap(text, from + 1, kind, 0);
        assert NoMatchIn(text, from + 1, hi, kind);
        forall p: nat | from <= p < hi
          ensures MatchAt(text, p, kind).None?
        {
          if p > from {
            assert from + 1 <= p < hi;
          }
        }
      }
    }
  }

  /** After its first hit, the scan goes on from that hit's end. */
  lemma {:induction false} ScanTail(text: string, from: nat, kind: Kind)
    requires Scan(text, from, kind) != []
    ensures var r := Scan(text, from, kind);
      r[1..] == Scan(text, r[0].end, kind)
    decreases |text| - from
  {
    if from < |text| && MatchAt(text, from, kind).None? {
      ScanTail(text, from + 1, kind);
    }
  }

  /** The groups of each hit, in order. */
  function Pairs(ms: seq<Match>): (r: seq<(string, string)>)
    ensures |r| == |ms|
    decreases |ms|
  {
    if ms == [] then [] else [(ms[0].alt, ms[0].url)] + Pairs(ms[1..])
  }

  /** Pair `i` holds the groups of hit `i`. */
  lemma {:induction false} PairsAt(ms: seq<Match>, i: nat)
    requires i < |ms|
    ensures Pairs(ms)[i] == (ms[i].alt, ms[i].url)
    decreases i
  {
    if i > 0 {
      PairsAt(ms[1..], i - 1);
    }
  }


  /** Hit `i` of the scan is an occurrence of its pair's markdown at its start. */
  lemma HitOccurs(text: string, from: nat, kind: Kind, i: nat)
    requires i < |Scan(text, from, kind)|
    ensures var h := Scan(text, from, kind)[i];
      h.end == h.start + |Render(kind, h.alt, h.url)| && OccursAt(text, Render(kind, h.alt, h.url), h.start)
  {
    var h := Scan(text, from, kind)[i];
    ScanHit(text, from, kind, i);
    MatchCovers(text, h.start, kind);
  }

  /** The pairs of the hits of `kind`, in order; each pair rebuilds markdown that occurs in
      the text. */
  function ExtractPairs(text: string, kind: Kind): (r: seq<(string, string)>)
    ensures forall i :: 0 <= i < |r| ==> Contains(text, Render(kind, r[i].0, r[i].1))
  {
    var ms := Scan(text, 0, kind);
    var r := Pairs(ms);
    assert forall i :: 0 <= i < |r| ==> Contains(text, Render(kind, r[i].0, r[i].1)) by {
      forall i | 0 <= i < |r|
        ensures Contains(text, Render(kind, r[i].0, r[i].1))
      {
        HitOccurs(text, 0, kind, i);
        PairsAt(ms, i);
      }
    }
    r
  }

  /** `extract_markdown_images`: the `(alt, url)` pairs of the image hits, in order; each
      pair rebuilds markdown that occurs in the text. */
  function ExtractMarkdownImages(text: string): (r: seq<(string, string)>)
    ensures forall i :: 0 <= i < |r| ==> Contains(text, Render(ImageKind, r[i].0, r[i].1))
  {
    ExtractPairs(text, ImageKind)
  }

  /** `extract_markdown_links`: the `(text, url)` pairs of the link hits, in order; each
      pair rebuilds markdown that occurs in the text. */
  function ExtractMarkdownLinks(text: string): (r: seq<(string, string)>)
    ensures forall i :: 0 <= i < |r| ==> Contains(text, Render(LinkKind, r[i].0, r[i].1))
  {
    ExtractPairs(text, LinkKind)
  }

  /** The shortest alt ends at the first `m` where it can, if no newline comes first. */
  lemma {:induction false} FindAltFinds(text: string, from: nat, m: nat)
    requires from <= m && AltEndsAt(text, m) && Avoids(text, from, m, '\n')
    requires forall k :: from <= k < m ==> !AltEndsAt(text, k)
    ensures FindAlt(text, from) == Some(m)
    decreases m - from
  {
    if from < m {
      FindAltFinds(text, from + 1, m);
    }
  }

  /** The pattern matches a rendered pair at its start and gets the pair back, provided
      the alt holds no `]` or newline and the url no `)` or newline. */
  lemma RenderMatches(kind: Kind, alt: string, url: string)
    requires forall k :: 0 <= k < |alt| ==> alt[k] != '\n' && alt[k] != ']'
    requires forall k :: 0 <= k < |url| ==> url[k] != '\n' && url[k] != ')'
    ensures var md := Render(kind, alt, url);
      MatchAt(md, 0, kind) == Some(Match(0, |md|, alt, url))
  {
    RenderLayout(kind, alt, url);
    LaidMatches(kind, alt, url, Render(kind, alt, url));
  }

  /** `RenderMatches` for any string laid out like the markdown of the pair. */
  lemma LaidMatches(kind: Kind, alt: string, url: string, md: string)
    requires Laid(md, kind, alt, url)
    requires forall k :: 0 <= k < |alt| ==> alt[k] != '\n' && alt[k] != ']'
    requires forall k :: 0 <= k < |url| ==> url[k] != '\n' && url[k] != ')'
    ensures MatchAt(md, 0, kind) == Some(Match(0, |md|, alt, url))
  {
    var a := OpenerLength(kind);
    var m := a + |alt|;
    assert OccursAt(md, md, 0) by {
      assert md[0..|md|] == md;
    }
    LaidOpener(md, 0, kind, alt, url, md);
    LaidAltEnds(md, 0, kind, alt, url, md);
    LaidAltAvoids(md, 0, kind, alt, url, md);
    assert forall k :: a <= k < m ==> !AltEndsAt(md, k) by {
      OccursChars(md, md, 0, a, m);
    }
    FindAltFinds(md, a, m);
  }

  /** Extraction inverts rendering: the markdown of one pair, alone, extracts to that
      pair, provided the alt holds no `]` or newline and the url no `)` or newline. */
  lemma ExtractRender(kind: Kind, alt: string, url: string)
    requires forall k :: 0 <= k < |alt| ==> alt[k] != '\n' && alt[k] != ']'
    requires forall k :: 0 <= k < |url| ==> url[k] != '\n' && url[k] != ')'
    ensures var md := Render(kind, alt, url);
      Scan(md, 0, kind) == [Match(0, |md|, alt, url)]
    ensures kind == ImageKind ==> ExtractMarkdownImages(Render(kind, alt, url)) == [(alt, url)]
    ensures kind == LinkKind ==> ExtractMarkdownLinks(Render(kind, alt, url)) == [(alt, url)]
  {
    var md := Render(kind, alt, url);
    RenderMatches(kind, alt, url);
    assert Scan(md, |md|, kind) == [];
    assert Scan(md, 0, kind) == [Match(0, |md|, alt, url)];
    assert Pairs([Match(0, |md|, alt, url)]) == [(alt, url)];
  }

  /** Where the pattern's opener occurs nowhere, nothing is extracted. */
  lemma {:induction false} ScanWithoutOpener(text: string, from: nat, kind: Kind)
    requires forall p: nat :: from <= p ==> !OpenerAt(text, p, kind)
    ensures Scan(text, from, kind) == []
    decreases |text| - from
  {
    if from < |text| {
      ScanWithoutOpener(text, from + 1, kind);
    }
  }

  /** The image pass ignores link syntax: text without `!` holds no image. */
  lemma NoBangNoImages(text: string)
    requires forall k :: 0 <= k < |text| ==> text[k] != '!'
    ensures ExtractMarkdownImages(text) == []
  {
    ScanWithoutOpener(text, 0, ImageKind);
  }

  /** The link pass ignores image syntax: text whose every `[` follows a `!` holds no link. */
  lemma OnlyImagesNoLinks(text: string)
    requires forall k :: 0 <= k < |text| && text[k] == '[' ==> 0 < k && text[k - 1] == '!'
    ensures ExtractMarkdownLinks(text) == []
  {
    ScanWithoutOpener(text, 0, LinkKind);
  }

  /** No image hit starts anywhere in the text. */
  predicate ImageFree(text: string)
  {
    forall p: nat :: p < |text| ==> MatchAt(text, p, ImageKind).None?
  }

  /** A stretch of the text where no image hit of the whole text starts holds no image
      hit of its own: cutting the text short only takes characters away from a hit. */
  lemma SliceImageFree(text: string, a: nat, b: nat)
    requires a <= b <= |text| && NoMatchIn(text, a, b, ImageKind)
    ensures ImageFree(text[a..b])
  {
    forall p: nat | p < b - a
      ensures MatchAt(text[a..b], p, ImageKind).None?
    {
      if MatchAt(text[a..b], p, ImageKind).Some? {
        SliceMatch(text, a, b, p);
        assert false;
      }
    }
  }

  /** An image hit inside a stretch is a hit of the whole text at the same place. */
  lemma SliceMatch(text: string, a: nat, b: nat, p: nat)
    requires a <= b <= |text| && p < b - a && MatchAt(text[a..b], p, ImageKind).Some?
    ensures MatchAt(text, a + p, ImageKind).Some?
  {
    var s := text[a..b];
    var m := FindAlt(s, p + 2).value;
    assert s[p] == text[a + p] && s[p + 1] == text[a + p + 1];
    SliceAltEnds(text, a, b, m);
    SliceAvoids(text, a, b, p + 2, m, '\n');
  }

  /** Where an alt group can stop in a stretch, it can stop in the whole text. */
  lemma SliceAltEnds(text: string, a: nat, b: nat, m: nat)
    requires a <= b <= |text| && AltEndsAt(text[a..b], m)
    ensures AltEndsAt(text, a + m)
  {
    var s := text[a..b];
    var c := FindClose(s, m + 2).value;
    assert s[m] == text[a + m] && s[m + 1] == text[a + m + 1] && s[c] == text[a + c];
    SliceAvoids(text, a, b, m + 2, c, ')');
    SliceAvoids(text, a, b, m + 2, c, '\n');
    FindCloseFinds(text, a + m + 2, a + c);
  }

  /** A character missing from part of a stretch is missing there in the whole text. */
  lemma SliceAvoids(text: string, a: nat, b: nat, lo: nat, hi: nat, c: char)
    requires a <= b <= |text| && lo <= hi <= b - a && Avoids(text[a..b], lo, hi, c)
    ensures Avoids(text, a + lo, a + hi, c)
  {
    forall k | a + lo <= k < a + hi
      ensures text[k] != c
    {
      assert text[k] == text[a..b][k - a];
    }
  }
}
