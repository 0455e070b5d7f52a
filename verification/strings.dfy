/** The Python string operations the converter relies on, written out over `seq<char>`:
    `startswith`/`endswith`, `find`, `split` with a separator, `join`, `strip` with and
    without an argument, and the decimal rendering of a natural number (`f'{n}'`). */
module Strings {
  import opened Wrappers

  /** Python `s.startswith(p)`. */
  predicate StartsWith(s: string, p: string) {
    |p| <= |s| && s[..|p|] == p
  }

  /** Python `s.endswith(p)`. */
  predicate EndsWith(s: string, p: string) {
    |p| <= |s| && s[|s| - |p|..] == p
  }

  /** `p` occurs in `s` starting at index `i`. */
  predicate OccursAt(s: string, p: string, i: nat) {
    i + |p| <= |s| && forall k :: 0 <= k < |p| ==> s[i + k] == p[k]
  }

  /** The occurrence as a slice. */
  lemma OccursAtSlice(s: string, p: string, i: nat)
    ensures OccursAt(s, p, i) <==> i + |p| <= |s| && s[i..i + |p|] == p
  {
    if i + |p| <= |s| && s[i..i + |p|] == p {
      forall k | 0 <= k < |p|
        ensures s[i + k] == p[k]
      {
        assert s[i + k] == s[i..i + |p|][k];
      }
    }
  }

  /** An occurrence, read off as a slice. */
  lemma OccurrenceSlice(s: string, p: string, i: nat, j: nat)
    requires OccursAt(s, p, i) && j == i + |p|
    ensures j <= |s| && s[i..j] == p
  {
    OccursAtSlice(s, p, i);
  }

  /** Python `p in s`. */
  ghost predicate Contains(s: string, p: string) {
    exists i: nat :: OccursAt(s, p, i)
  }

  /** No character of `s[lo..hi]` is `c`. */
  predicate Avoids(s: string, lo: nat, hi: nat, c: char)
    requires lo <= hi <= |s|
  {
    forall k :: lo <= k < hi ==> s[k] != c
  }

  /** Python `s.find(p, from)`: the leftmost occurrence of `p` at or after `from`. */
  function FindFrom(s: string, p: string, from: nat): (r: Option<nat>)
    ensures r.Some? ==> from <= r.value && OccursAt(s, p, r.value)
    ensures r.Some? ==> forall j: nat :: from <= j < r.value ==> !OccursAt(s, p, j)
    ensures r.None? ==> forall j: nat :: from <= j ==> !OccursAt(s, p, j)
    decreases |s| - from
  {
    if from + |p| > |s| then None
    else if s[from..from + |p|] == p then Some(from)
    else FindFrom(s, p, from + 1)
  }

  /** Python `s.find(p)`, with `None` in place of `-1`. */
  function Find(s: string, p: string): (r: Option<nat>)
    ensures r.Some? ==> OccursAt(s, p, r.value) && forall j: nat :: j < r.value ==> !OccursAt(s, p, j)
  {
    FindFrom(s, p, 0)
  }

  /** `find` reports -1 exactly when `p` occurs nowhere in `s`. */
  lemma FindNone(s: string, p: string)
    ensures Find(s, p).None? <==> !Contains(s, p)
  {
  }

  /** `Find` returns an occurrence with none before it. */
  lemma FindIsFirst(s: string, p: string, i: nat)
    requires OccursAt(s, p, i)
    requires forall j: nat :: j < i ==> !OccursAt(s, p, j)
    ensures Find(s, p) == Some(i)
  {
  }

  /** Python `sep.join(parts)`. */
  function Join(parts: seq<string>, sep: string): string
  {
    if |parts| == 0 then ""
    else if |parts| == 1 then parts[0]
    else parts[0] + sep + Join(parts[1..], sep)
  }

  /** Joining at least two parts: the first, the separator, then the rest joined. */
  lemma JoinStep(parts: seq<string>, sep: string)
    requires |parts| > 1
    ensures Join(parts, sep) == parts[0] + sep + Join(parts[1..], sep)
  {
  }

  /** A string is its three slices cut at `i` and `j`, put back together. */
  lemma SliceSplit(s: string, i: nat, j: nat)
    requires i <= j <= |s|
    ensures s == s[..i] + s[i..j] + s[j..]
  {
    var t := s[..i] + s[i..j] + s[j..];
    assert |t| == |s|;
    forall k | 0 <= k < |s|
      ensures t[k] == s[k]
    {
      if k < i {
        assert t[k] == s[..i][k];
      } else if k < j {
        assert t[k] == s[i..j][k - i];
      } else {
        assert t[k] == s[j..][k - j];
      }
    }
  }

  /** Adjacent slices of `s` concatenate to the slice spanning both. */
  lemma SliceConcat(s: string, i: nat, j: nat, k: nat)
    requires i <= j <= k <= |s|
    ensures s[i..k] == s[i..j] + s[j..k]
  {
  }

  /** Occurrences in a suffix of `s` are the occurrences in `s`, shifted. */
  lemma OccursInSuffix(s: string, p: string, from: nat, j: nat)
    requires from <= |s|
    ensures OccursAt(s[from..], p, j) <==> OccursAt(s, p, from + j)
  {
    if OccursAt(s, p, from + j) {
      forall k | 0 <= k < |p|
        ensures s[from..][j + k] == p[k]
      {
        assert s[from + j + k] == p[k];
      }
    }
    if OccursAt(s[from..], p, j) {
      forall k | 0 <= k < |p|
        ensures s[from + j + k] == p[k]
      {
        assert s[from..][j + k] == p[k];
      }
    }
  }

  /** An occurrence at `i` is one at `i - from` in the suffix from `from`. */
  lemma OccursShift(s: string, p: string, from: nat, i: nat)
    requires from <= i && from <= |s| && OccursAt(s, p, i)
    ensures OccursAt(s[from..], p, i - from)
  {
    OccursInSuffix(s, p, from, i - from);
  }

  /** No occurrence at `from + j` means none at `j` in the suffix from `from`. */
  lemma NoOccurrenceShift(s: string, p: string, from: nat, j: nat)
    requires from <= |s| && !OccursAt(s, p, from + j)
    ensures !OccursAt(s[from..], p, j)
  {
    OccursInSuffix(s, p, from, j);
  }

  /** An occurrence inside a prefix of `s` is an occurrence in `s`. */
  lemma OccursInPrefix(s: string, p: string, n: nat, j: nat)
    requires n <= |s| && OccursAt(s[..n], p, j)
    ensures OccursAt(s, p, j)
  {
    forall k | 0 <= k < |p|
      ensures s[j + k] == p[k]
    {
      assert s[..n][j + k] == p[k];
    }
  }

  /** Python `s.split(sep)` for a non-empty separator: the pieces between the leftmost
      non-overlapping occurrences of `sep`. The pieces contain no `sep`, joining them
      back with `sep` gives `s`, and the first piece ends at the leftmost occurrence. */
  function Split(s: string, sep: string): (r: seq<string>)
    requires sep != ""
    ensures |r| >= 1
    ensures Join(r, sep) == s
    ensures forall i :: 0 <= i < |r| ==> !Contains(r[i], sep)
    ensures |r| == 1 <==> !Contains(s, sep)
    ensures |r| > 1 ==> Find(s, sep) == Some(|r[0]|)
    decreases |s|
  {
    match Find(s, sep)
    case None => [s]
    case Some(i) =>
      var rest := Split(s[i + |sep|..], sep);
      var r := [s[..i]] + rest;
      assert Join(r, sep) == s by {
        assert r[1..] == rest;
        assert s == s[..i] + sep + s[i + |sep|..] by {
          OccursAtSlice(s, sep, i);
          SliceSplit(s, i, i + |sep|);
        }
      }
      assert forall k :: 0 <= k < |r| ==> !Contains(r[k], sep) by {
        assert !Contains(s[..i], sep) by {
          forall j: nat | OccursAt(s[..i], sep, j)
            ensures false
          {
            OccursInPrefix(s, sep, i, j);
          }
        }
        forall k | 1 <= k < |r|
          ensures !Contains(r[k], sep)
        {
          assert r[k] == rest[k - 1];
        }
      }
      assert Contains(s, sep) by {
        assert OccursAt(s, sep, i);
      }
      r
  }

  /** `s` has no occurrence of the one-character string `[c]` when no character is `c`. */
  lemma CharFree(s: string, c: char)
    requires forall k :: 0 <= k < |s| ==> s[k] != c
    ensures !Contains(s, [c])
  {
    forall i: nat
      ensures !OccursAt(s, [c], i)
    {
      if i < |s| {
        assert s[i + 0] != [c][0];
      }
    }
  }

  /** For a one-character separator, splitting undoes joining: pieces free of the
      separator, joined with it, split back into exactly those pieces. */
  lemma {:induction false} SplitJoin(parts: seq<string>, sep: string)
    requires |sep| == 1 && |parts| >= 1
    requires forall i :: 0 <= i < |parts| ==> !Contains(parts[i], sep)
    ensures Split(Join(parts, sep), sep) == parts
    decreases |parts|
  {
    if |parts| > 1 {
      JoinFirstSeparator(parts, sep);
      JoinSlices(parts, sep);
      SplitStep(Join(parts, sep), sep, |parts[0]|);
      assert forall i :: 0 <= i < |parts[1..]| ==> !Contains(parts[1..][i], sep) by {
        forall i | 0 <= i < |parts[1..]|
          ensures !Contains(parts[1..][i], sep)
        {
          assert parts[1..][i] == parts[i + 1];
        }
      }
      SplitJoin(parts[1..], sep);
      assert parts == [parts[0]] + parts[1..];
    }
  }

  /** Two pieces free of a character, written with that character between them, split
      at it into exactly those two pieces. */
  lemma SplitPair(a: string, b: string, c: char)
    requires forall k :: 0 <= k < |a| ==> a[k] != c
    requires forall k :: 0 <= k < |b| ==> b[k] != c
    ensures Split(a + [c] + b, [c]) == [a, b]
  {
    CharFree(a, c);
    CharFree(b, c);
    assert Join([a, b], [c]) == a + [c] + b;
    SplitJoin([a, b], [c]);
  }

  /** Joined parts free of a one-character separator: its leftmost occurrence is right
      after the first part. */
  lemma JoinFirstSeparator(parts: seq<string>, sep: string)
    requires |sep| == 1 && |parts| > 1 && !Contains(parts[0], sep)
    ensures Find(Join(parts, sep), sep) == Some(|parts[0]|)
  {
    var p0 := parts[0];
    var s := Join(parts, sep);
    JoinStep(parts, sep);
    assert OccursAt(s, sep, |p0|) by {
      assert s[|p0| + 0] == sep[0];
    }
    forall j: nat | j < |p0|
      ensures !OccursAt(s, sep, j)
    {
      assert s[j + 0] == p0[j + 0];
      assert !OccursAt(p0, sep, j);
    }
    FindIsFirst(s, sep, |p0|);
  }

  /** The first part and the rest sit on either side of the first separator. */
  lemma JoinSlices(parts: seq<string>, sep: string)
    requires |parts| > 1
    ensures var s := Join(parts, sep);
      |parts[0]| + |sep| <= |s| && s[..|parts[0]|] == parts[0]
      && s[|parts[0]| + |sep|..] == Join(parts[1..], sep)
  {
    JoinStep(parts, sep);
  }

  /** Where the leftmost separator sits at `i`, the first piece ends there and the rest
      is split on. */
  lemma SplitStep(s: string, sep: string, i: nat)
    requires sep != "" && Find(s, sep) == Some(i)
    ensures i + |sep| <= |s|
    ensures Split(s, sep) == [s[..i]] + Split(s[i + |sep|..], sep)
  {
  }

  /** A string without `sep` splits into itself alone. */
  lemma SplitNoSeparator(s: string, sep: string)
    requires sep != "" && !Contains(s, sep)
    ensures Split(s, sep) == [s]
  {
  }

  /** Python `s.lstrip(chars)`: drop leading characters that belong to `cs`. */
  function StripLeft(s: string, cs: set<char>): (r: string)
    ensures |r| <= |s| && r == s[|s| - |r|..]
    ensures forall i :: 0 <= i < |s| - |r| ==> s[i] in cs
    ensures r != "" ==> r[0] !in cs
    decreases |s|
  {
    if s != "" && s[0] in cs then StripLeft(s[1..], cs) else s
  }

  /** Python `s.rstrip(chars)`: drop trailing characters that belong to `cs`. */
  function StripRight(s: string, cs: set<char>): (r: string)
    ensures |r| <= |s| && r == s[..|r|]
    ensures forall i :: |r| <= i < |s| ==> s[i] in cs
    ensures r != "" ==> r[|r| - 1] !in cs
    decreases |s|
  {
    if s != "" && s[|s| - 1] in cs then StripRight(s[..|s| - 1], cs) else s
  }

  /** Python `s.strip(chars)`. */
  function StripChars(s: string, cs: set<char>): string
  {
    StripRight(StripLeft(s, cs), cs)
  }

  /** The characters for which Python's `str.isspace()` holds; `str.strip()` with no
      argument removes exactly these. */
  const Whitespace: set<char> := {
    '\t', '\n', '\U{000B}', '\U{000C}', '\r',
    '\U{001C}', '\U{001D}', '\U{001E}', '\U{001F}', ' ',
    '\U{0085}', '\U{00A0}', '\U{1680}',
    '\U{2000}', '\U{2001}', '\U{2002}', '\U{2003}', '\U{2004}', '\U{2005}',
    '\U{2006}', '\U{2007}', '\U{2008}', '\U{2009}', '\U{200A}',
    '\U{2028}', '\U{2029}', '\U{202F}', '\U{205F}', '\U{3000}'
  }

  /** Python `s.strip()`. */
  function Strip(s: string): string
  {
    StripChars(s, Whitespace)
  }

  /** `StripChars` removes a run of `cs` characters from each end and nothing else:
      the result is the slice of `s` starting at `StripOffset(s, cs)`, everything cut
      away is in `cs`, and the result neither starts nor ends with a character of `cs`. */
  lemma StripCharsSlice(s: string, cs: set<char>)
    ensures var r := StripChars(s, cs); var lo := StripOffset(s, cs);
      && lo + |r| <= |s| && s[lo..lo + |r|] == r
      && (forall i :: 0 <= i < lo ==> s[i] in cs)
      && (forall i :: lo + |r| <= i < |s| ==> s[i] in cs)
      && (r != "" ==> r[0] !in cs && r[|r| - 1] !in cs)
  {
    var l := StripLeft(s, cs);
    var lo := |s| - |l|;
    var r := StripRight(l, cs);
    assert StripChars(s, cs) == r && StripOffset(s, cs) == lo;
    StripRightInside(s, lo, l, cs);
    StripRightEdges(l, cs);
  }

  /** Right-stripping a string that does not start with a `cs` character keeps one
      that neither starts nor ends with one. */
  lemma StripRightEdges(l: string, cs: set<char>)
    requires l != "" ==> l[0] !in cs
    ensures var r := StripRight(l, cs); r != "" ==> r[0] !in cs && r[|r| - 1] !in cs
  {
    var r := StripRight(l, cs);
    if r != "" {
      assert r[0] == l[0];
    }
  }

  /** Right-stripping a suffix `l` of `s` keeps a slice of `s` that starts where `l`
      does, and everything after that slice is in `cs`. */
  lemma StripRightInside(s: string, lo: nat, l: string, cs: set<char>)
    requires lo <= |s| && l == s[lo..]
    ensures var r := StripRight(l, cs);
      && lo + |r| <= |s| && s[lo..lo + |r|] == r
      && (forall i :: lo + |r| <= i < |s| ==> s[i] in cs)
  {
    var r := StripRight(l, cs);
    assert r == l[..|r|];
    forall i | lo + |r| <= i < |s|
      ensures s[i] in cs
    {
      assert s[i] == l[i - lo];
    }
  }

  /** Stripping removes a prefix and a suffix made of `cs` characters and keeps a body
      that neither starts nor ends with one. */
  lemma StripCharsExact(pre: string, body: string, post: string, cs: set<char>)
    requires forall i :: 0 <= i < |pre| ==> pre[i] in cs
    requires forall i :: 0 <= i < |post| ==> post[i] in cs
    requires body == "" || (body[0] !in cs && body[|body| - 1] !in cs)
    ensures StripChars(pre + body + post, cs) == body
  {
    var s := pre + body + post;
    assert forall i :: 0 <= i < |pre| ==> s[i] == pre[i];
    assert forall i :: |pre| + |body| <= i < |s| ==> s[i] == post[i - |pre| - |body|];
    if body == "" {
      StripCharsEmpty(s, cs);
    } else {
      StripBounds(s, |pre|, |pre| + |body|, cs);
      assert s[|pre|..|pre| + |body|] == body;
    }
  }

  /** A string that neither starts nor ends with a `cs` character is its own strip. */
  lemma StripNoEdges(s: string, cs: set<char>)
    requires s == "" || (s[0] !in cs && s[|s| - 1] !in cs)
    ensures StripChars(s, cs) == s
  {
    StripCharsExact("", s, "", cs);
    assert "" + s + "" == s;
  }

  /** If everything outside `s[lo..hi]` is in `cs` and that slice neither starts nor
      ends with a `cs` character, stripping leaves exactly the slice. */
  lemma StripBounds(s: string, lo: nat, hi: nat, cs: set<char>)
    requires lo < hi <= |s| && s[lo] !in cs && s[hi - 1] !in cs
    requires forall i :: 0 <= i < lo ==> s[i] in cs
    requires forall i :: hi <= i < |s| ==> s[i] in cs
    ensures StripChars(s, cs) == s[lo..hi]
  {
    StripCharsSlice(s, cs);
    StripCharsEmpty(s, cs);
    var r := StripChars(s, cs);
    var start := StripOffset(s, cs);
    assert r[0] == s[start] && r[|r| - 1] == s[start + |r| - 1];
  }

  /** Where the result of `StripChars(s, cs)` starts inside `s`. */
  function StripOffset(s: string, cs: set<char>): nat
  {
    |s| - |StripLeft(s, cs)|
  }

  /** Stripping twice is stripping once. */
  lemma StripCharsIdempotent(s: string, cs: set<char>)
    ensures StripChars(StripChars(s, cs), cs) == StripChars(s, cs)
  {
    StripCharsSlice(s, cs);
  }

  /** The strip of `s` is empty exactly when every character of `s` is in `cs`. */
  lemma {:induction false} StripCharsEmpty(s: string, cs: set<char>)
    ensures StripChars(s, cs) == "" <==> forall i :: 0 <= i < |s| ==> s[i] in cs
  {
    StripCharsSlice(s, cs);
  }

  /** Python `s[n:]`: everything after the first `n` characters, or "" when `s` is shorter. */
  function Drop(s: string, n: nat): (r: string)
    ensures |r| == if n <= |s| then |s| - n else 0
    ensures forall i :: 0 <= i < |r| ==> r[i] == s[n + i]
  {
    if n <= |s| then s[n..] else ""
  }

  predicate IsDigit(c: char) {
    '0' <= c <= '9'
  }

  function DigitChar(d: nat): (c: char)
    requires d < 10
    ensures IsDigit(c)
  {
    ('0' as int + d) as char
  }

  /** Python `f'{n}'` for a natural number: its decimal digits, without leading zeros. */
  function NatToString(n: nat): (r: string)
    ensures |r| >= 1
    ensures forall i :: 0 <= i < |r| ==> IsDigit(r[i])
    ensures r[0] == '0' <==> n == 0
    decreases n
  {
    if n < 10 then [DigitChar(n)] else NatToString(n / 10) + [DigitChar(n % 10)]
  }

  /** The number a string of decimal digits denotes (Python `int(s)`). */
  function DigitsValue(s: string): nat
    requires forall i :: 0 <= i < |s| ==> IsDigit(s[i])
  {
    if s == "" then 0
    else
      var last := s[|s| - 1];
      assert IsDigit(last);
      DigitsValue(s[..|s| - 1]) * 10 + (last as int - '0' as int)
  }

  /** Reading back the decimal rendering gives the number: `int(f'{n}') == n`. */
  lemma {:induction false} NatToStringRoundTrip(n: nat)
    ensures DigitsValue(NatToString(n)) == n
  {
    if n >= 10 {
      var s := NatToString(n);
      assert s[..|s| - 1] == NatToString(n / 10);
      NatToStringRoundTrip(n / 10);
    }
  }

  /** Distinct numbers have distinct renderings. */
  lemma NatToStringInjective(m: nat, n: nat)
    requires NatToString(m) == NatToString(n)
    ensures m == n
  {
    NatToStringRoundTrip(m);
    NatToStringRoundTrip(n);
  }

  /** Concatenation regrouped around a middle part. */
  lemma Regroup(a: string, b: string, m: string, c: string, d: string)
    ensures (a + b) + m + (c + d) == a + (b + m + c) + d
  {
  }

  /** Seven pieces with the first three and the last three fused. */
  lemma Wrap(o1: string, o2: string, o3: string, m: string, c1: string, c2: string, c3: string,
             open: string, close: string)
    requires open == o1 + o2 + o3 && close == c1 + c2 + c3
    ensures o1 + o2 + o3 + m + c1 + c2 + c3 == open + m + close
  {
  }
}
