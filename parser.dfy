/** The tag-pair text rewriter of the feed parser: every interior of a
    `startTag ... endTag` pair is replaced by `f(interior)`, all other bytes
    are copied, and an unmatched start tag makes the whole result empty.

    Go strings are byte strings and `strings.Index` searches bytes, so text
    here is a sequence of bytes. */
module Parser {
  import opened Domain

  /** A Go byte. */
  type byte = b: int | 0 <= b < 256

  type Bytes = seq<byte>

  /** The bytes of a string literal whose characters are all ASCII. */
  function Ascii(s: string): (r: Bytes)
    ensures |r| == |s|
    ensures forall i :: 0 <= i < |s| && s[i] as int < 128 ==> r[i] == s[i] as int
  {
    seq(|s|, i requires 0 <= i < |s| => s[i] as int % 256)
  }

  const TagStartContentEncoded: Bytes := Ascii("<content:encoded>")
  const TagEndContentEncoded: Bytes := Ascii("</content:encoded>")

  /** The two tags of `content:encoded` are non-empty, so the rewriter
      accepts them, and they differ only in the slash after `<`. */
  lemma ContentEncodedTags()
    ensures TagStartContentEncoded != [] && TagEndContentEncoded != []
    ensures TagEndContentEncoded == TagStartContentEncoded[..1] + ['/' as int] + TagStartContentEncoded[1..]
  {
  }

  // ---------------------------------------------------------------------
  // Searching: strings.Index
  // ---------------------------------------------------------------------

  /** `pat` occurs in `s` starting at byte `i`. */
  ghost predicate OccursAt(s: Bytes, pat: Bytes, i: int)
  {
    0 <= i && i + |pat| <= |s| && s[i..i + |pat|] == pat
  }

  ghost predicate Contains(s: Bytes, pat: Bytes)
  {
    exists i :: OccursAt(s, pat, i)
  }

  /** The bytes of `pat` from its `k`-th on agree with `s` from `i + k` on. */
  predicate MatchFrom(s: Bytes, pat: Bytes, i: nat, k: nat)
    requires i + |pat| <= |s| && k <= |pat|
    decreases |pat| - k
  {
    k == |pat| || (s[i + k] == pat[k] && MatchFrom(s, pat, i, k + 1))
  }

  lemma {:induction false} MatchFromAgrees(s: Bytes, pat: Bytes, i: nat, k: nat)
    requires i + |pat| <= |s| && k <= |pat|
    ensures MatchFrom(s, pat, i, k) <==> s[i + k..i + |pat|] == pat[k..]
    decreases |pat| - k
  {
    if k < |pat| {
      MatchFromAgrees(s, pat, i, k + 1);
      assert s[i + k..i + |pat|] == [s[i + k]] + s[i + k + 1..i + |pat|];
      assert pat[k..] == [pat[k]] + pat[k + 1..];
    }
  }

  /** The byte-by-byte comparison finds exactly the occurrences. */
  lemma MatchIsOccurrence(s: Bytes, pat: Bytes, i: nat)
    requires i + |pat| <= |s|
    ensures MatchFrom(s, pat, i, 0) <==> OccursAt(s, pat, i)
  {
    MatchFromAgrees(s, pat, i, 0);
    assert pat[0..] == pat;
  }

  /** The first offset at or after `from` where `pat` occurs in `s`, or -1. */
  function IndexFrom(s: Bytes, pat: Bytes, from: nat): int
    decreases |s| - from
  {
    if from + |pat| > |s| then
      -1
    else if MatchFrom(s, pat, from, 0) then
      from
    else
      IndexFrom(s, pat, from + 1)
  }

  /** A found occurrence lies at or after `from` and inside `s`. */
  lemma {:induction false} IndexFromBounds(s: Bytes, pat: Bytes, from: nat)
    ensures var r := IndexFrom(s, pat, from);
      r == -1 || (from <= r && r + |pat| <= |s|)
    decreases |s| - from
  {
    if from + |pat| <= |s| && !MatchFrom(s, pat, from, 0) {
      IndexFromBounds(s, pat, from + 1);
    }
  }

  /** `IndexFrom` finds `pat` at `r`, inside `s`. */
  ghost predicate FoundAt(s: Bytes, pat: Bytes, from: nat, r: int)
  {
    r == IndexFrom(s, pat, from) && from <= r && r + |pat| <= |s|
  }

  /** `IndexFrom` finds the first occurrence at or after `from`, and -1
      means there is none. */
  lemma {:induction false} IndexFromFinds(s: Bytes, pat: Bytes, from: nat)
    ensures var r := IndexFrom(s, pat, from);
      (r == -1 || OccursAt(s, pat, r))
      && forall j :: from <= j && (r == -1 || j < r) ==> !OccursAt(s, pat, j)
    decreases |s| - from
  {
    if from + |pat| <= |s| {
      MatchIsOccurrence(s, pat, from);
      if !MatchFrom(s, pat, from, 0) {
        IndexFromFinds(s, pat, from + 1);
      }
    }
  }

  /** Go's `strings.Index`: the first byte offset at which `pat` occurs in
      `s`, or -1 when it does not occur (an empty `pat` occurs at 0). */
  function IndexOf(s: Bytes, pat: Bytes): (r: int)
    ensures r == -1 || (0 <= r && r + |pat| <= |s|)
  {
    IndexFromBounds(s, pat, 0);
    IndexFrom(s, pat, 0)
  }

  /** `IndexOf` is the first occurrence, -1 exactly when there is none, and
      0 for the empty pattern. */
  lemma IndexOfIsFirst(s: Bytes, pat: Bytes)
    ensures IndexOf(s, pat) == -1 <==> !Contains(s, pat)
    ensures IndexOf(s, pat) != -1 ==> OccursAt(s, pat, IndexOf(s, pat))
    ensures forall j :: 0 <= j < IndexOf(s, pat) ==> !OccursAt(s, pat, j)
    ensures pat == [] ==> IndexOf(s, pat) == 0
  {
    IndexFromFinds(s, pat, 0);
    if pat == [] {
      assert s[0..0] == pat;
    }
  }

  lemma {:induction false} MatchFromDrop(s: Bytes, pat: Bytes, cur: nat, c: nat, k: nat)
    requires cur <= |s| && c + |pat| <= |s| - cur && k <= |pat|
    ensures MatchFrom(s[cur..], pat, c, k) == MatchFrom(s, pat, cur + c, k)
    decreases |pat| - k
  {
    if k < |pat| {
      MatchFromDrop(s, pat, cur, c, k + 1);
    }
  }

  /** Searching the suffix `s[cur..]` from `c` is searching `s` from `cur + c`. */
  lemma {:induction false} IndexFromDrop(s: Bytes, pat: Bytes, cur: nat, c: nat)
    requires cur <= |s|
    ensures IndexFrom(s[cur..], pat, c) == if IndexFrom(s, pat, cur + c) == -1 then -1 else IndexFrom(s, pat, cur + c) - cur
    decreases |s| - cur - c
  {
    if c + |pat| <= |s| - cur {
      MatchFromDrop(s, pat, cur, c, 0);
      IndexFromDrop(s, pat, cur, c + 1);
    }
  }

  /** Searching a suffix is searching the whole from the suffix's start. */
  lemma IndexOfSuffix(s: Bytes, pat: Bytes, cur: nat, r: int)
    requires cur <= |s|
    requires r == IndexOf(s[cur..], pat)
    ensures if r == -1 then IndexFrom(s, pat, cur) == -1 else FoundAt(s, pat, cur, r + cur)
  {
    IndexFromDrop(s, pat, cur, 0);
    IndexFromBounds(s, pat, cur);
  }

  /** An occurrence inside the slice `s[a..b]` is an occurrence in `s`. */
  lemma OccursInSlice(s: Bytes, pat: Bytes, a: int, b: int, j: int)
    requires 0 <= a <= b <= |s|
    ensures OccursAt(s[a..b], pat, j) <==> 0 <= j && a + j + |pat| <= b && OccursAt(s, pat, a + j)
  {
    if 0 <= j && j + |pat| <= b - a {
      var u := s[a..b][j..j + |pat|];
      var v := s[a + j..a + j + |pat|];
      forall k | 0 <= k < |pat| ensures u[k] == v[k] {
      }
      assert u == v;
    }
  }

  // ---------------------------------------------------------------------
  // What the loop computes
  // ---------------------------------------------------------------------

  /** The rewrite of `s` from the cursor `cur`, after the output `acc`: copy
      up to the end of the next start tag, append `f` of the bytes up to the
      next end tag and that end tag, and go on after it; with no start tag
      left, copy the rest; a start tag with no end tag after it makes the
      whole result empty. */
  function RewriteFrom(s: Bytes, startTag: Bytes, endTag: Bytes, f: Bytes -> Bytes, cur: nat, acc: Bytes): (r: Bytes)
    requires startTag != [] || endTag != []
    requires cur <= |s|
    ensures r == [] || acc <= r
    decreases |s| - cur
  {
    var i := IndexFrom(s, startTag, cur);
    IndexFromBounds(s, startTag, cur);
    if i == -1 then
      acc + s[cur..]
    else
      var open := i + |startTag|;
      var close := IndexFrom(s, endTag, open);
      IndexFromBounds(s, endTag, open);
      if close == -1 then
        []
      else
        RewriteFrom(s, startTag, endTag, f, close + |endTag|, acc + s[cur..open] + f(s[open..close]) + endTag)
  }

  /** The last round: no start tag is left, so the rest is copied. */
  lemma RewriteLast(s: Bytes, startTag: Bytes, endTag: Bytes, f: Bytes -> Bytes, cur: nat, acc: Bytes)
    requires startTag != [] || endTag != []
    requires cur <= |s|
    requires IndexFrom(s, startTag, cur) == -1
    ensures RewriteFrom(s, startTag, endTag, f, cur, acc) == acc + s[cur..]
  {
  }

  /** A start tag without an end tag after it empties the output. */
  lemma RewriteUnmatched(s: Bytes, startTag: Bytes, endTag: Bytes, f: Bytes -> Bytes, cur: nat, i: int, acc: Bytes)
    requires startTag != [] || endTag != []
    requires cur <= |s|
    requires FoundAt(s, startTag, cur, i)
    requires IndexFrom(s, endTag, i + |startTag|) == -1
    ensures RewriteFrom(s, startTag, endTag, f, cur, acc) == []
  {
  }

  /** What `ProcessElementText` returns. It is the rendered split: the
      input's text segments as they are and each element between its own
      tags with `f` applied to its interior, or empty for malformed input. */
  function Rewrite(input: Bytes, startTag: Bytes, endTag: Bytes, f: Bytes -> Bytes): (r: Bytes)
    requires startTag != [] || endTag != []
    ensures r == RenderedSplit(input, startTag, endTag, f)
  {
    RewriteFromIsRenderedScan(input, startTag, endTag, f, 0, []);
    assert Render([], startTag, endTag, f) == [];
    RewriteFrom(input, startTag, endTag, f, 0, [])
  }

  /** One round over a pair: `out` is the output extended by the bytes up
      to the end of the start tag, `f` of the interior and the end tag, and
      the rewrite goes on from `next`, just past the end tag. */
  lemma RewritePair(s: Bytes, startTag: Bytes, endTag: Bytes, f: Bytes -> Bytes, cur: nat, i: int, open: nat, close: int,
                    next: int, acc: Bytes, out: Bytes)
    requires startTag != [] || endTag != []
    requires cur <= |s|
    requires FoundAt(s, startTag, cur, i) && open == i + |startTag|
    requires FoundAt(s, endTag, open, close)
    requires next == close + |endTag|
    requires out == acc + s[cur..open] + f(s[open..close]) + endTag
    ensures cur < next <= |s|
    ensures RewriteFrom(s, startTag, endTag, f, cur, acc) == RewriteFrom(s, startTag, endTag, f, next, out)
  {
  }

  // ---------------------------------------------------------------------
  // The loop
  // ---------------------------------------------------------------------

  /** parser/rss.go ProcessElementText. The loop terminates because every
      round moves the cursor past a start tag and an end tag, and at least
      one of them is non-empty; with both empty the Go loop never ends. */
  method ProcessElementText(input: Bytes, startTag: Bytes, endTag: Bytes, f: Bytes -> Bytes) returns (output: Bytes)
    requires startTag != [] || endTag != []
    ensures output == Rewrite(input, startTag, endTag, f)
  {
    output := [];
    var currentIndex := 0;
    while true
      invariant 0 <= currentIndex <= |input|
      invariant Rewrite(input, startTag, endTag, f) == RewriteFrom(input, startTag, endTag, f, currentIndex, output)
      decreases |input| - currentIndex
    {
      var startTagIndex := IndexOf(input[currentIndex..], startTag);
      IndexOfSuffix(input, startTag, currentIndex, startTagIndex);
      if startTagIndex == -1 {
        RewriteLast(input, startTag, endTag, f, currentIndex, output);
        output := output + input[currentIndex..];
        return;
      }
      startTagIndex := startTagIndex + currentIndex;
      ghost var i := startTagIndex;
      startTagIndex := startTagIndex + |startTag|;
      ghost var acc := output;
      output := output + input[currentIndex..startTagIndex];

      var endTagIndex := IndexOf(input[startTagIndex..], endTag);
      IndexOfSuffix(input, endTag, startTagIndex, endTagIndex);
      if endTagIndex == -1 {
        RewriteUnmatched(input, startTag, endTag, f, currentIndex, i, acc);
        return [];
      }
      endTagIndex := endTagIndex + startTagIndex;
      output := output + f(input[startTagIndex..endTagIndex]);
      output := output + endTag;
      RewritePair(input, startTag, endTag, f, currentIndex, i, startTagIndex, endTagIndex, endTagIndex + |endTag|, acc, output);
      currentIndex := endTagIndex + |endTag|;
    }
  }

  /** parser/rss.go Quote: the rewriter with Go's `strconv.Quote` as the
      transform. `strconv.Quote` is passed in as `goQuote`. */
  method Quote(input: Bytes, startTag: Bytes, endTag: Bytes, goQuote: Bytes -> Bytes) returns (output: Bytes)
    requires startTag != [] || endTag != []
    ensures output == Rewrite(input, startTag, endTag, goQuote)
  {
    output := ProcessElementText(input, startTag, endTag, goQuote);
  }

  // ---------------------------------------------------------------------
  // The same rewrite seen as segments: split the input into plain text and
  // element interiors, then render the pieces back with `f` applied.
  // ---------------------------------------------------------------------

  /** A piece of the input: text copied as it is, or the interior of one
      start-tag/end-tag pair (the tags themselves are not part of it). */
  datatype Segment = Text(text: Bytes) | Element(interior: Bytes)

  function Prepend(done: seq<Segment>, rest: Option<seq<Segment>>): Option<seq<Segment>>
  {
    match rest
    case None => None
    case Some(segs) => Some(done + segs)
  }

  /** The scan of `s` from the cursor `cur`, after the segments `done`:
      the text up to the first start tag, the interior up to the first end
      tag after it, and on from just past that end tag; `None` as soon as a
      start tag has no end tag after it. */
  function Scan(s: Bytes, startTag: Bytes, endTag: Bytes, cur: nat, done: seq<Segment>): Option<seq<Segment>>
    requires startTag != [] || endTag != []
    requires cur <= |s|
    decreases |s| - cur
  {
    var i := IndexFrom(s, startTag, cur);
    IndexFromBounds(s, startTag, cur);
    if i == -1 then
      Some(done + [Text(s[cur..])])
    else
      var open := i + |startTag|;
      var close := IndexFrom(s, endTag, open);
      IndexFromBounds(s, endTag, open);
      if close == -1 then
        None
      else
        Scan(s, startTag, endTag, close + |endTag|, done + [Text(s[cur..i]), Element(s[open..close])])
  }

  /** The input cut into segments, or `None` when it is malformed. */
  function Split(s: Bytes, startTag: Bytes, endTag: Bytes): Option<seq<Segment>>
    requires startTag != [] || endTag != []
  {
    Scan(s, startTag, endTag, 0, [])
  }

  function Piece(seg: Segment, startTag: Bytes, endTag: Bytes, f: Bytes -> Bytes): Bytes
  {
    match seg
    case Text(t) => t
    case Element(x) => startTag + f(x) + endTag
  }

  /** The segments written out in order, each element between its tags and
      its interior passed through `f`. */
  function Render(segs: seq<Segment>, startTag: Bytes, endTag: Bytes, f: Bytes -> Bytes): Bytes
  {
    if segs == [] then [] else Piece(segs[0], startTag, endTag, f) + Render(segs[1..], startTag, endTag, f)
  }

  /** The rendered segments, or the empty string for malformed input. */
  function RenderedSplit(input: Bytes, startTag: Bytes, endTag: Bytes, f: Bytes -> Bytes): Bytes
    requires startTag != [] || endTag != []
  {
    match Split(input, startTag, endTag)
    case None => []
    case Some(segs) => Render(segs, startTag, endTag, f)
  }

  lemma {:induction false} RenderConcat(a: seq<Segment>, b: seq<Segment>, startTag: Bytes, endTag: Bytes, f: Bytes -> Bytes)
    ensures Render(a + b, startTag, endTag, f) == Render(a, startTag, endTag, f) + Render(b, startTag, endTag, f)
    decreases |a|
  {
    if a == [] {
      assert a + b == b;
    } else {
      assert (a + b)[1..] == a[1..] + b;
      RenderConcat(a[1..], b, startTag, endTag, f);
    }
  }

  /** Rendering a text and an element. */
  lemma RenderPair(pre: Bytes, x: Bytes, startTag: Bytes, endTag: Bytes, f: Bytes -> Bytes)
    ensures Render([Text(pre), Element(x)], startTag, endTag, f) == pre + startTag + f(x) + endTag
  {
    assert Render([Element(x)], startTag, endTag, f) == startTag + f(x) + endTag + Render([], startTag, endTag, f);
    assert [Text(pre), Element(x)][1..] == [Element(x)];
  }

  lemma Assoc(a: Bytes, b: Bytes, c: Bytes)
    ensures a + (b + c) == a + b + c
  {
  }

  /** Rendering the segments of a round: the text and start tag, the
      transformed interior and the end tag extend the rendered prefix. */
  lemma RenderPairStep(done: seq<Segment>, pre: Bytes, x: Bytes, t: Bytes, startTag: Bytes, endTag: Bytes, f: Bytes -> Bytes)
    requires t == pre + startTag
    ensures Render(done + [Text(pre), Element(x)], startTag, endTag, f)
         == Render(done, startTag, endTag, f) + t + f(x) + endTag
  {
    var r := Render(done, startTag, endTag, f);
    RenderConcat(done, [Text(pre), Element(x)], startTag, endTag, f);
    RenderPair(pre, x, startTag, endTag, f);
    Assoc(r, t + f(x), endTag);
    Assoc(r, t, f(x));
  }

  /** Rendering the segments of the last round: the rest of the input. */
  lemma RenderLastStep(done: seq<Segment>, rest: Bytes, startTag: Bytes, endTag: Bytes, f: Bytes -> Bytes)
    ensures Render(done + [Text(rest)], startTag, endTag, f) == Render(done, startTag, endTag, f) + rest
  {
    RenderConcat(done, [Text(rest)], startTag, endTag, f);
    assert Render([Text(rest)], startTag, endTag, f) == rest + Render([], startTag, endTag, f);
  }

  /** The bytes up to the end of a start tag found at `i` are the text
      before it and the tag. */
  lemma TextThenStartTag(s: Bytes, startTag: Bytes, cur: nat, i: int)
    requires cur <= |s|
    requires FoundAt(s, startTag, cur, i)
    ensures s[cur..i + |startTag|] == s[cur..i] + startTag
  {
    IndexFromFinds(s, startTag, cur);
  }

  /** The last round of the scan: the rest is one text segment. */
  lemma ScanLast(s: Bytes, startTag: Bytes, endTag: Bytes, cur: nat, done: seq<Segment>)
    requires startTag != [] || endTag != []
    requires cur <= |s|
    requires IndexFrom(s, startTag, cur) == -1
    ensures Scan(s, startTag, endTag, cur, done) == Some(done + [Text(s[cur..])])
  {
  }

  /** A start tag without an end tag after it stops the scan. */
  lemma ScanUnmatched(s: Bytes, startTag: Bytes, endTag: Bytes, cur: nat, i: int, done: seq<Segment>)
    requires startTag != [] || endTag != []
    requires cur <= |s|
    requires FoundAt(s, startTag, cur, i)
    requires IndexFrom(s, endTag, i + |startTag|) == -1
    ensures Scan(s, startTag, endTag, cur, done) == None
  {
  }

  /** A round of the scan over a pair, unfolded. */
  lemma ScanPair(s: Bytes, startTag: Bytes, endTag: Bytes, cur: nat, i: int, close: int,
                 next: int, pair: seq<Segment>, done: seq<Segment>)
    requires startTag != [] || endTag != []
    requires cur <= |s|
    requires FoundAt(s, startTag, cur, i)
    requires FoundAt(s, endTag, i + |startTag|, close)
    requires next == close + |endTag| && pair == [Text(s[cur..i]), Element(s[i + |startTag|..close])]
    ensures cur < next <= |s|
    ensures Scan(s, startTag, endTag, cur, done) == Scan(s, startTag, endTag, next, done + pair)
  {
  }

  /** The rendered scan from the cursor, after the segments `done`. */
  function RenderedScan(s: Bytes, startTag: Bytes, endTag: Bytes, f: Bytes -> Bytes, cur: nat, done: seq<Segment>): Bytes
    requires startTag != [] || endTag != []
    requires cur <= |s|
  {
    match Scan(s, startTag, endTag, cur, done)
    case None => []
    case Some(segs) => Render(segs, startTag, endTag, f)
  }

  /** The rendered scan over a pair, unfolded. */
  lemma RenderedScanPair(s: Bytes, startTag: Bytes, endTag: Bytes, f: Bytes -> Bytes, cur: nat, i: int, close: int,
                         next: int, pair: seq<Segment>, done: seq<Segment>)
    requires startTag != [] || endTag != []
    requires cur <= |s|
    requires FoundAt(s, startTag, cur, i)
    requires FoundAt(s, endTag, i + |startTag|, close)
    requires next == close + |endTag| && pair == [Text(s[cur..i]), Element(s[i + |startTag|..close])]
    ensures cur < next <= |s|
    ensures RenderedScan(s, startTag, endTag, f, cur, done) == RenderedScan(s, startTag, endTag, f, next, done + pair)
  {
    ScanPair(s, startTag, endTag, cur, i, close, next, pair, done);
  }

  /** The bridge on the last round. */
  lemma BridgeLast(s: Bytes, startTag: Bytes, endTag: Bytes, f: Bytes -> Bytes, cur: nat, done: seq<Segment>)
    requires startTag != [] || endTag != []
    requires cur <= |s|
    requires IndexFrom(s, startTag, cur) == -1
    ensures RewriteFrom(s, startTag, endTag, f, cur, Render(done, startTag, endTag, f))
         == RenderedScan(s, startTag, endTag, f, cur, done)
  {
    RenderLastStep(done, s[cur..], startTag, endTag, f);
  }

  /** The bridge on a start tag without an end tag: both sides are empty. */
  lemma BridgeUnmatched(s: Bytes, startTag: Bytes, endTag: Bytes, f: Bytes -> Bytes, cur: nat, i: int, done: seq<Segment>)
    requires startTag != [] || endTag != []
    requires cur <= |s|
    requires FoundAt(s, startTag, cur, i)
    requires IndexFrom(s, endTag, i + |startTag|) == -1
    ensures RewriteFrom(s, startTag, endTag, f, cur, Render(done, startTag, endTag, f))
         == RenderedScan(s, startTag, endTag, f, cur, done)
  {
    RewriteUnmatched(s, startTag, endTag, f, cur, i, Render(done, startTag, endTag, f));
    ScanUnmatched(s, startTag, endTag, cur, i, done);
  }

  /** A round over a pair writes out the segments of that round. */
  lemma RewriteRound(s: Bytes, startTag: Bytes, endTag: Bytes, f: Bytes -> Bytes, cur: nat, i: int, close: int,
                     next: int, pair: seq<Segment>, done: seq<Segment>)
    requires startTag != [] || endTag != []
    requires cur <= |s|
    requires FoundAt(s, startTag, cur, i)
    requires FoundAt(s, endTag, i + |startTag|, close)
    requires next == close + |endTag| && pair == [Text(s[cur..i]), Element(s[i + |startTag|..close])]
    ensures cur < next <= |s|
    ensures RewriteFrom(s, startTag, endTag, f, cur, Render(done, startTag, endTag, f))
         == RewriteFrom(s, startTag, endTag, f, next, Render(done + pair, startTag, endTag, f))
  {
    var open := i + |startTag|;
    var r := Render(done, startTag, endTag, f);
    var out := r + s[cur..open] + f(s[open..close]) + endTag;
    RewritePair(s, startTag, endTag, f, cur, i, open, close, next, r, out);
    TextThenStartTag(s, startTag, cur, i);
    RenderPairStep(done, s[cur..i], s[open..close], s[cur..open], startTag, endTag, f);
    assert Render(done + pair, startTag, endTag, f) == out;
  }

  /** The bridge on a round over a pair, given the bridge after it. */
  lemma BridgePair(s: Bytes, startTag: Bytes, endTag: Bytes, f: Bytes -> Bytes, cur: nat, i: int, close: int,
                   next: nat, pair: seq<Segment>, done: seq<Segment>)
    requires startTag != [] || endTag != []
    requires cur <= |s|
    requires FoundAt(s, startTag, cur, i)
    requires FoundAt(s, endTag, i + |startTag|, close)
    requires next == close + |endTag| && pair == [Text(s[cur..i]), Element(s[i + |startTag|..close])]
    requires next <= |s|
    requires RewriteFrom(s, startTag, endTag, f, next, Render(done + pair, startTag, endTag, f))
          == RenderedScan(s, startTag, endTag, f, next, done + pair)
    ensures RewriteFrom(s, startTag, endTag, f, cur, Render(done, startTag, endTag, f))
         == RenderedScan(s, startTag, endTag, f, cur, done)
  {
    RewriteRound(s, startTag, endTag, f, cur, i, close, next, pair, done);
    RenderedScanPair(s, startTag, endTag, f, cur, i, close, next, pair, done);
  }

  /** The rewrite and the rendered scan agree from every cursor, given that
      the output so far is the rendered prefix. */
  lemma {:induction false} RewriteFromIsRenderedScan(s: Bytes, startTag: Bytes, endTag: Bytes, f: Bytes -> Bytes, cur: nat, done: seq<Segment>)
    requires startTag != [] || endTag != []
    requires cur <= |s|
    ensures RewriteFrom(s, startTag, endTag, f, cur, Render(done, startTag, endTag, f))
         == RenderedScan(s, startTag, endTag, f, cur, done)
    decreases |s| - cur
  {
    var i := IndexFrom(s, startTag, cur);
    IndexFromBounds(s, startTag, cur);
    if i == -1 {
      BridgeLast(s, startTag, endTag, f, cur, done);
    } else {
      var close := IndexFrom(s, endTag, i + |startTag|);
      IndexFromBounds(s, endTag, i + |startTag|);
      if close != -1 {
        var next := close + |endTag|;
        var pair := [Text(s[cur..i]), Element(s[i + |startTag|..close])];
        RewriteFromIsRenderedScan(s, startTag, endTag, f, next, done + pair);
        BridgePair(s, startTag, endTag, f, cur, i, close, next, pair, done);
      } else {
        BridgeUnmatched(s, startTag, endTag, f, cur, i, done);
      }
    }
  }

  lemma PrependConcat(a: seq<Segment>, b: seq<Segment>, rest: Option<seq<Segment>>)
    ensures Prepend(a, Prepend(b, rest)) == Prepend(a + b, rest)
  {
    if rest.Some? {
      assert a + (b + rest.value) == (a + b) + rest.value;
    }
  }

  /** The segments found before the cursor are a prefix of the result, and
      do not affect whether the rest of the input is well formed. */
  lemma {:induction false} ScanPrepend(s: Bytes, startTag: Bytes, endTag: Bytes, cur: nat, done: seq<Segment>)
    requires startTag != [] || endTag != []
    requires cur <= |s|
    ensures Scan(s, startTag, endTag, cur, done) == Prepend(done, Scan(s, startTag, endTag, cur, []))
    decreases |s| - cur
  {
    var i := IndexFrom(s, startTag, cur);
    IndexFromBounds(s, startTag, cur);
    if i == -1 {
      ScanLast(s, startTag, endTag, cur, done);
      ScanLast(s, startTag, endTag, cur, []);
      assert [] + [Text(s[cur..])] == [Text(s[cur..])];
    } else {
      var open := i + |startTag|;
      var close := IndexFrom(s, endTag, open);
      IndexFromBounds(s, endTag, open);
      if close != -1 {
        var pair := [Text(s[cur..i]), Element(s[open..close])];
        var next := close + |endTag|;
        ScanPair(s, startTag, endTag, cur, i, close, next, pair, done);
        ScanPair(s, startTag, endTag, cur, i, close, next, pair, []);
        ScanPrepend(s, startTag, endTag, next, done + pair);
        ScanPrepend(s, startTag, endTag, next, [] + pair);
        assert [] + pair == pair;
        PrependConcat(done, pair, Scan(s, startTag, endTag, next, []));
      } else {
        ScanUnmatched(s, startTag, endTag, cur, i, done);
        ScanUnmatched(s, startTag, endTag, cur, i, []);
      }
    }
  }

  // ---------------------------------------------------------------------
  // Properties of the rewriter
  // ---------------------------------------------------------------------

  /** Input with no start tag comes back unchanged. */
  lemma NoStartTagIsIdentity(s: Bytes, startTag: Bytes, endTag: Bytes, f: Bytes -> Bytes)
    requires startTag != [] || endTag != []
    requires !Contains(s, startTag)
    ensures Split(s, startTag, endTag) == Some([Text(s)])
    ensures Rewrite(s, startTag, endTag, f) == s
  {
    IndexOfIsFirst(s, startTag);
    assert [] + [Text(s[0..])] == [Text(s)];
    assert [] + s[0..] == s;
  }

  /** A first start tag with no end tag after it makes the result empty. */
  lemma UnmatchedStartTagFails(s: Bytes, startTag: Bytes, endTag: Bytes, f: Bytes -> Bytes)
    requires startTag != [] || endTag != []
    requires Contains(s, startTag)
    requires !Contains(s[IndexOf(s, startTag) + |startTag|..], endTag)
    ensures Split(s, startTag, endTag) == None
    ensures Rewrite(s, startTag, endTag, f) == []
  {
    var i := IndexOf(s, startTag);
    IndexOfIsFirst(s, startTag);
    var open := i + |startTag|;
    var r := IndexOf(s[open..], endTag);
    IndexOfIsFirst(s[open..], endTag);
    IndexOfSuffix(s, endTag, open, r);
    ScanUnmatched(s, startTag, endTag, 0, i, []);
    RewriteUnmatched(s, startTag, endTag, f, 0, i, []);
  }

  /** A start tag that is empty matches at every cursor position, so the
      scan always runs out of end tags: the output is always empty. */
  lemma {:induction false} EmptyStartTagFails(s: Bytes, endTag: Bytes, cur: nat, done: seq<Segment>)
    requires endTag != []
    requires cur <= |s|
    ensures Scan(s, [], endTag, cur, done) == None
    decreases |s| - cur
  {
    assert IndexFrom(s, [], cur) == cur;
    var close := IndexFrom(s, endTag, cur);
    IndexFromBounds(s, endTag, cur);
    if close != -1 {
      var next := close + |endTag|;
      var pair := [Text(s[cur..cur]), Element(s[cur..close])];
      ScanPair(s, [], endTag, cur, cur, close, next, pair, done);
      EmptyStartTagFails(s, endTag, next, done + pair);
    } else {
      ScanUnmatched(s, [], endTag, cur, cur, done);
    }
  }

  /** An empty start tag empties every output. */
  lemma EmptyStartTagEmptiesOutput(s: Bytes, endTag: Bytes, f: Bytes -> Bytes)
    requires endTag != []
    ensures Rewrite(s, [], endTag, f) == []
  {
    EmptyStartTagFails(s, endTag, 0, []);
  }

  /** The rest of `s` from the cursor has no start tag without an end tag
      after it. */
  predicate WellFormedFrom(s: Bytes, startTag: Bytes, endTag: Bytes, cur: nat)
    requires startTag != [] || endTag != []
    requires cur <= |s|
    decreases |s| - cur
  {
    var i := IndexFrom(s, startTag, cur);
    IndexFromBounds(s, startTag, cur);
    i == -1 ||
      var close := IndexFrom(s, endTag, i + |startTag|);
      IndexFromBounds(s, endTag, i + |startTag|);
      close != -1 && WellFormedFrom(s, startTag, endTag, close + |endTag|)
  }

  lemma WellFormedLast(s: Bytes, startTag: Bytes, endTag: Bytes, cur: nat)
    requires startTag != [] || endTag != []
    requires cur <= |s|
    requires IndexFrom(s, startTag, cur) == -1
    ensures WellFormedFrom(s, startTag, endTag, cur)
  {
  }

  lemma WellFormedUnmatched(s: Bytes, startTag: Bytes, endTag: Bytes, cur: nat, i: int)
    requires startTag != [] || endTag != []
    requires cur <= |s|
    requires FoundAt(s, startTag, cur, i)
    requires IndexFrom(s, endTag, i + |startTag|) == -1
    ensures !WellFormedFrom(s, startTag, endTag, cur)
  {
  }

  lemma WellFormedPair(s: Bytes, startTag: Bytes, endTag: Bytes, cur: nat, i: int, close: int, next: int)
    requires startTag != [] || endTag != []
    requires cur <= |s|
    requires FoundAt(s, startTag, cur, i)
    requires FoundAt(s, endTag, i + |startTag|, close)
    requires next == close + |endTag|
    ensures cur < next <= |s|
    ensures WellFormedFrom(s, startTag, endTag, cur) == WellFormedFrom(s, startTag, endTag, next)
  {
  }

  /** The scan succeeds exactly on well-formed input, whatever came before. */
  lemma {:induction false} ScanSucceedsIffWellFormed(s: Bytes, startTag: Bytes, endTag: Bytes, cur: nat, done: seq<Segment>)
    requires startTag != [] || endTag != []
    requires cur <= |s|
    ensures Scan(s, startTag, endTag, cur, done).Some? <==> WellFormedFrom(s, startTag, endTag, cur)
    decreases |s| - cur
  {
    var i := IndexFrom(s, startTag, cur);
    IndexFromBounds(s, startTag, cur);
    if i == -1 {
      ScanLast(s, startTag, endTag, cur, done);
      WellFormedLast(s, startTag, endTag, cur);
    } else {
      var close := IndexFrom(s, endTag, i + |startTag|);
      IndexFromBounds(s, endTag, i + |startTag|);
      if close != -1 {
        var next := close + |endTag|;
        var pair := [Text(s[cur..i]), Element(s[i + |startTag|..close])];
        ScanPair(s, startTag, endTag, cur, i, close, next, pair, done);
        WellFormedPair(s, startTag, endTag, cur, i, close, next);
        ScanSucceedsIffWellFormed(s, startTag, endTag, next, done + pair);
      } else {
        ScanUnmatched(s, startTag, endTag, cur, i, done);
        WellFormedUnmatched(s, startTag, endTag, cur, i);
      }
    }
  }

  /** Once the rest is malformed the output is empty, however many pairs
      were already written. */
  lemma {:induction false} MalformedRestEmptiesOutput(s: Bytes, startTag: Bytes, endTag: Bytes, f: Bytes -> Bytes, cur: nat, acc: Bytes)
    requires startTag != [] || endTag != []
    requires cur <= |s|
    requires !WellFormedFrom(s, startTag, endTag, cur)
    ensures RewriteFrom(s, startTag, endTag, f, cur, acc) == []
    decreases |s| - cur
  {
    var i := IndexFrom(s, startTag, cur);
    IndexFromBounds(s, startTag, cur);
    var close := IndexFrom(s, endTag, i + |startTag|);
    IndexFromBounds(s, endTag, i + |startTag|);
    if close != -1 {
      var open := i + |startTag|;
      var next := close + |endTag|;
      var acc' := acc + s[cur..open] + f(s[open..close]) + endTag;
      RewritePair(s, startTag, endTag, f, cur, i, open, close, next, acc, acc');
      WellFormedPair(s, startTag, endTag, cur, i, close, next);
      MalformedRestEmptiesOutput(s, startTag, endTag, f, next, acc');
    } else {
      RewriteUnmatched(s, startTag, endTag, f, cur, i, acc);
    }
  }

  /** Gluing back the bytes of a round when the transform is the identity. */
  lemma GlueRound(s: Bytes, acc: Bytes, cur: int, open: int, close: int, next: int, endTag: Bytes)
    requires 0 <= cur <= open <= close <= next <= |s|
    requires s[close..next] == endTag
    ensures acc + s[cur..open] + s[open..close] + endTag + s[next..] == acc + s[cur..]
  {
    assert s[cur..] == s[cur..open] + s[open..close] + s[close..next] + s[next..] by {
      assert s[cur..close] == s[cur..open] + s[open..close];
      assert s[cur..next] == s[cur..close] + s[close..next];
      assert s[cur..] == s[cur..next] + s[next..];
    }
  }

  /** With the identity as transform, a well-formed rest is copied as it
      is: the tags and the bytes between them tile the input without gaps or
      overlaps. */
  lemma {:induction false} RewriteFromIdentity(s: Bytes, startTag: Bytes, endTag: Bytes, f: Bytes -> Bytes, cur: nat, acc: Bytes)
    requires startTag != [] || endTag != []
    requires forall b :: f(b) == b
    requires cur <= |s|
    requires WellFormedFrom(s, startTag, endTag, cur)
    ensures RewriteFrom(s, startTag, endTag, f, cur, acc) == acc + s[cur..]
    decreases |s| - cur
  {
    var i := IndexFrom(s, startTag, cur);
    IndexFromBounds(s, startTag, cur);
    if i == -1 {
      RewriteLast(s, startTag, endTag, f, cur, acc);
    } else {
      var open := i + |startTag|;
      var close := IndexFrom(s, endTag, open);
      IndexFromBounds(s, endTag, open);
      var next := close + |endTag|;
      assert f(s[open..close]) == s[open..close];
      var acc' := acc + s[cur..open] + s[open..close] + endTag;
      RewritePair(s, startTag, endTag, f, cur, i, open, close, next, acc, acc');
      RewriteFromIdentity(s, startTag, endTag, f, next, acc');
      IndexFromFinds(s, endTag, open);
      GlueRound(s, acc, cur, open, close, next, endTag);
    }
  }

  /** Round trip: with the identity as transform, well-formed input comes
      back unchanged. */
  lemma IdentityRoundTrip(s: Bytes, startTag: Bytes, endTag: Bytes, f: Bytes -> Bytes)
    requires startTag != [] || endTag != []
    requires forall b :: f(b) == b
    requires Split(s, startTag, endTag).Some?
    ensures Rewrite(s, startTag, endTag, f) == s
  {
    ScanSucceedsIffWellFormed(s, startTag, endTag, 0, []);
    RewriteFromIdentity(s, startTag, endTag, f, 0, []);
    assert [] + s[0..] == s;
  }

  /** No occurrence of `pat` starts in `t` before offset `n`. */
  ghost predicate NoneBefore(t: Bytes, pat: Bytes, n: int)
  {
    forall j :: 0 <= j < n ==> !OccursAt(t, pat, j)
  }

  /** A segment is maximal when the tag that ends it is the first one: an
      element's interior followed by the end tag holds no end tag starting
      inside the interior, and a text followed by the start tag holds no
      start tag starting inside the text. The last text of the input is
      followed by no tag, and no start tag starts inside it. */
  ghost predicate Maximal(seg: Segment, startTag: Bytes, endTag: Bytes, last: bool)
  {
    match seg
    case Text(t) => if last then NoneBefore(t, startTag, |t|) else NoneBefore(t + startTag, startTag, |t|)
    case Element(x) => NoneBefore(x + endTag, endTag, |x|)
  }

  /** An occurrence-free stretch of `s` stays occurrence-free in a slice
      starting where it starts. */
  lemma NoTagInSlice(s: Bytes, pat: Bytes, a: int, b: int, n: int)
    requires 0 <= a <= b <= |s| && 0 <= n <= b - a
    requires forall j :: a <= j < a + n ==> !OccursAt(s, pat, j)
    ensures NoneBefore(s[a..b], pat, n)
  {
    forall j | 0 <= j < n ensures !OccursAt(s[a..b], pat, j) {
      OccursInSlice(s, pat, a, b, j);
    }
  }

  /** Every segment is maximal: each interior ends at the first end tag
      after its start tag, each text before a pair ends at the first start
      tag, and scanning resumes after that end tag, so pairs never overlap
      and no text hides a start tag. */
  lemma {:induction false} ScanSegmentsAreMaximal(s: Bytes, startTag: Bytes, endTag: Bytes, cur: nat, done: seq<Segment>)
    requires startTag != [] || endTag != []
    requires cur <= |s|
    requires forall k :: 0 <= k < |done| ==> Maximal(done[k], startTag, endTag, false)
    requires Scan(s, startTag, endTag, cur, done).Some?
    ensures var r := Scan(s, startTag, endTag, cur, done).value;
      forall k :: 0 <= k < |r| ==> Maximal(r[k], startTag, endTag, k == |r| - 1)
    decreases |s| - cur
  {
    var i := IndexFrom(s, startTag, cur);
    IndexFromBounds(s, startTag, cur);
    IndexFromFinds(s, startTag, cur);
    if i == -1 {
      NoTagInSlice(s, startTag, cur, |s|, |s| - cur);
      assert s[cur..|s|] == s[cur..];
      ScanLast(s, startTag, endTag, cur, done);
    } else {
      var open := i + |startTag|;
      var close := IndexFrom(s, endTag, open);
      IndexFromBounds(s, endTag, open);
      IndexFromFinds(s, endTag, open);
      var next := close + |endTag|;
      TextThenStartTag(s, startTag, cur, i);
      NoTagInSlice(s, startTag, cur, open, i - cur);
      assert s[open..next] == s[open..close] + endTag;
      NoTagInSlice(s, endTag, open, next, close - open);
      var pair := [Text(s[cur..i]), Element(s[open..close])];
      ScanPair(s, startTag, endTag, cur, i, close, next, pair, done);
      ScanSegmentsAreMaximal(s, startTag, endTag, next, done + pair);
    }
  }

  /** Every segment of a well-formed input is maximal. */
  lemma SegmentsAreMaximal(s: Bytes, startTag: Bytes, endTag: Bytes)
    requires startTag != [] || endTag != []
    requires Split(s, startTag, endTag).Some?
    ensures var r := Split(s, startTag, endTag).value;
      forall k :: 0 <= k < |r| ==> Maximal(r[k], startTag, endTag, k == |r| - 1)
  {
    ScanSegmentsAreMaximal(s, startTag, endTag, 0, []);
  }
}
