/** Chunking a long text: structural segments, cut to size, with short pieces merged into their predecessors. */
module Chunker {
  import opened FixedSplit
  import opened Structure
  import opened Text

  // ----- segments to pieces

  /** A segment as it is if it is short enough, cut to size otherwise. */
  function PiecesOf(s: Segment): seq<Chunk> {
    if |s.text| <= MAX_CHUNK_SIZE then [Chunk(s.text, s.start, s.start + |s.text|)]
    else FixedFrom(s.text, s.start, 0)
  }

  function Pieces(segs: seq<Segment>): seq<Chunk> {
    if segs == [] then [] else PiecesOf(segs[0]) + Pieces(segs[1..])
  }

  /** The piece is the text between its offsets, which lie within lo and hi. */
  ghost predicate PieceIn(content: string, c: Chunk, lo: nat, hi: nat) {
    lo <= c.start < c.end <= hi <= |content| && c.text == content[c.start..c.end]
  }

  ghost predicate PiecesIn(content: string, cs: seq<Chunk>, lo: nat, hi: nat) {
    (forall c :: c in cs ==> PieceIn(content, c, lo, hi)) && Ascending(cs)
  }

  lemma SliceOfSlice(t: string, a: nat, b: nat, i: nat, j: nat)
    requires a <= b <= |t| && i <= j <= b - a
    ensures t[a..b][i..j] == t[a + i..a + j]
  {
    var whole, part := t[a..b], t[a + i..a + j];
    forall k | 0 <= k < j - i ensures whole[i..j][k] == part[k] {
      assert whole[i + k] == t[a + (i + k)];
    }
  }

  /** The pieces of a segment lie in it, in order, and cover it. */
  lemma PiecesOfSegment(content: string, s: Segment, lo: nat, hi: nat)
    requires SegmentSlice(content, s, lo, hi)
    ensures var cs := PiecesOf(s);
      && cs != [] && PiecesIn(content, cs, s.start, s.start + |s.text|)
      && forall p :: s.start <= p < s.start + |s.text| ==> Covered(cs, p)
  {
    var cs := PiecesOf(s);
    if |s.text| <= MAX_CHUNK_SIZE {
      assert cs[0] in cs;
    } else {
      FixedTiles(s.text, s.start, 0);
      forall c | c in cs ensures PieceIn(content, c, s.start, s.start + |s.text|) {
        assert PieceOf(s.text, s.start, 0, c);
        SliceOfSlice(content, s.start, s.start + |s.text|, c.start - s.start, c.end - s.start);
      }
    }
  }

  /** Only a segment of more than 1200 characters is cut, and no piece is longer. */
  lemma PieceSizes(s: Segment)
    ensures |s.text| <= 1200 <==> |PiecesOf(s)| == 1
    ensures forall c :: c in PiecesOf(s) ==> |c.text| <= if |s.text| <= 1200 then 1200 else 600
  {
    if |s.text| > MAX_CHUNK_SIZE {
      FixedRebuilds(s.text, s.start, 0);
      FixedTiles(s.text, s.start, 0);
      forall c | c in PiecesOf(s) ensures |c.text| <= 600 {
        assert PieceOf(s.text, s.start, 0, c);
      }
    }
  }

  lemma {:induction false} PiecesCover(content: string, segs: seq<Segment>, lo: nat)
    requires (forall s :: s in segs ==> SegmentSlice(content, s, lo, |content|)) && InOrder(segs)
    ensures PiecesIn(content, Pieces(segs), lo, |content|)
    ensures forall p :: SegmentCovers(segs, p) ==> Covered(Pieces(segs), p)
    ensures segs != [] ==> Pieces(segs) != []
    decreases |segs|
  {
    if segs != [] {
      var s := segs[0];
      var mid := s.start + |s.text|;
      PiecesOfSegment(content, s, lo, |content|);
      RestInOrder(content, segs, lo);
      PiecesCover(content, segs[1..], mid);
      PiecesJoin(content, PiecesOf(s), Pieces(segs[1..]), lo, s.start, mid);
      forall p | SegmentCovers(segs, p) ensures Covered(PiecesOf(s) + Pieces(segs[1..]), p) {
        CoveredInPart(segs, p, PiecesOf(s), Pieces(segs[1..]));
      }
    }
  }

  lemma RestInOrder(content: string, segs: seq<Segment>, lo: nat)
    requires segs != [] && (forall s :: s in segs ==> SegmentSlice(content, s, lo, |content|)) && InOrder(segs)
    ensures InOrder(segs[1..])
        && forall s :: s in segs[1..] ==> SegmentSlice(content, s, segs[0].start + |segs[0].text|, |content|)
  {
    forall s | s in segs[1..] ensures SegmentSlice(content, s, segs[0].start + |segs[0].text|, |content|) {
      var k :| 0 <= k < |segs[1..]| && segs[1..][k] == s;
      assert segs[k + 1] == s && s in segs;
    }
  }

  lemma CoveredInPart(segs: seq<Segment>, p: nat, first: seq<Chunk>, rest: seq<Chunk>)
    requires segs != [] && SegmentCovers(segs, p)
    requires segs[0].start <= p < segs[0].start + |segs[0].text| ==> Covered(first, p)
    requires SegmentCovers(segs[1..], p) ==> Covered(rest, p)
    ensures Covered(first + rest, p)
  {
    var s :| s in segs && s.start <= p < s.start + |s.text|;
    if s == segs[0] {
      assert Covered(first, p);
    } else {
      assert s in segs[1..];
      assert Covered(rest, p);
    }
  }

  lemma PiecesJoin(content: string, a: seq<Chunk>, b: seq<Chunk>, lo: nat, from: nat, mid: nat)
    requires lo <= from <= mid <= |content| && PiecesIn(content, a, from, mid) && PiecesIn(content, b, mid, |content|)
    ensures PiecesIn(content, a + b, lo, |content|)
  {
    var cs := a + b;
    forall k | 0 <= k < |cs| - 1 ensures Precedes(cs[k], cs[k + 1]) {
      if k + 1 < |a| {
        assert Precedes(a[k], a[k + 1]);
      } else if k < |a| {
        assert a[k] in a && b[0] in b;
        assert PieceIn(content, a[k], from, mid) && PieceIn(content, b[0], mid, |content|);
      } else {
        assert Precedes(b[k - |a|], b[k - |a| + 1]);
      }
    }
  }

  // ----- merging short pieces

  /** b's text put behind a's, on a new line. */
  function Merge(a: Chunk, b: Chunk): Chunk {
    Chunk(a.text + "\n" + b.text, a.start, b.end)
  }

  function SuppressOrphans(cs: seq<Chunk>): (out: seq<Chunk>)
    ensures cs != [] ==> out != []
  {
    if |cs| < 2 then cs
    else
      var c := cs[|cs| - 1];
      var out := SuppressOrphans(cs[..|cs| - 1]);
      if |c.text| < MIN_CHUNK_SIZE then out[..|out| - 1] + [Merge(out[|out| - 1], c)] else out + [c]
  }

  method Suppress(chunks: seq<Chunk>) returns (out: seq<Chunk>)
    ensures out == SuppressOrphans(chunks)
  {
    if chunks == [] {
      return chunks;
    }
    out := [chunks[0]];
    var k := 1;
    assert chunks[..1] == [chunks[0]];
    while k < |chunks|
      invariant 1 <= k <= |chunks| && out == SuppressOrphans(chunks[..k])
    {
      var c := chunks[k];
      assert chunks[..k + 1][..k] == chunks[..k];
      if |c.text| < MIN_CHUNK_SIZE {
        var prev := out[|out| - 1];
        out := out[|out| - 1 := Chunk(prev.text + "\n" + c.text, prev.start, c.end)];
      } else {
        out := out + [c];
      }
      k := k + 1;
    }
    assert chunks[..k] == chunks;
  }

  /** o spans c and contains its text. */
  ghost predicate Contains(o: Chunk, c: Chunk) {
    o.start <= c.start && c.end <= o.end && exists i :: IsAt(o.text, c.text, i)
  }

  ghost predicate Kept(out: seq<Chunk>, c: Chunk) {
    exists k :: 0 <= k < |out| && Contains(out[k], c)
  }

  lemma MergeContains(a: Chunk, b: Chunk, c: Chunk)
    requires Precedes(a, b)
    ensures Contains(a, c) ==> Contains(Merge(a, b), c)
    ensures Contains(Merge(a, b), b)
  {
    var m := Merge(a, b);
    if Contains(a, c) {
      var i :| IsAt(a.text, c.text, i);
      assert IsAt(m.text, c.text, i);
    }
    assert IsAt(m.text, b.text, |a.text| + 1);
  }

  /** What merging leaves: the pieces are all there, in order, and only the first can be short. */
  ghost predicate Merged(cs: seq<Chunk>, out: seq<Chunk>) {
    && (forall c :: c in cs ==> Kept(out, c))
    && Ascending(out)
    && (forall k :: 1 <= k < |out| ==> |out[k].text| >= MIN_CHUNK_SIZE)
    && (cs != [] ==> out != [] && out[0].start == cs[0].start && out[|out| - 1].end == cs[|cs| - 1].end
                     && out[|out| - 1].start <= cs[|cs| - 1].start)
  }

  lemma {:induction false} SuppressMerges(cs: seq<Chunk>)
    requires Ascending(cs)
    ensures Merged(cs, SuppressOrphans(cs))
    decreases |cs|
  {
    if |cs| < 2 {
      forall c | c in cs ensures Kept(cs, c) {
        assert IsAt(c.text, c.text, 0) && Contains(cs[0], c);
      }
    } else {
      var n := |cs| - 1;
      var init, c := cs[..n], cs[n];
      var out := SuppressOrphans(init);
      assert Precedes(cs[n - 1], cs[n]) && init[|init| - 1] == cs[n - 1] && cs == init + [c];
      SuppressMerges(init);
      if |c.text| < MIN_CHUNK_SIZE {
        MergedByMerge(init, out, c);
      } else {
        MergedByAppend(init, out, c);
      }
    }
  }

  ghost predicate StartsAt(out: seq<Chunk>, start: nat) {
    exists k :: 0 <= k < |out| && out[k].start == start
  }

  /** Chunks start exactly where the first piece and the pieces of at least 120 characters do. */
  lemma {:induction false} ChunkStartsExact(cs: seq<Chunk>, start: nat)
    ensures StartsAt(SuppressOrphans(cs), start)
       <==> exists k :: 0 <= k < |cs| && cs[k].start == start && (k == 0 || |cs[k].text| >= 120)
    decreases |cs|
  {
    if |cs| >= 2 {
      var n := |cs| - 1;
      var out := SuppressOrphans(cs[..n]);
      ChunkStartsExact(cs[..n], start);
      LastChanged(out, cs[n], start);
      forall k | 0 <= k < n ensures cs[..n][k] == cs[k] {
      }
    }
  }

  /** The texts one below the other. */
  function Joined(cs: seq<Chunk>): string {
    if cs == [] then ""
    else if |cs| == 1 then cs[0].text
    else Joined(cs[..|cs| - 1]) + "\n" + cs[|cs| - 1].text
  }

  /** Merging only decides which line ends lie between chunks: read one below the other they are the pieces. */
  lemma {:induction false} MergeJoins(cs: seq<Chunk>)
    ensures Joined(SuppressOrphans(cs)) == Joined(cs)
    decreases |cs|
  {
    if |cs| >= 2 {
      var n := |cs| - 1;
      var out := SuppressOrphans(cs[..n]);
      MergeJoins(cs[..n]);
      LastJoined(out, cs[n]);
    }
  }

  lemma LastJoined(out: seq<Chunk>, c: Chunk)
    requires out != []
    ensures Joined(out + [c]) == Joined(out) + "\n" + c.text
    ensures Joined(out[..|out| - 1] + [Merge(out[|out| - 1], c)]) == Joined(out) + "\n" + c.text
  {
    var n := |out| - 1;
    assert (out + [c])[..|out|] == out;
    var merged := out[..n] + [Merge(out[n], c)];
    assert merged[..n] == out[..n];
    if n > 0 {
      MergeLast(Joined(out[..n]), out[n].text, c.text);
    }
  }

  lemma MergeLast(head: string, a: string, b: string)
    ensures head + "\n" + (a + "\n" + b) == head + "\n" + a + "\n" + b
  {
  }

  lemma LastChanged(out: seq<Chunk>, c: Chunk, start: nat)
    requires out != []
    ensures StartsAt(out[..|out| - 1] + [Merge(out[|out| - 1], c)], start) <==> StartsAt(out, start)
    ensures StartsAt(out + [c], start) <==> StartsAt(out, start) || c.start == start
  {
    var merged, appended := out[..|out| - 1] + [Merge(out[|out| - 1], c)], out + [c];
    forall k | 0 <= k < |out| ensures merged[k].start == out[k].start && appended[k] == out[k] {
    }
    assert appended[|out|] == c;
  }

  lemma MergedByMerge(cs: seq<Chunk>, out: seq<Chunk>, c: Chunk)
    requires cs != [] && Merged(cs, out) && Precedes(cs[|cs| - 1], c)
    ensures Merged(cs + [c], out[..|out| - 1] + [Merge(out[|out| - 1], c)])
  {
    var n := |out| - 1;
    var out' := out[..n] + [Merge(out[n], c)];
    forall x | x in cs + [c] ensures Kept(out', x) {
      MergeContains(out[n], c, x);
      if x in cs {
        var k :| 0 <= k < |out| && Contains(out[k], x);
        assert Contains(out'[k], x);
      } else {
        assert Contains(out'[n], x);
      }
    }
    forall k | 0 <= k < n ensures Precedes(out'[k], out'[k + 1]) {
      assert Precedes(out[k], out[k + 1]);
    }
  }

  lemma MergedByAppend(cs: seq<Chunk>, out: seq<Chunk>, c: Chunk)
    requires cs != [] && Merged(cs, out) && Precedes(cs[|cs| - 1], c) && |c.text| >= MIN_CHUNK_SIZE
    ensures Merged(cs + [c], out + [c])
  {
    var out' := out + [c];
    forall x | x in cs + [c] ensures Kept(out', x) {
      if x in cs {
        var k :| 0 <= k < |out| && Contains(out[k], x);
        assert Contains(out'[k], x);
      } else {
        assert IsAt(c.text, c.text, 0) && Contains(out'[|out|], c);
      }
    }
    forall k | 0 <= k < |out'| - 1 ensures Precedes(out'[k], out'[k + 1]) {
      if k + 1 < |out| {
        assert Precedes(out[k], out[k + 1]);
      }
    }
  }

  // ----- the chunker

  function SegmentsIn(content: string): seq<Segment> {
    BoundariesAscend(content, FencesIn(content));
    Segments(content, Boundaries(content, FencesIn(content)))
  }

  function Chunks(content: string, force: bool): seq<Chunk> {
    if IsBlankText(content) || (!force && |content| <= CHUNK_THRESHOLD) then []
    else SuppressOrphans(Pieces(SegmentsIn(content)))
  }

  /** A text of at most 2000 characters is chunked only when that is forced; for a longer one it makes no difference. */
  lemma ChunkedIff(content: string, force: bool)
    ensures Chunks(content, force)
         == if |content| <= 2000 && !force then [] else Chunks(content, true)
    ensures Chunks(content, force) != []
       <==> (force || |content| > 2000) && exists k :: 0 <= k < |content| && !IsSpace(content[k])
  {
    PiecesOfText(content);
  }

  method Split(content: string, force: bool) returns (chunks: seq<Chunk>)
    ensures chunks == Chunks(content, force)
  {
    if content == "" || IsBlankText(content) {
      return [];
    }
    if !force && |content| <= CHUNK_THRESHOLD {
      return [];
    }
    var segments := StructuralSplit(content);
    chunks := CutToSize(segments);
    chunks := Suppress(chunks);
  }

  method CutToSize(segments: seq<Segment>) returns (chunks: seq<Chunk>)
    ensures chunks == Pieces(segments)
  {
    chunks := [];
    var k := 0;
    ghost var rest, all := segments, Pieces(segments);
    while k < |segments|
      invariant 0 <= k <= |segments| && rest == segments[k..]
      invariant chunks + Pieces(rest) == all
    {
      ghost var tail := PiecesStep(segments, k, rest, chunks);
      var pieces := CutSegment(segments[k]);
      chunks := chunks + pieces;
      k := k + 1;
      rest := tail;
    }
    assert chunks + [] == chunks;
  }

  lemma PiecesStep(segs: seq<Segment>, k: nat, rest: seq<Segment>, chunks: seq<Chunk>) returns (tail: seq<Segment>)
    requires k < |segs| && rest == segs[k..]
    ensures tail == segs[k + 1..] && chunks + Pieces(rest) == chunks + PiecesOf(segs[k]) + Pieces(tail)
  {
    tail := rest[1..];
  }

  method CutSegment(s: Segment) returns (pieces: seq<Chunk>)
    ensures pieces == PiecesOf(s)
  {
    if |s.text| <= MAX_CHUNK_SIZE {
      pieces := [Chunk(s.text, s.start, s.start + |s.text|)];
    } else {
      pieces := FixedSizeSplit(s.text, s.start);
    }
  }

  /** Before merging, the pieces are slices of the text, in order, and cover everything that is not white space. */
  lemma PiecesOfText(content: string)
    ensures var cs := Pieces(SegmentsIn(content));
      && PiecesIn(content, cs, 0, |content|)
      && (forall p :: 0 <= p < |content| && !IsSpace(content[p]) ==> Covered(cs, p))
      && (!IsBlankText(content) ==> cs != [])
  {
    var bounds := Boundaries(content, FencesIn(content));
    BoundariesAscend(content, FencesIn(content));
    SegmentsCoverText(content, bounds);
    var segs := Segments(content, bounds);
    PiecesCover(content, segs, 0);
    if !IsBlankText(content) {
      var p :| 0 <= p < |content| && !IsSpace(content[p]);
      assert SegmentCovers(segs, p);
    }
  }

  /** Position p of the text is in the chunk: its span covers p, and its text holds the piece of the text around p. */
  ghost predicate Holds(content: string, o: Chunk, p: nat) {
    exists c :: PieceIn(content, c, 0, |content|) && c.start <= p < c.end && Contains(o, c)
  }

  /**
    A text that is chunked loses nothing: every character that is not white space stands in some chunk.
    Chunks start and end further and further on, and each but the first has at least 120 characters.
   */
  lemma ChunksLoseNothing(content: string, force: bool)
    requires force || |content| > 2000
    ensures var out := Chunks(content, force);
      && (out == [] <==> IsBlankText(content))
      && Ascending(out)
      && (forall k :: 1 <= k < |out| ==> |out[k].text| >= 120)
      && forall p :: 0 <= p < |content| && !IsSpace(content[p])
          ==> exists k :: 0 <= k < |out| && Holds(content, out[k], p)
  {
    if !IsBlankText(content) {
      var cs := Pieces(SegmentsIn(content));
      PiecesOfText(content);
      SuppressMerges(cs);
      var out := SuppressOrphans(cs);
      forall p | 0 <= p < |content| && !IsSpace(content[p])
          ensures exists k :: 0 <= k < |out| && Holds(content, out[k], p) {
        HeldSomewhere(content, cs, out, p);
      }
    }
  }

  lemma HeldSomewhere(content: string, cs: seq<Chunk>, out: seq<Chunk>, p: nat)
    requires PiecesIn(content, cs, 0, |content|) && Covered(cs, p) && Merged(cs, out)
    ensures exists k :: 0 <= k < |out| && Holds(content, out[k], p)
  {
    var c :| c in cs && c.start <= p < c.end;
    assert PieceIn(content, c, 0, |content|) && Kept(out, c);
    var k :| 0 <= k < |out| && Contains(out[k], c);
    assert Holds(content, out[k], p);
  }
}
