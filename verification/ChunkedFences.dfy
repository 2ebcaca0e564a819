/**
  Code fences in the chunker: the structural phase never divides them, the fixed-size phase may.
 */
module ChunkedFences {
  import opened Chunker
  import opened FixedSplit
  import opened Structure
  import opened Text

  /** The chunk spans the fence. */
  predicate Spans(c: Chunk, s: Fence) {
    c.start <= s.start && s.end <= c.end
  }

  ghost predicate Whole(cs: seq<Chunk>, s: Fence) {
    exists k :: 0 <= k < |cs| && Spans(cs[k], s)
  }

  /**
    Between two neighbouring pieces the fence is cut: the one ends before it does, and the other starts behind its
    start.
   */
  ghost predicate CutBetween(cs: seq<Chunk>, k: nat, s: Fence) {
    k + 1 < |cs| && cs[k].end < s.end && s.start < cs[k + 1].start
  }

  lemma AscendingFar(cs: seq<Chunk>, i: nat, j: nat)
    requires Ascending(cs) && i < j < |cs|
    ensures Precedes(cs[i], cs[j])
    decreases j - i
  {
    assert Precedes(cs[j - 1], cs[j]);
    if i < j - 1 {
      AscendingFar(cs, i, j - 1);
    }
  }

  /** The last piece that starts at or before a position. */
  lemma LastBefore(cs: seq<Chunk>, p: nat, n: nat) returns (k: nat)
    requires 0 < n <= |cs| && cs[0].start <= p
    ensures k < n && cs[k].start <= p && forall j :: k < j < n ==> p < cs[j].start
  {
    if cs[n - 1].start <= p {
      k := n - 1;
    } else {
      k := LastBefore(cs, p, n - 1);
    }
  }

  /** The pieces of the text, before short ones are merged. */
  function AllPieces(content: string): seq<Chunk> { Pieces(SegmentsIn(content)) }

  lemma {:induction false} PieceOfSome(segs: seq<Segment>, c: Chunk) returns (g: Segment)
    requires c in Pieces(segs)
    ensures g in segs && c in PiecesOf(g)
  {
    if c in PiecesOf(segs[0]) {
      g := segs[0];
    } else {
      g := PieceOfSome(segs[1..], c);
    }
  }

  lemma {:induction false} PiecesOfSome(segs: seq<Segment>, g: Segment, c: Chunk)
    requires g in segs && c in PiecesOf(g)
    ensures c in Pieces(segs)
  {
    if g != segs[0] {
      assert g in segs[1..];
      PiecesOfSome(segs[1..], g, c);
    }
  }

  /** The facts about segments and pieces that the theorems need. */
  lemma Laid(content: string)
    ensures var segs, cs := SegmentsIn(content), AllPieces(content);
      && PiecesIn(content, cs, 0, |content|)
      && InOrder(segs) && forall g :: g in segs ==> SegmentSlice(content, g, 0, |content|)
  {
    var bounds := Boundaries(content, FencesIn(content));
    BoundariesAscend(content, FencesIn(content));
    SegmentsCoverText(content, bounds);
    PiecesOfText(content);
  }

  /** A segment's pieces do not leave it. */
  lemma PieceWithin(content: string, g: Segment, c: Chunk)
    requires SegmentSlice(content, g, 0, |content|) && c in PiecesOf(g)
    ensures g.start <= c.start < c.end <= g.start + |g.text| && |c.text| == c.end - c.start
  {
    PiecesOfSegment(content, g, 0, |content|);
    assert PieceIn(content, c, g.start, g.start + |g.text|);
  }

  /** The segment of the fence is covered by pieces. */
  lemma CoveredPosition(content: string, g: Segment, p: nat) returns (c: Chunk)
    requires g in SegmentsIn(content) && g.start <= p < g.start + |g.text|
    ensures c in AllPieces(content) && c in PiecesOf(g) && c.start <= p < c.end
  {
    Laid(content);
    PiecesOfSegment(content, g, 0, |content|);
    assert Covered(PiecesOf(g), p);
    c :| c in PiecesOf(g) && c.start <= p < c.end;
    PiecesOfSome(SegmentsIn(content), g, c);
  }

  /** Where a fence begins and ends among the pieces. */
  lemma FenceLaid(content: string, s: Fence) returns (i: nat, j: nat)
    requires s in FencesIn(content)
    ensures var cs := AllPieces(content);
      Ascending(cs) && i < |cs| && cs[i].start <= s.start && j < |cs| && s.end <= cs[j].end
  {
    var cs := AllPieces(content);
    Laid(content);
    var g := SegmentOfFence(content, s);
    var first := CoveredPosition(content, g, s.start);
    var last := CoveredPosition(content, g, s.end - 1);
    i :| 0 <= i < |cs| && cs[i] == first;
    j :| 0 <= j < |cs| && cs[j] == last;
  }

  /** In a list that begins before the fence and ends behind it, it is whole if and only if it is cut between no two. */
  lemma WholeIffUncut(cs: seq<Chunk>, s: Fence, i: nat, j: nat)
    requires Ascending(cs) && i < |cs| && cs[i].start <= s.start && j < |cs| && s.end <= cs[j].end
    ensures Whole(cs, s) <==> forall k: nat :: !CutBetween(cs, k, s)
  {
    if Whole(cs, s) {
      var n :| 0 <= n < |cs| && Spans(cs[n], s);
      forall k: nat ensures !CutBetween(cs, k, s) {
        NotCutAround(cs, n, k, s);
      }
    } else {
      var k := LastNotBehind(cs, s.start, i);
      assert !Spans(cs[k], s);
      EndsLater(cs, s, k, j);
      assert CutBetween(cs, k, s);
    }
  }

  /** A fence stays whole in some piece if and only if it is cut between no two. */
  lemma FenceWholeIff(content: string, s: Fence)
    requires s in FencesIn(content)
    ensures Whole(AllPieces(content), s) <==> forall k: nat :: !CutBetween(AllPieces(content), k, s)
  {
    var i, j := FenceLaid(content, s);
    WholeIffUncut(AllPieces(content), s, i, j);
  }

  lemma LastNotBehind(cs: seq<Chunk>, p: nat, i: nat) returns (k: nat)
    requires Ascending(cs) && i < |cs| && cs[i].start <= p
    ensures k < |cs| && cs[k].start <= p && forall j :: k < j < |cs| ==> p < cs[j].start
  {
    if i > 0 {
      AscendingFar(cs, 0, i);
    }
    k := LastBefore(cs, p, |cs|);
  }

  lemma EndsLater(cs: seq<Chunk>, s: Fence, k: nat, j: nat)
    requires Ascending(cs) && k < |cs| && j < |cs| && cs[k].end < s.end <= cs[j].end
    ensures k < j
  {
    if j < k {
      AscendingFar(cs, j, k);
    }
  }

  lemma NotCutAround(cs: seq<Chunk>, k: nat, n: nat, s: Fence)
    requires Ascending(cs) && k < |cs| && Spans(cs[k], s)
    ensures !CutBetween(cs, n, s)
  {
    if n + 1 < |cs| {
      if n + 1 < k {
        AscendingFar(cs, n + 1, k);
      } else if k < n {
        AscendingFar(cs, k, n);
      }
    }
  }

  /** A fence in a segment of at most 1200 characters stays whole. */
  lemma ShortSegmentKeepsFence(content: string, s: Fence, g: Segment)
    requires s in FencesIn(content) && g in SegmentsIn(content) && Structure.Holds(g, s.start, s.end)
        && |g.text| <= MAX_CHUNK_SIZE
    ensures Whole(AllPieces(content), s)
  {
    var cs := AllPieces(content);
    var c := PiecesOf(g)[0];
    PiecesOfSome(SegmentsIn(content), g, c);
    var k :| 0 <= k < |cs| && cs[k] == c;
    assert Spans(cs[k], s);
  }

  /** A fence of more than 600 characters in a segment of more than 1200 is cut. */
  lemma LongFenceIsCut(content: string, s: Fence, g: Segment)
    requires s in FencesIn(content) && g in SegmentsIn(content) && Structure.Holds(g, s.start, s.end)
    requires |g.text| > MAX_CHUNK_SIZE && s.end - s.start > TARGET_CHUNK_SIZE
    ensures !Whole(AllPieces(content), s)
  {
    var segs, cs := SegmentsIn(content), AllPieces(content);
    Laid(content);
    forall k | 0 <= k < |cs| ensures !Spans(cs[k], s) {
      var h := PieceOfSome(segs, cs[k]);
      PieceWithin(content, h, cs[k]);
      OneSegmentAt(segs, g, h, s.start);
      ShortPieces(h, cs[k]);
    }
  }

  /** The pieces of a segment that is cut have at most 600 characters. */
  lemma ShortPieces(g: Segment, c: Chunk)
    requires c in PiecesOf(g)
    ensures |g.text| > MAX_CHUNK_SIZE ==> |c.text| <= TARGET_CHUNK_SIZE
  {
    if |g.text| > MAX_CHUNK_SIZE {
      FixedTiles(g.text, g.start, 0);
      assert PieceOf(g.text, g.start, 0, c);
    }
  }

  /** Only one segment covers a position. */
  lemma OneSegmentAt(segs: seq<Segment>, g: Segment, h: Segment, p: nat)
    requires InOrder(segs) && g in segs && h in segs
    ensures InSegment(g, p) && InSegment(h, p) ==> g == h
  {
    var i :| 0 <= i < |segs| && segs[i] == g;
    var j :| 0 <= j < |segs| && segs[j] == h;
    OneBehindTheOther(segs, i, j);
    OneBehindTheOther(segs, j, i);
  }

  lemma OneBehindTheOther(segs: seq<Segment>, i: nat, j: nat)
    requires InOrder(segs)
    ensures i < j < |segs| ==> segs[i].start + |segs[i].text| <= segs[j].start
  {
  }

  // ----- chunks

  /** The fence's text stands in some chunk. */
  ghost predicate Readable(content: string, out: seq<Chunk>, s: Fence)
    requires s.start <= s.end <= |content|
  {
    exists k, i :: 0 <= k < |out| && IsAt(out[k].text, content[s.start..s.end], i)
  }

  /** A fence that is whole in a piece is whole in a chunk. */
  lemma WholeIsReadable(content: string, force: bool, s: Fence)
    requires s in FencesIn(content) && Whole(AllPieces(content), s)
    requires !IsBlankText(content) && (force || |content| > CHUNK_THRESHOLD)
    ensures s.start <= s.end <= |content| && Whole(Chunks(content, force), s)
        && Readable(content, Chunks(content, force), s)
  {
    var cs, out := AllPieces(content), Chunks(content, force);
    Laid(content);
    var g := SegmentOfFence(content, s);
    SuppressMerges(cs);
    var n :| 0 <= n < |cs| && Spans(cs[n], s);
    var c := cs[n];
    assert c in cs && Kept(out, c) && PieceIn(content, c, 0, |content|);
    var k :| 0 <= k < |out| && Contains(out[k], c);
    var i :| IsAt(out[k].text, c.text, i);
    assert Spans(out[k], s);
    InsidePiece(content, c, s, out[k].text, i);
  }

  lemma InsidePiece(content: string, c: Chunk, s: Fence, t: string, i: int)
    requires PieceIn(content, c, 0, |content|) && c.start <= s.start <= s.end <= c.end && IsAt(t, c.text, i)
    ensures IsAt(t, content[s.start..s.end], i + (s.start - c.start))
  {
    var f := content[s.start..s.end];
    forall k | 0 <= k < |f| ensures t[i + (s.start - c.start) + k] == f[k] {
      assert c.text[s.start - c.start + k] == content[s.start + k];
      assert t[i + (s.start - c.start + k)] == c.text[s.start - c.start + k];
    }
  }

  /** Between chunk m and the next stands the start of piece k, which was too long to be merged. */
  ghost predicate CutAtPiece(cs: seq<Chunk>, out: seq<Chunk>, k: nat, m: nat) {
    && 0 < k < |cs| && |cs[k].text| >= MIN_CHUNK_SIZE
    && m + 1 < |out| && out[m + 1].start == cs[k].start && out[m].end == cs[k - 1].end
  }

  /** Chunks are cut exactly in front of the pieces of at least 120 characters. */
  ghost predicate CutsMatch(cs: seq<Chunk>, out: seq<Chunk>) {
    (forall m: nat :: AtPiece(cs, out, m)) && forall k: nat :: BetweenChunks(cs, out, k)
  }

  ghost predicate AtPiece(cs: seq<Chunk>, out: seq<Chunk>, m: nat) {
    m + 1 < |out| ==> exists k: nat :: CutAtPiece(cs, out, k, m)
  }

  ghost predicate BetweenChunks(cs: seq<Chunk>, out: seq<Chunk>, k: nat) {
    0 < k < |cs| && |cs[k].text| >= MIN_CHUNK_SIZE ==> exists m: nat :: CutAtPiece(cs, out, k, m)
  }

  lemma {:induction false} ChunkCuts(cs: seq<Chunk>)
    requires Ascending(cs)
    ensures CutsMatch(cs, SuppressOrphans(cs))
    decreases |cs|
  {
    if |cs| >= 2 {
      var n := |cs| - 1;
      var out := SuppressOrphans(cs[..n]);
      SuppressMerges(cs[..n]);
      ChunkCuts(cs[..n]);
      if |cs[n].text| < MIN_CHUNK_SIZE {
        CutsOfMerged(cs, n, out, out[..|out| - 1] + [Merge(out[|out| - 1], cs[n])]);
      } else {
        CutsOfAppended(cs, n, out, out + [cs[n]]);
      }
    }
  }

  lemma CutKept(cs: seq<Chunk>, n: nat, out: seq<Chunk>, out': seq<Chunk>, k: nat, m: nat)
    requires n < |cs| && CutAtPiece(cs[..n], out, k, m) && |out| <= |out'|
    requires out'[m].end == out[m].end && out'[m + 1].start == out[m + 1].start
    ensures CutAtPiece(cs, out', k, m)
  {
  }

  lemma CutsOfMerged(cs: seq<Chunk>, n: nat, out: seq<Chunk>, out': seq<Chunk>)
    requires |cs| == n + 1 && |cs[n].text| < MIN_CHUNK_SIZE && CutsMatch(cs[..n], out)
    requires out != [] && out' == out[..|out| - 1] + [Merge(out[|out| - 1], cs[n])]
    ensures CutsMatch(cs, out')
  {
    forall m: nat ensures AtPiece(cs, out', m) {
      OldCut(cs, n, out, out', m);
    }
    forall k: nat ensures BetweenChunks(cs, out', k) {
      OldPiece(cs, n, out, out', k);
    }
  }

  lemma CutsOfAppended(cs: seq<Chunk>, n: nat, out: seq<Chunk>, out': seq<Chunk>)
    requires |cs| == n + 1 && n > 0 && |cs[n].text| >= MIN_CHUNK_SIZE && CutsMatch(cs[..n], out)
    requires out != [] && out' == out + [cs[n]] && out[|out| - 1].end == cs[n - 1].end
    ensures CutsMatch(cs, out')
  {
    assert CutAtPiece(cs, out', n, |out| - 1);
    forall m: nat ensures AtPiece(cs, out', m) {
      OldCut(cs, n, out, out', m);
    }
    forall k: nat ensures BetweenChunks(cs, out', k) {
      OldPiece(cs, n, out, out', k);
    }
  }

  /** Where the chunks keep their starts and, but for the last, their ends, the old cuts stay. */
  ghost predicate Extends(out: seq<Chunk>, out': seq<Chunk>) {
    && |out| <= |out'|
    && (forall m :: 0 <= m < |out| - 1 ==> out'[m].end == out[m].end)
    && forall m :: 0 < m < |out| ==> out'[m].start == out[m].start
  }

  lemma OldCut(cs: seq<Chunk>, n: nat, out: seq<Chunk>, out': seq<Chunk>, m: nat)
    requires n < |cs| && AtPiece(cs[..n], out, m) && Extends(out, out')
    ensures m + 1 < |out| ==> AtPiece(cs, out', m)
  {
    if m + 1 < |out| {
      var k: nat :| CutAtPiece(cs[..n], out, k, m);
      CutKept(cs, n, out, out', k, m);
    }
  }

  lemma OldPiece(cs: seq<Chunk>, n: nat, out: seq<Chunk>, out': seq<Chunk>, k: nat)
    requires n < |cs| && BetweenChunks(cs[..n], out, k) && Extends(out, out')
    ensures k < n ==> BetweenChunks(cs, out', k)
  {
    if 0 < k < n && |cs[k].text| >= MIN_CHUNK_SIZE {
      assert cs[..n][k] == cs[k];
      var m: nat :| CutAtPiece(cs[..n], out, k, m);
      CutKept(cs, n, out, out', k, m);
    }
  }

  /** Every cut between pieces that meets the fence has been merged away again. */
  ghost predicate CutsMerged(cs: seq<Chunk>, s: Fence) {
    forall k: nat :: CutBetween(cs, k, s) ==> |cs[k + 1].text| < MIN_CHUNK_SIZE
  }

  /**
    A fence lies in one chunk if and only if every cut between two pieces that meets it is followed by a piece of less
    than 120 characters, which is merged into the piece before it.
   */
  lemma FenceInOneChunkIff(content: string, force: bool, s: Fence)
    requires s in FencesIn(content) && !IsBlankText(content) && (force || |content| > CHUNK_THRESHOLD)
    ensures Whole(Chunks(content, force), s) <==> CutsMerged(AllPieces(content), s)
  {
    var cs, out := AllPieces(content), Chunks(content, force);
    var i, j := FenceLaid(content, s);
    SuppressMerges(cs);
    FirstAndLast(cs, i, j);
    WholeIffUncut(out, s, 0, |out| - 1);
    ChunkCuts(cs);
    SameCuts(cs, out, s);
  }

  lemma FirstAndLast(cs: seq<Chunk>, i: nat, j: nat)
    requires Ascending(cs) && i < |cs| && j < |cs|
    ensures cs[0].start <= cs[i].start && cs[j].end <= cs[|cs| - 1].end
  {
    if i > 0 {
      AscendingFar(cs, 0, i);
    }
    if j < |cs| - 1 {
      AscendingFar(cs, j, |cs| - 1);
    }
  }

  lemma SameCuts(cs: seq<Chunk>, out: seq<Chunk>, s: Fence)
    requires CutsMatch(cs, out)
    ensures (forall m: nat :: !CutBetween(out, m, s)) <==> CutsMerged(cs, s)
  {
    if CutsMerged(cs, s) {
      forall m: nat ensures !CutBetween(out, m, s) {
        if m + 1 < |out| {
          assert AtPiece(cs, out, m);
          var k: nat :| CutAtPiece(cs, out, k, m);
          LongPieceUncut(cs, s, k);
        }
      }
    }
    if forall m: nat :: !CutBetween(out, m, s) {
      forall k: nat | CutBetween(cs, k, s) ensures |cs[k + 1].text| < MIN_CHUNK_SIZE {
        if |cs[k + 1].text| >= MIN_CHUNK_SIZE {
          CutShows(cs, out, s, k);
        }
      }
    }
  }

  lemma LongPieceUncut(cs: seq<Chunk>, s: Fence, k: nat)
    requires CutsMerged(cs, s) && 0 < k < |cs| && |cs[k].text| >= MIN_CHUNK_SIZE
    ensures !CutBetween(cs, k - 1, s)
  {
  }

  lemma CutShows(cs: seq<Chunk>, out: seq<Chunk>, s: Fence, k: nat)
    requires CutsMatch(cs, out) && CutBetween(cs, k, s) && |cs[k + 1].text| >= MIN_CHUNK_SIZE
    ensures exists m: nat :: CutBetween(out, m, s)
  {
    assert BetweenChunks(cs, out, k + 1);
    var m: nat :| CutAtPiece(cs, out, k + 1, m);
    assert CutBetween(out, m, s);
  }

  // ----- where its text can be read

  ghost predicate Occurs(t: string, f: string) { exists i :: IsAt(t, f, i) }

  /** f begins in a and goes on over the newline that joins b to it. */
  ghost predicate Straddles(a: string, b: string, f: string) {
    exists i :: IsAt(a + "\n" + b, f, i) && i <= |a| < i + |f|
  }

  lemma JoinedOccurs(a: string, b: string, f: string)
    requires f != ""
    ensures Occurs(a + "\n" + b, f) <==> Occurs(a, f) || Occurs(b, f) || Straddles(a, b, f)
  {
    var t := a + "\n" + b;
    if i :| IsAt(a, f, i) {
      assert IsAt(t, f, i);
    }
    if i :| IsAt(b, f, i) {
      BehindJoin(a, b, f, i + |a| + 1);
      assert IsAt(t, f, i + |a| + 1);
    }
    if i :| IsAt(t, f, i) {
      BehindJoin(a, b, f, i);
      assert i + |f| <= |a| ==> IsAt(a, f, i);
    }
  }

  lemma BehindJoin(a: string, b: string, f: string, i: int)
    ensures i > |a| ==> (IsAt(a + "\n" + b, f, i) <==> IsAt(b, f, i - |a| - 1))
  {
    var t := a + "\n" + b;
    forall j | |a| < j < |t| ensures t[j] == b[j - |a| - 1] {
    }
  }

  ghost predicate AnyOccurs(cs: seq<Chunk>, f: string) { exists k :: 0 <= k < |cs| && Occurs(cs[k].text, f) }

  /** f comes about where the short piece k is joined to what has been merged before it. */
  ghost predicate AcrossJoin(cs: seq<Chunk>, k: nat, f: string) {
    && 0 < k < |cs| && |cs[k].text| < MIN_CHUNK_SIZE
    && Straddles(SuppressOrphans(cs[..k])[|SuppressOrphans(cs[..k])| - 1].text, cs[k].text, f)
  }

  ghost predicate AnyJoin(cs: seq<Chunk>, f: string) { exists k: nat :: AcrossJoin(cs, k, f) }

  lemma OneMoreOccurs(cs: seq<Chunk>, n: nat, f: string)
    requires |cs| == n + 1
    ensures AnyOccurs(cs, f) <==> AnyOccurs(cs[..n], f) || Occurs(cs[n].text, f)
  {
    AppendedOccur(cs[..n], cs[n], f);
    assert cs == cs[..n] + [cs[n]];
  }

  lemma OneMoreJoin(cs: seq<Chunk>, n: nat, f: string)
    requires |cs| == n + 1
    ensures AnyJoin(cs, f) <==> AnyJoin(cs[..n], f) || AcrossJoin(cs, n, f)
  {
    forall k: nat | k < n ensures AcrossJoin(cs[..n], k, f) <==> AcrossJoin(cs, k, f) {
      assert cs[..n][k] == cs[k] && cs[..n][..k] == cs[..k];
    }
  }

  /** Merging brings a text into the chunks only across its joins, and loses none. */
  lemma {:induction false} ChunksOccur(cs: seq<Chunk>, f: string)
    requires f != ""
    ensures AnyOccurs(SuppressOrphans(cs), f) <==> AnyOccurs(cs, f) || AnyJoin(cs, f)
    decreases |cs|
  {
    if |cs| >= 2 {
      var n := |cs| - 1;
      var out := SuppressOrphans(cs[..n]);
      ChunksOccur(cs[..n], f);
      OneMoreOccurs(cs, n, f);
      OneMoreJoin(cs, n, f);
      if |cs[n].text| < MIN_CHUNK_SIZE {
        MergedOccur(out, cs[n], f);
      } else {
        AppendedOccur(out, cs[n], f);
      }
    }
  }

  lemma AppendedOccur(out: seq<Chunk>, c: Chunk, f: string)
    ensures AnyOccurs(out + [c], f) <==> AnyOccurs(out, f) || Occurs(c.text, f)
  {
    var out' := out + [c];
    forall k | 0 <= k < |out| ensures out'[k] == out[k] {
    }
    assert out'[|out|] == c;
  }

  lemma MergedOccur(out: seq<Chunk>, c: Chunk, f: string)
    requires out != [] && f != ""
    ensures AnyOccurs(out[..|out| - 1] + [Merge(out[|out| - 1], c)], f)
       <==> AnyOccurs(out, f) || Occurs(c.text, f) || Straddles(out[|out| - 1].text, c.text, f)
  {
    var last := out[|out| - 1];
    JoinedOccurs(last.text, c.text, f);
    AppendedOccur(out[..|out| - 1], Merge(last, c), f);
    AppendedOccur(out[..|out| - 1], last, f);
    assert out == out[..|out| - 1] + [last];
  }

  /** f stands in the text at p, and a piece spans it. */
  ghost predicate CopyInPiece(content: string, c: Chunk, f: string, p: nat) {
    IsAt(content, f, p) && c.start <= p && p + |f| <= c.end
  }

  ghost predicate CopyWhole(content: string, cs: seq<Chunk>, f: string) {
    exists c, p: nat :: c in cs && CopyInPiece(content, c, f, p)
  }

  lemma OccursInPiece(content: string, c: Chunk, f: string)
    requires PieceIn(content, c, 0, |content|)
    ensures Occurs(c.text, f) <==> exists p: nat :: CopyInPiece(content, c, f, p)
  {
    if i :| IsAt(c.text, f, i) {
      PlaceInPiece(content, c, f, c.start + i);
    }
    if p: nat :| CopyInPiece(content, c, f, p) {
      PlaceInPiece(content, c, f, p);
    }
  }

  lemma PlaceInPiece(content: string, c: Chunk, f: string, p: nat)
    requires PieceIn(content, c, 0, |content|) && c.start <= p
    ensures IsAt(c.text, f, p - c.start) <==> CopyInPiece(content, c, f, p)
  {
    forall j | c.start <= j < c.end ensures content[j] == c.text[j - c.start] {
    }
  }

  /**
    The text of a fence can be read in a chunk if and only if a copy of it, the fence itself or another one, stands
    whole in a piece, or its text comes about across the join of a merged piece.
   */
  lemma FenceReadableIff(content: string, force: bool, s: Fence)
    requires s in FencesIn(content) && !IsBlankText(content) && (force || |content| > CHUNK_THRESHOLD)
    ensures s.start < s.end <= |content|
    ensures var cs, f := AllPieces(content), content[s.start..s.end];
      Readable(content, Chunks(content, force), s) <==> CopyWhole(content, cs, f) || AnyJoin(cs, f)
  {
    var g := SegmentOfFence(content, s);
    var cs, f := AllPieces(content), content[s.start..s.end];
    Laid(content);
    ChunksOccur(cs, f);
    PiecesHoldCopies(content, cs, f);
    ReadableOccurs(content, Chunks(content, force), s, f);
  }

  lemma ReadableOccurs(content: string, out: seq<Chunk>, s: Fence, f: string)
    requires s.start <= s.end <= |content| && f == content[s.start..s.end]
    ensures Readable(content, out, s) <==> AnyOccurs(out, f)
  {
  }

  lemma PiecesHoldCopies(content: string, cs: seq<Chunk>, f: string)
    requires forall c :: c in cs ==> PieceIn(content, c, 0, |content|)
    ensures AnyOccurs(cs, f) <==> CopyWhole(content, cs, f)
  {
    forall c | c in cs ensures Occurs(c.text, f) <==> exists p: nat :: CopyInPiece(content, c, f, p) {
      OccursInPiece(content, c, f);
    }
    if AnyOccurs(cs, f) {
      var k :| 0 <= k < |cs| && Occurs(cs[k].text, f);
      assert cs[k] in cs;
    }
  }

  // ----- a fence that is cut

  /** A text that is one code fence: n characters between a line with the opening mark and one with the closing mark. */
  function FencedText(n: nat): (t: string)
    ensures |t| == n + 8
    ensures t[0] == t[1] == t[2] == '`' && t[3] == '\n'
    ensures forall k :: 4 <= k < n + 4 ==> t[k] == 'x'
    ensures t[n + 4] == '\n' && t[n + 5] == t[n + 6] == t[n + 7] == '`'
  {
    "```\n" + seq(n, _ => 'x') + "\n```"
  }

  lemma {:induction false} NoMarks(content: string, p: nat, q: nat)
    requires p <= q <= |content| && forall k: nat :: p <= k < q ==> !FenceMark(content, k)
    ensures FenceMarks(content, p) == FenceMarks(content, q)
    decreases q - p
  {
    if p < q {
      NoMarks(content, p + 1, q);
      assert [] + FenceMarks(content, p + 1) == FenceMarks(content, p + 1);
    }
  }

  lemma MarkIff(content: string, p: nat)
    ensures FenceMark(content, p) <==>
      p + 3 <= |content| && LineStart(content, p) && content[p] == content[p + 1] == content[p + 2] == '`'
  {
    assert "```"[0] == "```"[1] == "```"[2] == '`';
    if FenceMark(content, p) {
      assert content[p + 0] == "```"[0] && content[p + 1] == "```"[1] && content[p + 2] == "```"[2];
    }
  }

  lemma FencedMarks(t: string, n: nat)
    requires n > 0 && t == FencedText(n)
    ensures FenceMarks(t, 0) == [0, n + 5]
  {
    forall k: nat ensures FenceMark(t, k) <==> k == 0 || k == n + 5 {
      MarkIff(t, k);
    }
    NoMarks(t, 1, n + 5);
    NoMarks(t, n + 6, n + 8);
    assert FenceMarks(t, n + 8) == [];
    assert FenceMarks(t, n + 5) == [n + 5] + FenceMarks(t, n + 6);
    assert FenceMarks(t, 0) == [0] + FenceMarks(t, 1);
  }

  lemma FencedIsFence(t: string, n: nat) returns (s: Fence)
    requires n > 0 && t == FencedText(n)
    ensures s == Fence(0, |t|) && FencesIn(t) == [s]
  {
    FencedMarks(t, n);
    var marks := [0, n + 5];
    s := Fence(marks[0], LineEnd(t, marks[1] + 3));
    assert Fences(t, marks) == [s] + Fences(t, marks[2..]);
    assert marks[2..] == [];
    assert !IsAt(t, "\n", |t|);
    assert LineEnd(t, |t|) == |t|;
  }

  /** Then the fence is the only segment. */
  lemma FencedSegment(t: string, n: nat) returns (g: Segment)
    requires n > 0 && t == FencedText(n)
    ensures g == Segment(t, 0) && SegmentsIn(t) == [g]
  {
    var s := FencedIsFence(t, n);
    assert s in FencesIn(t);
    g := SegmentOfFence(t, s);
    Laid(t);
    var segs := SegmentsIn(t);
    assert SegmentSlice(t, g, 0, |t|) && t[0..|t|] == t;
    forall k | 0 <= k < |segs| ensures segs[k] == g {
      var h := segs[k];
      assert h in segs && SegmentSlice(t, h, 0, |t|);
      OneSegmentAt(segs, g, h, h.start);
    }
    OneBehindTheOther(segs, 0, 1);
  }

  /** Of a text cut to size only the last piece can be short. */
  lemma {:induction false} OnlyLastShort(text: string, base: nat, i: nat, k: nat)
    requires k + 1 < |FixedFrom(text, base, i)|
    ensures |FixedFrom(text, base, i)[k].text| >= MIN_CHUNK_SIZE
    decreases k
  {
    var c, next := FixedStep(text, base, i);
    GuardsNeverTaken(text, i);
    if k > 0 {
      OnlyLastShort(text, base, next, k - 1);
    }
  }

  lemma {:induction false} NothingMerged(cs: seq<Chunk>)
    requires forall k :: 1 <= k < |cs| ==> |cs[k].text| >= MIN_CHUNK_SIZE
    ensures SuppressOrphans(cs) == cs
    decreases |cs|
  {
    if |cs| >= 2 {
      NothingMerged(cs[..|cs| - 1]);
    }
  }

  /** Then a chunk is a piece, or the last two. */
  lemma ChunksOfFixed(cs: seq<Chunk>, c: Chunk)
    requires forall k :: 0 <= k < |cs| - 1 ==> |cs[k].text| >= MIN_CHUNK_SIZE
    requires (forall d :: d in cs ==> |d.text| <= TARGET_CHUNK_SIZE) && c in SuppressOrphans(cs)
    ensures |c.text| <= TARGET_CHUNK_SIZE + MIN_CHUNK_SIZE
  {
    if |cs| >= 2 {
      var init, last := cs[..|cs| - 1], cs[|cs| - 1];
      NothingMerged(init);
      assert init[|init| - 1] in cs;
      if c in init {
        assert c in cs;
      }
    }
  }

  /**
    A text of at least 2001 characters that is one code fence is chunked so that the fence stands whole in no piece,
    and in no chunk either.
   */
  lemma LoneFenceIsDivided(n: nat, force: bool)
    requires n > CHUNK_THRESHOLD
    ensures var t := FencedText(n); var s := Fence(0, |t|);
      && FencesIn(t) == [s] && Chunks(t, force) != []
      && !Whole(AllPieces(t), s) && !Readable(t, Chunks(t, force), s)
  {
    var t := FencedText(n);
    var s := FencedIsFence(t, n);
    var g := FencedSegment(t, n);
    LongFenceIsCut(t, s, g);
    assert !IsSpace(t[0]);
    var cs := Pieces([g]);
    assert cs == PiecesOf(g) + Pieces([g][1..]) && cs == FixedFrom(t, 0, 0);
    forall k | 0 <= k < |cs| - 1 ensures |cs[k].text| >= MIN_CHUNK_SIZE {
      OnlyLastShort(t, 0, 0, k);
    }
    forall d | d in cs ensures |d.text| <= TARGET_CHUNK_SIZE {
      ShortPieces(g, d);
    }
    var out := Chunks(t, force);
    PiecesOfText(t);
    forall k | 0 <= k < |out| ensures |out[k].text| < |t| {
      ChunksOfFixed(cs, out[k]);
    }
  }
}
