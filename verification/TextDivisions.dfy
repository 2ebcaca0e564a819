/** Where a text is divided, in terms of its characters: fences, headings, blank lines, and what each part becomes. */
module TextDivisions {
  import opened Structure
  import opened Text

  // ----- white space

  lemma IsSpaceIff(c: char)
    ensures IsSpace(c)
       <==> c in {' ', '\t', '\n', '\r', '\U{b}', '\U{c}', '\U{1c}', '\U{1d}', '\U{1e}', '\U{1f}', '\U{85}', '\U{a0}',
                  '\U{1680}', '\U{2000}', '\U{2001}', '\U{2002}', '\U{2003}', '\U{2004}', '\U{2005}', '\U{2006}',
                  '\U{2007}', '\U{2008}', '\U{2009}', '\U{200a}', '\U{2028}', '\U{2029}', '\U{202f}', '\U{205f}',
                  '\U{3000}'}
  {
    assert IsSpace(c) ==> c as int < 0x3001;
  }

  // ----- fences

  /** Three backticks at the start of a line. */
  ghost predicate Opens(content: string, p: nat) {
    && p + 3 <= |content| && content[p] == '`' && content[p + 1] == '`' && content[p + 2] == '`'
    && (p == 0 || content[p - 1] == '\n')
  }

  lemma OpensIsMark(content: string, p: nat)
    ensures Opens(content, p) <==> FenceMark(content, p)
  {
    assert "```"[0] == '`' && "```"[1] == '`' && "```"[2] == '`';
    if FenceMark(content, p) {
      assert content[p + 0] == '`' && content[p + 1] == '`' && content[p + 2] == '`';
    }
  }

  /** e is the end of the line that p is in. */
  ghost predicate EndsLine(content: string, p: nat, e: nat) {
    && p <= e <= |content| && (e < |content| ==> content[e] == '\n')
    && forall k :: p <= k < e ==> content[k] != '\n'
  }

  lemma LineEndIs(content: string, p: nat)
    requires p <= |content|
    ensures EndsLine(content, p, LineEnd(content, p))
  {
    var r := Find(content, "\n", p);
    assert r >= 0 ==> content[r + 0] == "\n"[0];
    forall k | p <= k < LineEnd(content, p) ensures content[k] != '\n' {
      assert !IsAt(content, "\n", k);
    }
  }

  lemma {:induction false} MarksAre(content: string, p: nat, m: nat)
    ensures m in FenceMarks(content, p) <==> p <= m && FenceMark(content, m)
    decreases |content| - p
  {
    if p < |content| {
      MarksAre(content, p + 1, m);
    }
  }

  /** The k-th fence reaches from the mark 2k to the end of the line of the mark 2k + 1; an odd mark is left over. */
  ghost predicate Paired(content: string, marks: seq<nat>, fences: seq<Fence>) {
    && 2 * |fences| <= |marks| < 2 * |fences| + 2
    && forall k :: 0 <= k < |fences| ==> PairAt(content, marks, fences[k], 2 * k)
  }

  /** f reaches from the i-th mark to the end of the line of the next. */
  ghost predicate PairAt(content: string, marks: seq<nat>, f: Fence, i: nat) {
    i + 1 < |marks| && f.start == marks[i] && EndsLine(content, marks[i + 1] + 3, f.end)
  }

  lemma {:induction false} FencesPaired(content: string, marks: seq<nat>)
    requires forall m :: m in marks ==> Opens(content, m)
    ensures Paired(content, marks, Fences(content, marks))
    decreases |marks|
  {
    if |marks| >= 2 {
      FencesPaired(content, marks[2..]);
      assert marks[1] in marks;
      LineEndIs(content, marks[1] + 3);
      PairInFront(content, marks, Fence(marks[0], LineEnd(content, marks[1] + 3)), Fences(content, marks[2..]));
    }
  }

  lemma PairInFront(content: string, marks: seq<nat>, f: Fence, fences: seq<Fence>)
    requires PairAt(content, marks, f, 0) && Paired(content, marks[2..], fences)
    ensures Paired(content, marks, [f] + fences)
  {
    var all := [f] + fences;
    forall k | 0 <= k < |all| ensures PairAt(content, marks, all[k], 2 * k) {
      if k > 0 {
        var j := k - 1;
        assert all[k] == fences[j];
        assert PairAt(content, marks[2..], fences[j], 2 * j);
        PairLater(content, marks, fences[j], 2 * j, 2 * k);
      }
    }
  }

  lemma PairLater(content: string, marks: seq<nat>, f: Fence, i: nat, j: nat)
    requires |marks| >= 2 && PairAt(content, marks[2..], f, i) && j == i + 2
    ensures PairAt(content, marks, f, j)
  {
  }

  /** The fences of a text: all its marks in order, two by two. */
  lemma FencesAre(content: string) returns (marks: seq<nat>)
    ensures forall m :: m in marks <==> Opens(content, m)
    ensures StrictlyAscends(marks)
    ensures Paired(content, marks, FencesIn(content))
  {
    marks := FenceMarks(content, 0);
    MarksAscend(content, 0);
    forall m ensures m in marks <==> m >= 0 && Opens(content, m) {
      MarksAre(content, 0, m);
      OpensIsMark(content, m);
    }
    FencesPaired(content, marks);
  }

  // ----- headings and breaks

  /** One to six hashes at the start of a line, and white space behind. */
  ghost predicate StartsHeading(content: string, p: nat, n: nat) {
    && 1 <= n <= 6 && p + n < |content| && (p == 0 || content[p - 1] == '\n')
    && (forall k :: p <= k < p + n ==> content[k] == '#')
    && IsSpace(content[p + n])
  }

  ghost predicate Inside(spans: seq<Fence>, p: nat) {
    exists k :: 0 <= k < |spans| && spans[k].start <= p && p < spans[k].end
  }

  lemma InsideIs(spans: seq<Fence>, p: nat)
    ensures Inside(spans, p) <==> WithinAny(p, spans)
  {
  }

  ghost predicate FreeHeading(content: string, spans: seq<Fence>, p: nat) {
    !Inside(spans, p) && exists n :: StartsHeading(content, p, n)
  }

  lemma FreeHeadingIff(content: string, spans: seq<Fence>, p: nat)
    ensures FreeHeading(content, spans, p) <==> p in Headings(content, spans, 0)
  {
    HeadingsExact(content, spans, 0, p);
    InsideIs(spans, p);
    if HeadingAt(content, p) {
      var n :| 1 <= n <= 6 && p + n < |content| && IsHashes(content, p, n) && IsSpace(content[p + n]);
      assert StartsHeading(content, p, n);
    }
    if n :| StartsHeading(content, p, n) {
      assert IsHashes(content, p, n);
    }
  }

  ghost predicate White(content: string, i: int, j: int) {
    0 <= i <= j <= |content| && forall k :: i <= k < j ==> IsSpace(content[k])
  }

  /** No newline in the white space in front of p. */
  ghost predicate NoneAhead(content: string, p: nat) {
    forall i: nat :: i < p && White(content, i, p) ==> content[i] != '\n'
  }

  /** No newline in the white space from p on. */
  ghost predicate NoneBehind(content: string, p: nat) {
    forall j: nat :: j < |content| && White(content, p, j) ==> content[j] != '\n'
  }

  /** From the first to behind the last newline of a stretch of white space with at least two of them. */
  ghost predicate Gap(content: string, p: nat, b: nat) {
    && p + 2 <= b <= |content| && content[p] == '\n' && content[b - 1] == '\n' && White(content, p, b)
    && NoneAhead(content, p) && NoneBehind(content, b)
  }

  ghost predicate FreeGap(content: string, spans: seq<Fence>, p: nat, b: nat) {
    Gap(content, p, b) && !Inside(spans, p)
  }

  lemma NotLonger(content: string, p: nat, b: nat, j: nat)
    requires Gap(content, p, b) && p < j < |content| && White(content, p, j) && content[j] == '\n'
    ensures j < b
  {
    assert b <= j ==> White(content, b, j);
  }

  lemma GapUnique(content: string, p: nat, b: nat, c: nat)
    requires Gap(content, p, b) && Gap(content, p, c)
    ensures b == c
  {
    NotLonger(content, p, b, c - 1);
    NotLonger(content, p, c, b - 1);
  }

  lemma BreakIsGap(content: string, p: nat, e: nat)
    requires e == BreakEnd(content, p) && e > 0 && NoneAhead(content, p)
    ensures Gap(content, p, e)
  {
    forall j: nat | j < |content| && White(content, e, j) ensures content[j] != '\n' {
      if content[j] == '\n' {
        NewlineIsSpace();
        LastNewlineReaches(content, p + 1, j);
      }
    }
  }

  lemma NewlineIsSpace()
    ensures IsSpace('\n')
  {
  }

  lemma GapIsBreak(content: string, p: nat, b: nat)
    requires Gap(content, p, b)
    ensures BreakEnd(content, p) > 0
  {
    LastNewlineReaches(content, p + 1, b - 1);
  }

  /** In a gap no later gap begins. */
  lemma GapsApart(content: string, p: nat, b: nat, q: nat, c: nat)
    requires Gap(content, p, b) && Gap(content, q, c) && p < q
    ensures b <= q
  {
    assert q < b ==> White(content, p, q);
  }

  lemma StepOver(content: string, p: nat)
    requires p < |content| && BreakEnd(content, p) == 0
    requires NoneAhead(content, p) || NoneBehind(content, p)
    ensures NoneAhead(content, p + 1) || NoneBehind(content, p + 1)
  {
    if NoneBehind(content, p) {
      if IsSpace(content[p]) {
        forall j: nat | j < |content| && White(content, p + 1, j) ensures content[j] != '\n' {
          assert White(content, p, j);
        }
      }
    } else if content[p] == '\n' {
      forall j: nat | j < |content| && White(content, p + 1, j) ensures content[j] != '\n' {
        if content[j] == '\n' {
          NewlineIsSpace();
          LastNewlineReaches(content, p + 1, j);
        }
      }
    } else {
      forall i: nat | i < p + 1 && White(content, i, p + 1) ensures content[i] != '\n' {
        assert i < p ==> White(content, i, p);
      }
    }
  }

  /** The ends found from p on are the ends of the free gaps from p on. */
  lemma {:induction false} EndsAre(content: string, spans: seq<Fence>, p: nat, b: nat)
    requires NoneAhead(content, p) || NoneBehind(content, p)
    ensures b in BlankLineEnds(content, spans, p)
       <==> exists q: nat :: p <= q && FreeGap(content, spans, q, b)
    decreases |content| - p
  {
    if p < |content| {
      var e := BreakEnd(content, p);
      if e == 0 {
        StepOver(content, p);
        EndsAre(content, spans, p + 1, b);
        NotHere(content, spans, p, b);
      } else {
        GapHere(content, p, e);
        EndsAre(content, spans, e, b);
        FirstGap(content, spans, p, e, b);
      }
    }
  }

  lemma GapHere(content: string, p: nat, e: nat)
    requires e == BreakEnd(content, p) && e > 0 && (NoneAhead(content, p) || NoneBehind(content, p))
    ensures Gap(content, p, e)
  {
    NewlineIsSpace();
    assert White(content, p, p);
    BreakIsGap(content, p, e);
  }

  lemma NotHere(content: string, spans: seq<Fence>, p: nat, b: nat)
    requires p < |content| && BreakEnd(content, p) == 0
    ensures (exists q: nat :: p <= q && FreeGap(content, spans, q, b))
       <==> exists q: nat :: p + 1 <= q && FreeGap(content, spans, q, b)
  {
    if Gap(content, p, b) {
      GapIsBreak(content, p, b);
    }
    if q: nat :| p <= q && FreeGap(content, spans, q, b) {
      assert q != p;
    }
  }

  lemma FirstGap(content: string, spans: seq<Fence>, p: nat, e: nat, b: nat)
    requires Gap(content, p, e)
    ensures (exists q: nat :: p <= q && FreeGap(content, spans, q, b))
       <==> (b == e && !WithinAny(p, spans)) || exists q: nat :: e <= q && FreeGap(content, spans, q, b)
  {
    InsideIs(spans, p);
    if q: nat :| p <= q && FreeGap(content, spans, q, b) {
      if q == p {
        GapUnique(content, p, e, b);
      } else {
        GapsApart(content, p, e, q, b);
      }
    }
    if b == e && !WithinAny(p, spans) {
      assert FreeGap(content, spans, p, b);
    }
  }

  /**
    A text is divided at its headings outside the fences; only if it has none, behind its blank lines outside the
    fences.
   */
  lemma DividedIff(content: string, b: nat)
    ensures var spans := FencesIn(content);
      b in Boundaries(content, spans)
      <==> || b == 0 || b == |content|
           || (if exists h: nat :: FreeHeading(content, spans, h)
               then FreeHeading(content, spans, b)
               else exists p: nat :: FreeGap(content, spans, p, b))
  {
    var spans := FencesIn(content);
    forall h: nat ensures FreeHeading(content, spans, h) <==> h in Headings(content, spans, 0) {
      FreeHeadingIff(content, spans, h);
    }
    if Headings(content, spans, 0) == [] {
      EndsAre(content, spans, 0, b);
      BreaksAreBoundaries(content, spans, b);
    } else {
      var h := Headings(content, spans, 0)[0];
      assert FreeHeading(content, spans, h);
    }
  }

  lemma BreaksAreBoundaries(content: string, spans: seq<Fence>, b: nat)
    requires Headings(content, spans, 0) == []
    ensures b in Boundaries(content, spans)
       <==> b == 0 || b == |content| || b in BlankLineEnds(content, spans, 0)
  {
    var es := BlankLineEnds(content, spans, 0);
    BlankLineEndsAscend(content, spans, 0);
    BetweenEnds(es, |content|);
    DistinctSorts([0] + es + [|content|], |content|);
  }

  // ----- what becomes of a part

  /** White space in front and newlines behind are left out, and nothing else. */
  ghost predicate PartIs(content: string, lo: nat, hi: nat, s: Segment) {
    var e := s.start + |s.text|;
    && lo <= s.start < e <= hi <= |content| && s.text == content[s.start..e]
    && White(content, lo, s.start) && !IsSpace(content[s.start])
    && content[e - 1] != '\n' && forall k :: e <= k < hi ==> content[k] == '\n'
  }

  lemma StopsBefore(content: string, hi: nat, e: nat, e': nat)
    requires 0 < e' <= hi <= |content| && (forall k :: e <= k < hi ==> content[k] == '\n') && content[e' - 1] != '\n'
    ensures e' <= e
  {
  }

  lemma PartUnique(content: string, lo: nat, hi: nat, s: Segment, s': Segment)
    requires PartIs(content, lo, hi, s) && PartIs(content, lo, hi, s')
    ensures s == s'
  {
    assert s.start == s'.start;
    StopsBefore(content, hi, s.start + |s.text|, s'.start + |s'.text|);
    StopsBefore(content, hi, s'.start + |s'.text|, s.start + |s.text|);
  }

  lemma BlankIff(content: string, lo: nat, hi: nat, seg: string)
    requires lo <= hi <= |content| && seg == content[lo..hi]
    ensures IsBlankText(seg) <==> White(content, lo, hi)
  {
    assert forall k :: lo <= k < hi ==> content[k] == seg[k - lo];
  }

  /** A part that is not blank becomes one segment, and a blank one none. */
  lemma PartBecomes(content: string, lo: nat, hi: nat)
    requires lo <= hi <= |content|
    ensures SegmentOf(content, lo, hi) == [] <==> White(content, lo, hi)
    ensures |SegmentOf(content, lo, hi)| <= 1
    ensures forall s :: s in SegmentOf(content, lo, hi) <==> PartIs(content, lo, hi, s)
  {
    var seg := content[lo..hi];
    BlankIff(content, lo, hi, seg);
    if IsBlankText(seg) {
      assert White(content, lo, hi);
    } else {
      var s := SegmentOf(content, lo, hi)[0];
      assert SegmentOf(content, lo, hi) == [s];
      var lead := LeadingSpaces(seg);
      WhiteInFront(content, lo, hi, seg, lead, s.start, seg[lead..]);
      RestIsPart(content, lo, hi, s.start, seg[lead..], s.text, s);
      forall s' | PartIs(content, lo, hi, s') ensures s' == s {
        PartUnique(content, lo, hi, s, s');
      }
    }
  }

  lemma RestIsPart(content: string, lo: nat, hi: nat, from: nat, rest: string, text: string, s: Segment)
    requires from < hi <= |content| && White(content, lo, from) && !IsSpace(content[from]) && rest == content[from..hi]
    requires text == RStripNewlines(rest) && s == Segment(text, from)
    ensures PartIs(content, lo, hi, s)
  {
    assert rest[0] == content[from];
    NewlineIsSpace();
    Prefix(content, from, hi, rest, text);
    IsPart(content, lo, hi, rest, s);
  }

  lemma Prefix(content: string, from: nat, hi: nat, rest: string, text: string)
    requires from <= hi <= |content| && rest == content[from..hi] && text <= rest
    ensures from + |text| <= hi && text == content[from..from + |text|]
  {
    assert text == rest[..|text|];
  }

  lemma IsPart(content: string, lo: nat, hi: nat, rest: string, s: Segment)
    requires lo <= s.start <= hi <= |content| && rest == content[s.start..hi] && s.text == RStripNewlines(rest)
    requires s.text != "" && s.start + |s.text| <= hi && s.text == content[s.start..s.start + |s.text|]
    requires White(content, lo, s.start) && !IsSpace(content[s.start])
    ensures PartIs(content, lo, hi, s)
  {
    NewlinesBehind(content, s.start, hi, rest, s.text);
  }

  lemma WhiteInFront(content: string, lo: nat, hi: nat, seg: string, lead: nat, from: nat, rest: string)
    requires lo <= hi <= |content| && seg == content[lo..hi] && !IsBlankText(seg) && lead == LeadingSpaces(seg)
    requires from == lo + lead && rest == seg[lead..]
    ensures from < hi && White(content, lo, from) && !IsSpace(content[from]) && rest == content[from..hi]
  {
    forall k | lo <= k < from ensures IsSpace(content[k]) {
      assert content[k] == seg[k - lo];
    }
  }

  lemma NewlinesBehind(content: string, from: nat, hi: nat, rest: string, text: string)
    requires from <= hi <= |content| && rest == content[from..hi] && text == RStripNewlines(rest) && text != ""
    ensures var e := from + |text|;
      e <= hi && content[e - 1] != '\n' && forall k :: e <= k < hi ==> content[k] == '\n'
  {
    var e := from + |text|;
    forall k | e <= k < hi ensures content[k] == '\n' {
      assert content[k] == rest[k - from];
    }
    assert content[e - 1] == rest[|text| - 1] == text[|text| - 1];
  }

  /** The segments are what becomes of the parts between neighbouring boundaries, in order. */
  lemma {:induction false} SegmentsAre(content: string, bounds: seq<nat>, s: Segment)
    requires Ascends(bounds, |content|)
    ensures s in Segments(content, bounds)
       <==> exists k :: 0 <= k < |bounds| - 1 && PartIs(content, bounds[k], bounds[k + 1], s)
    decreases |bounds|
  {
    if |bounds| >= 2 {
      PartBecomes(content, bounds[0], bounds[1]);
      SegmentsAre(content, bounds[1..], s);
      if k :| 0 <= k < |bounds| - 1 && PartIs(content, bounds[k], bounds[k + 1], s) {
        if k > 0 {
          assert bounds[1..][k - 1] == bounds[k] && bounds[1..][k] == bounds[k + 1];
        }
      }
      if k :| 0 <= k < |bounds[1..]| - 1 && PartIs(content, bounds[1..][k], bounds[1..][k + 1], s) {
        assert bounds[1..][k] == bounds[k + 1] && bounds[1..][k + 1] == bounds[(k + 1) + 1];
      }
    }
  }
}
