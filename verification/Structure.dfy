/** Structural splitting: at headings or blank lines, but not inside code fences. */
module Structure {
  import opened Text

  datatype Fence = Fence(start: nat, end: nat)

  datatype Segment = Segment(text: string, start: nat)

  predicate LineStart(content: string, p: nat)
    requires p <= |content|
  {
    p == 0 || content[p - 1] == '\n'
  }

  // ----- code fences

  predicate FenceMark(content: string, p: nat) {
    p < |content| && LineStart(content, p) && IsAt(content, "```", p)
  }

  function FenceMarks(content: string, p: nat): seq<nat>
    decreases |content| - p
  {
    if p >= |content| then []
    else (if FenceMark(content, p) then [p] else []) + FenceMarks(content, p + 1)
  }

  function LineEnd(content: string, p: nat): nat {
    var i := Find(content, "\n", p);
    if i < 0 then |content| else i
  }

  /** Marks taken two by two: from an opening mark to the end of the line of the closing one. */
  function Fences(content: string, marks: seq<nat>): seq<Fence> {
    if |marks| < 2 then []
    else [Fence(marks[0], LineEnd(content, marks[1] + 3))] + Fences(content, marks[2..])
  }

  method FindFenceSpans(content: string) returns (spans: seq<Fence>)
    ensures spans == FencesIn(content)
  {
    spans := [];
    var marks := FenceMarks(content, 0);
    var i := 0;
    ghost var rest := marks;
    while i + 1 < |marks|
      invariant 0 <= i <= |marks| && rest == marks[i..]
      invariant spans + Fences(content, rest) == Fences(content, marks)
    {
      var lineEnd := Find(content, "\n", marks[i + 1] + 3);
      if lineEnd == -1 {
        lineEnd := |content|;
      }
      assert rest[0] == marks[i] && rest[1] == marks[i + 1] && rest[2..] == marks[i + 2..];
      spans := spans + [Fence(marks[i], lineEnd)];
      i := i + 2;
      rest := rest[2..];
    }
    assert Fences(content, rest) == [];
  }

  predicate WithinAny(pos: nat, spans: seq<Fence>) {
    exists s :: s in spans && s.start <= pos < s.end
  }

  // ----- headings and blank lines

  predicate HeadingAt(content: string, p: nat) {
    p < |content| && LineStart(content, p)
    && exists k :: 1 <= k <= 6 && p + k < |content| && IsHashes(content, p, k) && IsSpace(content[p + k])
  }

  predicate IsHashes(content: string, p: nat, k: nat) {
    p + k <= |content| && forall j :: p <= j < p + k ==> content[j] == '#'
  }

  function Headings(content: string, spans: seq<Fence>, p: nat): seq<nat>
    decreases |content| - p
  {
    if p >= |content| then []
    else (if HeadingAt(content, p) && !WithinAny(p, spans) then [p] else []) + Headings(content, spans, p + 1)
  }

  /** The last newline among the white space from lo on, or -1. */
  function LastNewline(content: string, lo: nat): (r: int)
    ensures r < |content|
        && (r >= 0 ==> lo <= r && content[r] == '\n' && forall k :: lo <= k <= r ==> IsSpace(content[k]))
    decreases |content| - lo
  {
    if lo >= |content| || !IsSpace(content[lo]) then -1
    else
      var r := LastNewline(content, lo + 1);
      if r >= 0 then r else if content[lo] == '\n' then lo else -1
  }

  /**
    The end of the blank-line break that starts at p: two newlines with white space between them, as far as it goes; 0
    if there is none.
   */
  function BreakEnd(content: string, p: nat): (e: nat)
    ensures e > 0 ==> p + 2 <= e <= |content| && forall k :: p <= k < e ==> IsSpace(content[k])
  {
    if p < |content| && content[p] == '\n' && LastNewline(content, p + 1) >= 0 then LastNewline(content, p + 1) + 1
        else 0
  }

  function BlankLineEnds(content: string, spans: seq<Fence>, p: nat): seq<nat>
    decreases |content| - p
  {
    if p >= |content| then []
    else
      var e := BreakEnd(content, p);
      if e == 0 then BlankLineEnds(content, spans, p + 1)
      else (if WithinAny(p, spans) then [] else [e]) + BlankLineEnds(content, spans, e)
  }

  /** The elements of an ascending list, each once. */
  function Distinct(s: seq<nat>): seq<nat> {
    if |s| < 2 then s
    else if s[0] == s[1] then Distinct(s[1..])
    else [s[0]] + Distinct(s[1..])
  }

  function FencesIn(content: string): seq<Fence> { Fences(content, FenceMarks(content, 0)) }

  function Boundaries(content: string, spans: seq<Fence>): seq<nat> {
    var headings := Headings(content, spans, 0);
    if headings != [] then [0] + headings + [|content|]
    else Distinct([0] + BlankLineEnds(content, spans, 0) + [|content|])
  }

  // ----- segments

  /** The text between two boundaries, without white space in front and newlines behind; none if it is blank. */
  function SegmentOf(content: string, start: nat, end: nat): seq<Segment>
    requires start <= end <= |content|
  {
    SegmentIn(content[start..end], start)
  }

  function SegmentIn(seg: string, start: nat): seq<Segment> {
    if IsBlankText(seg) then []
    else
      var lead := LeadingSpaces(seg);
      [Segment(RStripNewlines(seg[lead..]), start + lead)]
  }

  /** Offsets up to hi that do not decrease. */
  predicate Ascends(bounds: seq<nat>, hi: nat) {
    bounds == [] || (bounds[0] <= hi && (|bounds| >= 2 ==> bounds[0] <= bounds[1] <= hi) && Ascends(bounds[1..], hi))
  }

  function Segments(content: string, bounds: seq<nat>): seq<Segment>
    requires Ascends(bounds, |content|)
  {
    if |bounds| < 2 then []
    else SegmentOf(content, bounds[0], bounds[1]) + Segments(content, bounds[1..])
  }

  method StructuralSplit(content: string) returns (segments: seq<Segment>)
    ensures var bounds := Boundaries(content, FencesIn(content));
      Ascends(bounds, |content|) && segments == Segments(content, bounds)
  {
    var spans := FindFenceSpans(content);
    var headings := Headings(content, spans, 0);
    var bounds;
    if headings != [] {
      bounds := [0] + headings + [|content|];
    } else {
      bounds := Distinct([0] + BlankLineEnds(content, spans, 0) + [|content|]);
    }
    BoundariesAscend(content, spans);
    segments := Cut(content, bounds);
  }

  method Cut(content: string, bounds: seq<nat>) returns (segments: seq<Segment>)
    requires Ascends(bounds, |content|)
    ensures segments == Segments(content, bounds)
  {
    segments := [];
    var k := 0;
    ghost var rest := bounds;
    while k + 1 < |bounds|
      invariant 0 <= k <= |bounds| && rest == bounds[k..] && Ascends(rest, |content|)
      invariant segments + Segments(content, rest) == Segments(content, bounds)
    {
      SegmentsStep(content, bounds, k, rest);
      var found := AddSegment(content[bounds[k]..bounds[k + 1]], bounds[k]);
      segments := segments + found;
      k := k + 1;
      rest := rest[1..];
    }
    assert Segments(content, rest) == [];
  }

  method AddSegment(seg: string, start: nat) returns (found: seq<Segment>)
    ensures found == SegmentIn(seg, start)
  {
    found := [];
    if !IsBlankText(seg) {
      var lead := LeadingSpaces(seg);
      found := [Segment(RStripNewlines(seg[lead..]), start + lead)];
    }
  }

  lemma SegmentsStep(content: string, bounds: seq<nat>, k: nat, rest: seq<nat>)
    requires k + 1 < |bounds| && rest == bounds[k..] && Ascends(rest, |content|)
    ensures bounds[k] <= bounds[k + 1] <= |content| && Ascends(rest[1..], |content|) && rest[1..] == bounds[k + 1..]
    ensures Segments(content, rest)
        == SegmentIn(content[bounds[k]..bounds[k + 1]], bounds[k]) + Segments(content, rest[1..])
  {
    assert rest[0] == bounds[k] && rest[1] == bounds[k + 1];
  }

  // ----- boundaries

  /** b ends a blank-line break that starts at p, outside every fence. */
  ghost predicate BreakOutside(content: string, spans: seq<Fence>, p: nat, b: nat) {
    b > 0 && BreakEnd(content, p) == b && !WithinAny(p, spans)
  }

  lemma {:induction false} HeadingsExact(content: string, spans: seq<Fence>, p: nat, h: nat)
    ensures h in Headings(content, spans, p) <==> p <= h && HeadingAt(content, h) && !WithinAny(h, spans)
    decreases |content| - p
  {
    if p < |content| {
      HeadingsExact(content, spans, p + 1, h);
    }
  }

  lemma {:induction false} HeadingsAscend(content: string, spans: seq<Fence>, p: nat)
    ensures var hs := Headings(content, spans, p); Ascends(hs, |content|) && (hs != [] ==> p <= hs[0])
    decreases |content| - p
  {
    if p < |content| {
      HeadingsAscend(content, spans, p + 1);
      AscendsCons(p, Headings(content, spans, p + 1), |content|);
    }
  }

  lemma AscendsCons(x: nat, rest: seq<nat>, hi: nat)
    requires x <= hi && Ascends(rest, hi) && (rest != [] ==> x <= rest[0])
    ensures Ascends([x] + rest, hi) && [] + rest == rest
  {
    assert ([x] + rest)[1..] == rest;
  }

  lemma {:induction false} AscendsToEnd(s: seq<nat>, hi: nat)
    requires Ascends(s, hi)
    ensures Ascends(s + [hi], hi)
  {
    if s == [] {
      assert s + [hi] == [hi];
    } else {
      assert (s + [hi])[1..] == s[1..] + [hi];
      AscendsToEnd(s[1..], hi);
    }
  }

  lemma {:induction false} BlankLineEndsAreBreaks(content: string, spans: seq<Fence>, p: nat, b: nat)
    requires b in BlankLineEnds(content, spans, p)
    ensures exists q: nat :: BreakOutside(content, spans, q, b)
    decreases |content| - p
  {
    var e := BreakEnd(content, p);
    if e == 0 {
      BlankLineEndsAreBreaks(content, spans, p + 1, b);
    } else if b in BlankLineEnds(content, spans, e) {
      BlankLineEndsAreBreaks(content, spans, e, b);
    } else {
      assert BreakOutside(content, spans, p, b);
    }
  }

  lemma {:induction false} BlankLineEndsAscend(content: string, spans: seq<Fence>, p: nat)
    ensures var es := BlankLineEnds(content, spans, p); Ascends(es, |content|) && (es != [] ==> p < es[0])
    decreases |content| - p
  {
    if p < |content| {
      var e := BreakEnd(content, p);
      if e == 0 {
        BlankLineEndsAscend(content, spans, p + 1);
      } else {
        BlankLineEndsAscend(content, spans, e);
        AscendsCons(e, BlankLineEnds(content, spans, e), |content|);
      }
    }
  }

  ghost predicate StrictlyAscends(s: seq<nat>) {
    |s| < 2 || (s[0] < s[1] && StrictlyAscends(s[1..]))
  }

  /** Dropping repeats of a sorted list leaves a strictly increasing list with the same elements. */
  lemma {:induction false} DistinctSorts(s: seq<nat>, hi: nat)
    requires Ascends(s, hi)
    ensures var r := Distinct(s);
      && StrictlyAscends(r) && Ascends(r, hi) && (forall x :: x in r <==> x in s)
      && (s != [] ==> r != [] && r[0] == s[0] && r[|r| - 1] == s[|s| - 1])
    decreases |s|
  {
    if |s| >= 2 {
      DistinctSorts(s[1..], hi);
      var r := Distinct(s[1..]);
      assert ([s[0]] + r)[1..] == r;
      assert forall x :: x in s <==> x == s[0] || x in s[1..];
    }
  }

  lemma BoundariesAscend(content: string, spans: seq<Fence>)
    ensures var bs := Boundaries(content, spans);
      Ascends(bs, |content|) && |bs| > 0 && bs[0] == 0 && bs[|bs| - 1] == |content|
  {
    var hs, es := Headings(content, spans, 0), BlankLineEnds(content, spans, 0);
    if hs != [] {
      HeadingsAscend(content, spans, 0);
      BetweenEnds(hs, |content|);
    } else {
      BlankLineEndsAscend(content, spans, 0);
      BetweenEnds(es, |content|);
      DistinctSorts([0] + es + [|content|], |content|);
    }
  }

  lemma BetweenEnds(s: seq<nat>, hi: nat)
    requires Ascends(s, hi)
    ensures Ascends([0] + s + [hi], hi)
  {
    AscendsCons(0, s, hi);
    AscendsToEnd([0] + s, hi);
  }

  /** An end of the text, a heading outside the fences, or the end of a blank-line break that starts outside them. */
  ghost predicate BoundaryKind(content: string, spans: seq<Fence>, b: nat) {
    b == 0 || b == |content| || HeadingOutside(content, spans, b) || exists q: nat :: BreakOutside(content, spans, q, b)
  }

  ghost predicate HeadingOutside(content: string, spans: seq<Fence>, b: nat) {
    HeadingAt(content, b) && !WithinAny(b, spans)
  }

  lemma BoundaryKinds(content: string, spans: seq<Fence>, b: nat)
    requires b in Boundaries(content, spans)
    ensures BoundaryKind(content, spans, b)
  {
    var hs, es := Headings(content, spans, 0), BlankLineEnds(content, spans, 0);
    if b != 0 && b != |content| {
      if hs != [] {
        assert b in hs;
        HeadingsExact(content, spans, 0, b);
        assert HeadingOutside(content, spans, b);
      } else {
        BlankLineEndsAscend(content, spans, 0);
        BetweenEnds(es, |content|);
        DistinctSorts([0] + es + [|content|], |content|);
        assert b in es;
        BlankLineEndsAreBreaks(content, spans, 0, b);
      }
    }
  }

  lemma {:induction false} MarksAscend(content: string, p: nat)
    ensures var marks := FenceMarks(content, p);
      (forall m :: m in marks ==> FenceMark(content, m)) && StrictlyAscends(marks) && (marks != [] ==> p <= marks[0])
    decreases |content| - p
  {
    if p < |content| {
      MarksAscend(content, p + 1);
      OneInFront(p, FenceMarks(content, p + 1));
    }
  }

  lemma OneInFront(p: nat, rest: seq<nat>)
    requires StrictlyAscends(rest) && (rest != [] ==> p < rest[0])
    ensures StrictlyAscends([p] + rest) && [] + rest == rest
  {
    assert ([p] + rest)[1..] == rest;
  }

  lemma {:induction false} FencesOpenAtMarks(content: string, marks: seq<nat>)
    ensures forall s :: s in Fences(content, marks) ==> s.start in marks && s.end <= |content|
    decreases |marks|
  {
    if |marks| >= 2 {
      FencesOpenAtMarks(content, marks[2..]);
      assert forall m :: m in marks[2..] ==> m in marks;
      assert Find(content, "\n", marks[1] + 3) <= |content|;
    }
  }

  /** No boundary falls strictly inside a code fence. */
  lemma NoBoundaryInFence(content: string, b: nat, s: Fence)
    requires s in FencesIn(content) && b in Boundaries(content, FencesIn(content))
    ensures !(s.start < b < s.end)
  {
    var marks, spans := FenceMarks(content, 0), FencesIn(content);
    MarksAscend(content, 0);
    FencesOpenAtMarks(content, marks);
    BoundaryKinds(content, spans, b);
    if q: nat :| BreakOutside(content, spans, q, b) {
      NotAcross(content, spans, s, q, b);
    }
  }

  lemma NotAcross(content: string, spans: seq<Fence>, s: Fence, q: nat, b: nat)
    requires s in spans && FenceMark(content, s.start) && BreakOutside(content, spans, q, b)
    ensures !(s.start < b < s.end)
  {
    assert content[s.start + 0] == "```"[0];
    assert !(s.start <= q < s.end);
  }

  // ----- what the segments are

  ghost predicate SegmentSlice(content: string, s: Segment, lo: nat, hi: nat) {
    s.text != "" && lo <= s.start && s.start + |s.text| <= hi <= |content|
        && s.text == content[s.start..s.start + |s.text|]
  }

  ghost predicate SegmentCovers(segs: seq<Segment>, p: nat) {
    exists s :: s in segs && s.start <= p < s.start + |s.text|
  }

  lemma SegmentOfSlice(content: string, start: nat, end: nat, segs: seq<Segment>)
    requires start <= end <= |content| && segs == SegmentOf(content, start, end)
    ensures |segs| <= 1 && (forall s :: s in segs ==> SegmentSlice(content, s, start, end))
    ensures forall p :: start <= p < end && !IsSpace(content[p]) ==> SegmentCovers(segs, p)
  {
    var seg := content[start..end];
    if segs == [] {
      BlankSlice(content, start, end);
    } else {
      var lead := LeadingSpaces(seg);
      Trimmed(content, start, end, seg, lead, seg[lead..], segs[0]);
      OneCovers(content, start, end, segs[0]);
      assert segs == [segs[0]];
    }
  }

  lemma BlankSlice(content: string, start: nat, end: nat)
    requires start <= end <= |content| && IsBlankText(content[start..end])
    ensures forall p :: start <= p < end ==> IsSpace(content[p])
  {
    forall p | start <= p < end ensures IsSpace(content[p]) {
      assert content[p] == content[start..end][p - start];
    }
  }

  lemma OneCovers(content: string, start: nat, end: nat, s: Segment)
    requires start <= end <= |content|
    requires forall p :: start <= p < end && !IsSpace(content[p]) ==> s.start <= p < s.start + |s.text|
    ensures forall p :: start <= p < end && !IsSpace(content[p]) ==> SegmentCovers([s], p)
  {
    assert s in [s];
  }

  lemma Trimmed(content: string, start: nat, end: nat, seg: string, lead: nat, rest: string, s: Segment)
    requires start <= end <= |content| && seg == content[start..end] && !IsBlankText(seg) && lead == LeadingSpaces(seg)
    requires rest == seg[lead..] && s == Segment(RStripNewlines(rest), start + lead)
    ensures SegmentSlice(content, s, start, end)
    ensures forall p :: start <= p < end && !IsSpace(content[p]) ==> s.start <= p < s.start + |s.text|
  {
    NotStrippedBare(seg, lead);
    TrimmedSlice(content, start, end, seg, lead, rest, s);
    forall p | start <= p < end && !IsSpace(content[p]) ensures s.start <= p < s.start + |s.text| {
      InTrimmed(content, start, end, seg, lead, rest, p);
    }
  }

  lemma TrimmedSlice(content: string, start: nat, end: nat, seg: string, lead: nat, rest: string, s: Segment)
    requires start <= end <= |content| && seg == content[start..end] && lead <= |seg| && rest == seg[lead..]
    requires s.start == start + lead && s.text != "" && s.text <= rest
    ensures SegmentSlice(content, s, start, end)
  {
    PrefixOfRest(content, start, end, lead, rest, s.text);
  }

  lemma NotStrippedBare(seg: string, lead: nat)
    requires !IsBlankText(seg) && lead == LeadingSpaces(seg)
    ensures RStripNewlines(seg[lead..]) != ""
  {
    assert seg[lead..][0] == seg[lead] && !IsSpace(seg[lead]);
  }

  lemma PrefixOfRest(content: string, start: nat, end: nat, lead: nat, rest: string, text: string)
    requires start + lead <= end <= |content| && rest == content[start..end][lead..] && text <= rest
    ensures start + lead + |text| <= end && text == content[start + lead..start + lead + |text|]
  {
    assert rest == content[start + lead..end];
    assert text == rest[..|text|];
  }

  lemma InTrimmed(content: string, start: nat, end: nat, seg: string, lead: nat, rest: string, p: nat)
    requires start <= p < end <= |content| && seg == content[start..end] && lead == LeadingSpaces(seg)
        && rest == seg[lead..]
    requires !IsSpace(content[p])
    ensures start + lead <= p < start + lead + |RStripNewlines(rest)|
  {
    assert content[p] == seg[p - start];
    assert p - start >= lead;
    assert rest[p - start - lead] == content[p];
  }

  /** One segment after the other. */
  ghost predicate InOrder(segs: seq<Segment>) {
    forall i, j :: 0 <= i < j < |segs| ==> segs[i].start + |segs[i].text| <= segs[j].start
  }

  lemma {:induction false} SegmentsCoverText(content: string, bounds: seq<nat>)
    requires Ascends(bounds, |content|) && |bounds| > 0 && bounds[|bounds| - 1] == |content|
    ensures var segs := Segments(content, bounds);
      && (forall s :: s in segs ==> SegmentSlice(content, s, bounds[0], |content|)) && InOrder(segs)
      && forall p :: bounds[0] <= p < |content| && !IsSpace(content[p]) ==> SegmentCovers(segs, p)
    decreases |bounds|
  {
    if |bounds| >= 2 {
      var first := SegmentOf(content, bounds[0], bounds[1]);
      var rest := Segments(content, bounds[1..]);
      SegmentOfSlice(content, bounds[0], bounds[1], first);
      SegmentsCoverText(content, bounds[1..]);
      SegmentsJoin(content, bounds[0], bounds[1], first, rest);
    }
  }

  lemma SegmentsJoin(content: string, lo: nat, mid: nat, first: seq<Segment>, rest: seq<Segment>)
    requires lo <= mid <= |content| && |first| <= 1 && InOrder(rest)
    requires forall s :: s in first ==> SegmentSlice(content, s, lo, mid)
    requires forall s :: s in rest ==> SegmentSlice(content, s, mid, |content|)
    requires forall p :: lo <= p < mid && !IsSpace(content[p]) ==> SegmentCovers(first, p)
    requires forall p :: mid <= p < |content| && !IsSpace(content[p]) ==> SegmentCovers(rest, p)
    ensures InOrder(first + rest) && forall s :: s in first + rest ==> SegmentSlice(content, s, lo, |content|)
    ensures forall p :: lo <= p < |content| && !IsSpace(content[p]) ==> SegmentCovers(first + rest, p)
  {
    var all := first + rest;
    forall i, j | 0 <= i < j < |all| ensures all[i].start + |all[i].text| <= all[j].start {
      assert j >= |first| && all[j] == rest[j - |first|] && all[j] in rest;
      if i < |first| {
        assert all[i] == first[i] && all[i] in first;
      } else {
        assert all[i] == rest[i - |first|];
      }
    }
    forall p | lo <= p < |content| && !IsSpace(content[p]) ensures SegmentCovers(all, p) {
      if p < mid {
        assert SegmentCovers(first, p);
      } else {
        assert SegmentCovers(rest, p);
      }
    }
  }

  ghost predicate InSegment(s: Segment, p: nat) { s.start <= p < s.start + |s.text| }

  /** Two positions with no boundary between them are in the same segment, if they are in segments at all. */
  lemma {:induction false} SameSegment(content: string, bounds: seq<nat>, g: Segment, h: Segment, p: nat, q: nat)
    requires Ascends(bounds, |content|) && |bounds| > 0 && bounds[|bounds| - 1] == |content|
    requires g in Segments(content, bounds) && h in Segments(content, bounds) && InSegment(g, p) && InSegment(h, q)
    requires p < q && forall b :: b in bounds ==> !(p < b <= q)
    ensures g == h
    decreases |bounds|
  {
    var first := SegmentOf(content, bounds[0], bounds[1]);
    var rest := Segments(content, bounds[1..]);
    SegmentOfSlice(content, bounds[0], bounds[1], first);
    SegmentsCoverText(content, bounds[1..]);
    assert bounds[1] in bounds;
    if g in rest && h in rest {
      assert forall b :: b in bounds[1..] ==> b in bounds;
      SameSegment(content, bounds[1..], g, h, p, q);
    } else if g in first && h in first {
      assert first == [first[0]];
    }
  }

  /** A code fence is never divided between segments. */
  lemma FenceInOneSegment(content: string, s: Fence, g: Segment, h: Segment, p: nat, q: nat)
    requires s in FencesIn(content) && s.start <= p < q < s.end
    requires var bounds := Boundaries(content, FencesIn(content));
      Ascends(bounds, |content|) && g in Segments(content, bounds) && h in Segments(content, bounds)
    requires InSegment(g, p) && InSegment(h, q)
    ensures g == h
  {
    var bounds := Boundaries(content, FencesIn(content));
    BoundariesAscend(content, FencesIn(content));
    forall b | b in bounds ensures !(p < b <= q) {
      NoBoundaryInFence(content, b, s);
    }
    SameSegment(content, bounds, g, h, p, q);
  }

  /** A segment begins with a character that is not white space and does not end in a newline. */
  lemma SegmentTrimmed(seg: string, start: nat, s: Segment)
    requires s in SegmentIn(seg, start)
    ensures s.text != "" && !IsSpace(s.text[0]) && s.text[|s.text| - 1] != '\n' && s.start == start + LeadingSpaces(seg)
  {
    NotStrippedBare(seg, LeadingSpaces(seg));
  }

  // ----- blank lines divide

  /** A fence reaches from its opening mark to the end of the line of a closing mark. */
  ghost predicate ClosedAt(content: string, s: Fence, c: nat) {
    s.start < c && FenceMark(content, s.start) && FenceMark(content, c) && c + 3 <= |content|
        && s.end == LineEnd(content, c + 3)
  }

  lemma {:induction false} FencesClose(content: string, marks: seq<nat>, s: Fence) returns (c: nat)
    requires forall m :: m in marks ==> FenceMark(content, m)
    requires StrictlyAscends(marks) && s in Fences(content, marks)
    ensures ClosedAt(content, s, c)
    decreases |marks|
  {
    if s == Fence(marks[0], LineEnd(content, marks[1] + 3)) {
      c := marks[1];
      assert marks[0] in marks && marks[1] in marks;
    } else {
      assert marks[1..][1..] == marks[2..];
      c := FencesClose(content, marks[2..], s);
    }
  }

  /** From i to j there is only white space, and there is a newline at both ends: a blank line, at least. */
  ghost predicate BlankLine(content: string, i: nat, j: nat) {
    i < j < |content| && content[i] == '\n' && content[j] == '\n' && forall k :: i <= k <= j ==> IsSpace(content[k])
  }

  lemma {:induction false} LastNewlineReaches(content: string, lo: nat, j: nat)
    requires lo <= j < |content| && content[j] == '\n' && forall k :: lo <= k <= j ==> IsSpace(content[k])
    ensures LastNewline(content, lo) >= j
    decreases j - lo
  {
    if lo < j {
      LastNewlineReaches(content, lo + 1, j);
    } else {
      assert IsSpace('\n');
    }
  }

  /** White space cannot lead out of a fence over a line end: if its start is in the fence, so is its end. */
  lemma SpaceStaysInside(content: string, s: Fence, c: nat, p: nat, i: nat)
    requires ClosedAt(content, s, c) && p < i < |content| && content[p] == '\n' && content[i] == '\n'
    requires forall k :: p <= k <= i ==> IsSpace(content[k])
    requires s.start <= p < s.end
    ensures s.start <= i < s.end
  {
    assert content[c + 0] == "```"[0] && content[c + 1] == "```"[1] && content[c + 2] == "```"[2];
    assert p < c || p >= c + 3;
    if p >= c + 3 {
      assert IsAt(content, "\n", p);
    } else {
      assert !IsSpace(content[c]);
    }
  }

  /**
    Behind every blank line that is outside the fences stands the end of a break, up to which there is only white
    space.
   */
  lemma {:induction false} BlankLineEnded(content: string, spans: seq<Fence>, p: nat, i: nat, j: nat) returns (b: nat)
    requires p <= i && BlankLine(content, i, j) && !WithinAny(i, spans)
    requires forall s :: s in spans ==> exists c :: ClosedAt(content, s, c)
    ensures b in BlankLineEnds(content, spans, p) && j < b <= |content|
        && forall k :: i <= k < b ==> IsSpace(content[k])
    decreases |content| - p
  {
    var e := BreakEnd(content, p);
    if e == 0 {
      if p == i {
        LastNewlineReaches(content, i + 1, j);
      }
      b := BlankLineEnded(content, spans, p + 1, i, j);
    } else if e <= i {
      b := BlankLineEnded(content, spans, e, i, j);
    } else {
      forall k | p <= k <= j ensures IsSpace(content[k]) {
      }
      LastNewlineReaches(content, p + 1, j);
      StartsOutside(content, spans, p, i);
      b := e;
    }
  }

  /** White space that is outside the fences at a line end was outside at the line end where it began. */
  lemma StartsOutside(content: string, spans: seq<Fence>, p: nat, i: nat)
    requires p <= i < |content| && content[p] == '\n' && content[i] == '\n' && !WithinAny(i, spans)
    requires forall k :: p <= k <= i ==> IsSpace(content[k])
    requires forall s :: s in spans ==> exists c :: ClosedAt(content, s, c)
    ensures !WithinAny(p, spans)
  {
    forall s | s in spans ensures !(s.start <= p < s.end) {
      var c :| ClosedAt(content, s, c);
      if p < i && s.start <= p < s.end {
        SpaceStaysInside(content, s, c, p, i);
      }
    }
  }

  /** Without a heading outside the fences, every blank line outside them divides the text. */
  lemma BlankLineDivides(content: string, i: nat, j: nat) returns (b: nat)
    requires var spans := FencesIn(content); Headings(content, spans, 0) == [] && !WithinAny(i, spans)
    requires BlankLine(content, i, j)
    ensures b in Boundaries(content, FencesIn(content)) && j < b
        && forall k :: i <= k < b && k < |content| ==> IsSpace(content[k])
  {
    AllClosed(content);
    b := BlankLineEnded(content, FencesIn(content), 0, i, j);
    EndIsBoundary(content, FencesIn(content), b);
  }

  lemma AllClosed(content: string)
    ensures forall s :: s in FencesIn(content) ==> exists c :: ClosedAt(content, s, c)
  {
    MarksAscend(content, 0);
    forall s | s in FencesIn(content) ensures exists c :: ClosedAt(content, s, c) {
      var c := FencesClose(content, FenceMarks(content, 0), s);
    }
  }

  /** Without headings, the ends of the breaks are boundaries. */
  lemma EndIsBoundary(content: string, spans: seq<Fence>, b: nat)
    requires Headings(content, spans, 0) == [] && b in BlankLineEnds(content, spans, 0)
    ensures b in Boundaries(content, spans)
  {
    var es := BlankLineEnds(content, spans, 0);
    BlankLineEndsAscend(content, spans, 0);
    BetweenEnds(es, |content|);
    DistinctSorts([0] + es + [|content|], |content|);
  }

  /** Every heading outside the fences divides the text. */
  lemma HeadingDivides(content: string, h: nat)
    requires HeadingAt(content, h) && !WithinAny(h, FencesIn(content))
    ensures h in Boundaries(content, FencesIn(content))
  {
    HeadingsExact(content, FencesIn(content), 0, h);
  }

  // ----- the segment around a fence

  ghost predicate Holds(g: Segment, lo: nat, hi: nat) {
    g.start <= lo && hi <= g.start + |g.text|
  }

  /** A stretch without boundaries that begins solid and does not end in a newline lies in one segment. */
  lemma {:induction false} SegmentAround(content: string, bounds: seq<nat>, lo: nat, hi: nat) returns (g: Segment)
    requires Ascends(bounds, |content|) && bounds != [] && bounds[0] <= lo < hi <= bounds[|bounds| - 1] == |content|
    requires !IsSpace(content[lo]) && content[hi - 1] != '\n' && forall b :: b in bounds ==> !(lo < b < hi)
    ensures g in Segments(content, bounds) && Holds(g, lo, hi)
    decreases |bounds|
  {
    assert |bounds| >= 2;
    assert bounds[1] in bounds;
    if lo < bounds[1] {
      g := SegmentBetween(content, bounds[0], bounds[1], lo, hi);
    } else {
      forall b | b in bounds[1..] ensures b in bounds {
      }
      g := SegmentAround(content, bounds[1..], lo, hi);
    }
  }

  lemma SegmentBetween(content: string, start: nat, end: nat, lo: nat, hi: nat) returns (g: Segment)
    requires start <= lo < hi <= end <= |content| && !IsSpace(content[lo]) && content[hi - 1] != '\n'
    ensures g in SegmentOf(content, start, end) && Holds(g, lo, hi)
  {
    var seg := content[start..end];
    assert seg[lo - start] == content[lo] && seg[hi - 1 - start] == content[hi - 1];
    g := SegmentKeeps(seg, start, lo - start, hi - start);
  }

  lemma SegmentKeeps(seg: string, start: nat, lo: nat, hi: nat) returns (g: Segment)
    requires lo < hi <= |seg| && !IsSpace(seg[lo]) && seg[hi - 1] != '\n'
    ensures g in SegmentIn(seg, start) && Holds(g, start + lo, start + hi)
  {
    var lead := LeadingSpaces(seg);
    assert lead <= lo;
    g := Segment(RStripNewlines(seg[lead..]), start + lead);
    StripKeeps(seg[lead..], hi - lead);
    assert seg[lead..][hi - lead - 1] == seg[hi - 1];
    assert SegmentIn(seg, start) == [g];
  }

  lemma StripKeeps(t: string, n: nat)
    requires 0 < n <= |t|
    ensures t[n - 1] != '\n' ==> n <= |RStripNewlines(t)|
  {
  }

  /** A fence begins with a mark and ends on the line of its closing mark. */
  lemma FenceEdges(content: string, s: Fence, c: nat)
    requires ClosedAt(content, s, c)
    ensures s.start < s.end <= |content| && content[s.start] == '`' && content[s.end - 1] != '\n'
  {
    assert "```"[0] == '`' && "```"[2] == '`';
    assert content[s.start + 0] == "```"[0] && content[c + 2] == "```"[2];
    var i := Find(content, "\n", c + 3);
    assert c + 3 <= s.end;
    if s.end > c + 3 && content[s.end - 1] == '\n' {
      assert IsAt(content, "\n", s.end - 1);
    }
  }

  /** Every fence lies in one segment. */
  lemma SegmentOfFence(content: string, s: Fence) returns (g: Segment)
    requires s in FencesIn(content)
    ensures s.start < s.end <= |content|
    ensures var bounds := Boundaries(content, FencesIn(content));
      Ascends(bounds, |content|) && g in Segments(content, bounds) && Holds(g, s.start, s.end)
  {
    var spans := FencesIn(content);
    var bounds := Boundaries(content, spans);
    MarksAscend(content, 0);
    var c := FencesClose(content, FenceMarks(content, 0), s);
    FenceEdges(content, s, c);
    BoundariesAscend(content, spans);
    forall b | b in bounds ensures !(s.start < b < s.end) {
      NoBoundaryInFence(content, b, s);
    }
    g := SegmentAround(content, bounds, s.start, s.end);
  }
}
