/** Where a text that is cut to size is cut: paragraphs before sentences before blanks, spelled out. */
module CutPlaces {
  import opened Chunker
  import opened FixedSplit
  import opened Structure
  import opened Text

  ghost predicate Has(window: string, term: string) { exists i :: IsAt(window, term, i) }

  /** r lies right behind the last occurrence of the term. */
  ghost predicate BehindLast(window: string, term: string, r: int) {
    IsAt(window, term, r - |term|) && forall i :: i > r - |term| ==> !IsAt(window, term, i)
  }

  /** Behind the last blank line, else behind a sentence, else behind a blank. */
  ghost predicate Preferred(window: string, r: int) {
    if Has(window, "\n\n") then BehindLast(window, "\n\n", r) else BehindSentence(window, r)
  }

  /** Behind the last sentence end of the first of six kinds there is. */
  ghost predicate BehindSentence(window: string, r: int) {
    if Has(window, ". ") then BehindLast(window, ". ", r)
    else if Has(window, "! ") then BehindLast(window, "! ", r)
    else if Has(window, "? ") then BehindLast(window, "? ", r)
    else if Has(window, ".\n") then BehindLast(window, ".\n", r)
    else if Has(window, "!\n") then BehindLast(window, "!\n", r)
    else if Has(window, "?\n") then BehindLast(window, "?\n", r)
    else BehindBlank(window, r)
  }

  /** Behind the last space, else behind the last newline, else at the end. */
  ghost predicate BehindBlank(window: string, r: int) {
    if Has(window, " ") then BehindLast(window, " ", r)
    else if Has(window, "\n") then BehindLast(window, "\n", r)
    else r == |window|
  }

  /** The cut that the terms from the k-th on give. */
  function CutBy(window: string, k: nat): int
    requires k <= |BREAKS|
  {
    var r := BreakIn(window, BREAKS[k..]);
    if r >= 0 then r else |window|
  }

  lemma OneTerm(window: string, k: nat, term: string)
    requires k < |BREAKS| && term == BREAKS[k]
    ensures if Has(window, term) then BehindLast(window, term, CutBy(window, k))
            else CutBy(window, k) == CutBy(window, k + 1)
  {
    assert BREAKS[k..][0] == term && BREAKS[k..][1..] == BREAKS[k + 1..];
    var i := RFind(window, term);
    assert i >= 0 <==> Has(window, term);
  }

  lemma BlankCut(window: string)
    ensures BehindBlank(window, CutBy(window, 7))
  {
    assert BREAKS[9..] == [];
    OneTerm(window, 7, " ");
    OneTerm(window, 8, "\n");
  }

  lemma SentenceCut(window: string)
    ensures BehindSentence(window, CutBy(window, 1))
  {
    OneTerm(window, 1, ". ");
    OneTerm(window, 2, "! ");
    OneTerm(window, 3, "? ");
    OneTerm(window, 4, ".\n");
    OneTerm(window, 5, "!\n");
    OneTerm(window, 6, "?\n");
    BlankCut(window);
  }

  lemma WindowCut(window: string)
    ensures Preferred(window, CutBy(window, 0)) && BREAKS[0..] == BREAKS
  {
    OneTerm(window, 0, "\n\n");
    SentenceCut(window);
  }

  /** A piece that is cut ends between 401 and 600 characters behind its start, at the preferred place of these 200. */
  lemma CutIsPreferred(text: string, i: nat)
    requires i + 600 < |text|
    ensures Preferred(text[i + 400..i + 600], CutAfter(text, i) - (i + 400))
  {
    WindowCut(text[i + 400..i + 600]);
    GuardsNeverTaken(text, i);
  }

  /** c is cut at the preferred place, and d begins 60 characters before that. */
  ghost predicate CutBetweenThem(text: string, base: nat, c: Chunk, d: Chunk) {
    && base <= c.start && c.start + 600 < base + |text|
    && Preferred(text[c.start - base + 400..c.start - base + 600], c.end - (c.start + 400))
    && d.start == c.end - 60
  }

  /** So it is with every piece and the next. */
  lemma {:induction false} PiecesAreCut(text: string, base: nat, i: nat, k: nat)
    requires k + 1 < |FixedFrom(text, base, i)|
    ensures CutBetweenThem(text, base, FixedFrom(text, base, i)[k], FixedFrom(text, base, i)[k + 1])
    decreases k
  {
    var c, next := FixedStep(text, base, i);
    if k == 0 {
      FirstStart(text, base, next);
      FirstCut(text, base, i, CutAfter(text, i), c, FixedFrom(text, base, next)[0]);
    } else {
      PiecesAreCut(text, base, next, k - 1);
    }
  }

  lemma FirstCut(text: string, base: nat, i: nat, cut: nat, c: Chunk, d: Chunk)
    requires i + 600 < |text| && cut == CutAfter(text, i) && c.start == base + i && c.end == base + cut
    requires d.start == base + NextStart(i, cut)
    ensures CutBetweenThem(text, base, c, d)
  {
    GuardsNeverTaken(text, i);
    CutIsPreferred(text, i);
    assert c.start - base + 400 == i + 400 && c.end - (c.start + 400) == cut - (i + 400);
  }

  lemma FirstStart(text: string, base: nat, i: nat)
    ensures FixedFrom(text, base, i) != [] ==> FixedFrom(text, base, i)[0].start == base + i
  {
  }

  /** Only the last piece is not cut: it reaches to the end of the text, from at most 600 characters before. */
  lemma {:induction false} LastPiece(text: string, base: nat, i: nat)
    requires i < |text|
    ensures var cs := FixedFrom(text, base, i);
      && cs != [] && cs[0].start == base + i
      && cs[|cs| - 1].end == base + |text| && |text| + base <= cs[|cs| - 1].start + 600
    decreases |text| - i
  {
    if i + 600 < |text| {
      var c, next := FixedStep(text, base, i);
      GuardsNeverTaken(text, i);
      LastPiece(text, base, next);
    }
  }

  /**
    A segment of more than 1200 characters is cut in this way from its start to its end, and a shorter one is one piece.
   */
  lemma SegmentIsCut(s: Segment)
    ensures var cs := PiecesOf(s);
      && cs != [] && cs[0].start == s.start && cs[|cs| - 1].end == s.start + |s.text|
      && (if |s.text| <= 1200 then cs == [Chunk(s.text, s.start, s.start + |s.text|)]
          else forall k :: 0 <= k < |cs| - 1 ==> CutBetweenThem(s.text, s.start, cs[k], cs[k + 1]))
  {
    var cs := PiecesOf(s);
    if |s.text| > 1200 {
      LastPiece(s.text, s.start, 0);
      forall k | 0 <= k < |cs| - 1 ensures CutBetweenThem(s.text, s.start, cs[k], cs[k + 1]) {
        PiecesAreCut(s.text, s.start, 0, k);
      }
    }
  }
}
