/** Fixed-size splitting of a text into overlapping pieces at preferred break points. */
module FixedSplit {
  import opened Text

  const CHUNK_THRESHOLD := 2000
  const HYSTERESIS_LOW := 1500
  const MAX_CHUNK_SIZE := 1200
  const TARGET_CHUNK_SIZE := 600
  const CHUNK_OVERLAP := 60
  const MIN_CHUNK_SIZE := 120
  const LOOKBACK := 200

  datatype Chunk = Chunk(text: string, start: nat, end: nat)

  // ----- fixed-size splitting

  /** The break terms, in the order in which they are tried. */
  const BREAKS := ["\n\n", ". ", "! ", "? ", ".\n", "!\n", "?\n", " ", "\n"]

  /** Behind the last occurrence of the first term that occurs at all; -1 if none does. */
  function BreakIn(window: string, terms: seq<string>): (r: int)
    ensures r <= |window|
  {
    if terms == [] then -1
    else
      var i := RFind(window, terms[0]);
      if i >= 0 then i + |terms[0]| else BreakIn(window, terms[1..])
  }

  function FindBreak(text: string, target: nat): (r: int)
    requires target <= |text|
    ensures r <= target
  {
    var from := if target > LOOKBACK then target - LOOKBACK else 0;
    var i := BreakIn(text[from..target], BREAKS);
    if i >= 0 then from + i else target
  }

  predicate IsBlank(c: char) { c == ' ' || c == '\n' }

  ghost predicate BreakTerm(t: string) { t != "" && IsBlank(t[|t| - 1]) }

  lemma {:induction false} BreakInLands(window: string, terms: seq<string>)
    requires forall t :: t in terms ==> BreakTerm(t)
    ensures var r := BreakIn(window, terms);
      && (r >= 0 ==> r > 0 && IsBlank(window[r - 1]))
      && (r < 0 ==> forall t, k :: t in terms ==> !IsAt(window, t, k))
  {
    if terms != [] {
      var t := terms[0];
      var i := RFind(window, t);
      assert BreakTerm(t);
      if i >= 0 {
        assert window[i + (|t| - 1)] == t[|t| - 1];
      } else {
        BreakInLands(window, terms[1..]);
      }
    }
  }

  /** The cut is behind the last occurrence of a term before which no term of higher preference occurs at all. */
  lemma {:induction false} BreakInPrefers(window: string, terms: seq<string>) returns (k: nat)
    ensures var r := BreakIn(window, terms);
      && k <= |terms| && (r < 0 <==> k == |terms|)
      && (forall j, i :: 0 <= j < k ==> !IsAt(window, terms[j], i))
      && (k < |terms| ==>
         IsAt(window, terms[k], r - |terms[k]|) && forall i :: i > r - |terms[k]| ==> !IsAt(window, terms[k], i))
  {
    if terms == [] {
      k := 0;
    } else if RFind(window, terms[0]) >= 0 {
      k := 0;
    } else {
      var n := BreakInPrefers(window, terms[1..]);
      k := n + 1;
    }
  }

  /** The cut lies in the look-back window, behind a blank if the window has one, else at its end. */
  lemma FindBreakLands(text: string, target: nat)
    requires LOOKBACK < target <= |text|
    ensures var r := FindBreak(text, target); var from := target - LOOKBACK;
      && from < r <= target
      && (IsBlank(text[r - 1]) || (r == target && forall k :: from <= k < target ==> !IsBlank(text[k])))
  {
    var from := target - LOOKBACK;
    var window := text[from..target];
    assert " " == BREAKS[7] && "\n" == BREAKS[8];
    BreakInLands(window, BREAKS);
    var i := BreakIn(window, BREAKS);
    if i < 0 {
      forall k | from <= k < target ensures !IsBlank(text[k]) {
        assert !IsAt(window, " ", k - from) && !IsAt(window, "\n", k - from);
      }
    } else {
      assert window[i - 1] == text[from + i - 1];
    }
  }

  /** Where the piece that starts at i ends, when more text follows behind the target. */
  function CutAfter(text: string, i: nat): (cut: nat)
    requires i + TARGET_CHUNK_SIZE < |text|
    ensures i < cut <= i + TARGET_CHUNK_SIZE
  {
    var found := FindBreak(text, i + TARGET_CHUNK_SIZE);
    if found <= i then i + TARGET_CHUNK_SIZE else found
  }

  function Max(a: int, b: int): int { if a > b then a else b }

  function NextStart(i: nat, cut: nat): nat { Max(cut - CHUNK_OVERLAP, i + 1) }

  /** The chunks of text[i..], their offsets moved by base. */
  function FixedFrom(text: string, base: nat, i: nat): seq<Chunk>
    decreases |text| - i
  {
    if i >= |text| then []
    else if i + TARGET_CHUNK_SIZE >= |text| then [Chunk(text[i..], base + i, base + |text|)]
    else
      var cut := CutAfter(text, i);
      [Chunk(text[i..cut], base + i, base + cut)] + FixedFrom(text, base, NextStart(i, cut))
  }

  lemma FixedStep(text: string, base: nat, i: nat) returns (c: Chunk, next: nat)
    requires i + TARGET_CHUNK_SIZE < |text|
    ensures FixedFrom(text, base, i) == [c] + FixedFrom(text, base, next)
    ensures var cut := CutAfter(text, i); c == Chunk(text[i..cut], base + i, base + cut) && next == NextStart(i, cut)
  {
    var cut := CutAfter(text, i);
    c, next := Chunk(text[i..cut], base + i, base + cut), NextStart(i, cut);
  }

  lemma Shifted<T>(a: seq<T>, x: T, b: seq<T>)
    ensures a + ([x] + b) == a + [x] + b && a + [] == a
  {
  }

  method FixedSizeSplit(text: string, base: nat) returns (chunks: seq<Chunk>)
    ensures chunks == FixedFrom(text, base, 0)
  {
    chunks := [];
    var i := 0;
    var n := |text|;
    while i < n
      invariant 0 <= i
      invariant chunks + FixedFrom(text, base, i) == FixedFrom(text, base, 0)
      decreases n - i
    {
      var target := if i + TARGET_CHUNK_SIZE < n then i + TARGET_CHUNK_SIZE else n;
      if target == n {
        assert text[i..n] == text[i..];
        chunks := chunks + [Chunk(text[i..n], base + i, base + n)];
        return;
      }
      chunks, i := OnePiece(text, base, i, target, chunks);
    }
    assert chunks + [] == chunks;
  }

  method OnePiece(text: string, base: nat, i: nat, target: nat, chunks: seq<Chunk>)
      returns (chunks': seq<Chunk>, i': nat)
    requires target == i + TARGET_CHUNK_SIZE < |text|
    ensures i < i' && chunks' + FixedFrom(text, base, i') == chunks + FixedFrom(text, base, i)
  {
    ghost var c, next := FixedStep(text, base, i);
    var cut := FindBreak(text, target);
    if cut <= i {
      cut := target;
    }
    chunks' := chunks + [Chunk(text[i..cut], base + i, base + cut)];
    i' := Max(cut - CHUNK_OVERLAP, i + 1);
    Shifted(chunks, c, FixedFrom(text, base, next));
  }

  /** The first piece and, of each later one, what lies behind the overlap. */
  function Rebuild(chunks: seq<Chunk>): string {
    if chunks == [] then "" else chunks[0].text + Behind(chunks[1..])
  }

  function Behind(chunks: seq<Chunk>): string {
    if chunks == [] then ""
    else (if |chunks[0].text| >= CHUNK_OVERLAP then chunks[0].text[CHUNK_OVERLAP..] else "") + Behind(chunks[1..])
  }

  /** The guards for a missing break point and for missing progress are never taken. */
  lemma GuardsNeverTaken(text: string, i: nat)
    requires i + TARGET_CHUNK_SIZE < |text|
    ensures var found := FindBreak(text, i + TARGET_CHUNK_SIZE);
      && CutAfter(text, i) == found
      && NextStart(i, found) == found - CHUNK_OVERLAP
      && i + 341 <= found - CHUNK_OVERLAP && found <= i + TARGET_CHUNK_SIZE
  {
    FindBreakLands(text, i + TARGET_CHUNK_SIZE);
  }

  /** The pieces make up the text again, are short, and are not many. */
  lemma {:induction false} FixedRebuilds(text: string, base: nat, i: nat)
    requires i < |text|
    ensures var cs := FixedFrom(text, base, i);
      && |cs| > 0 && cs[0].start == base + i && Rebuild(cs) == text[i..]
      && (|cs| >= 2 ==> 341 * (|cs| - 2) < |text| - i - TARGET_CHUNK_SIZE)
      && (|cs| == 1 ==> |text| - i <= TARGET_CHUNK_SIZE)
      && (|text| - i >= CHUNK_OVERLAP ==> |cs[0].text| >= CHUNK_OVERLAP)
    decreases |text| - i
  {
    if i + TARGET_CHUNK_SIZE < |text| {
      var cut := CutAfter(text, i);
      GuardsNeverTaken(text, i);
      var next := cut - CHUNK_OVERLAP;
      FixedRebuilds(text, base, next);
      var rest := FixedFrom(text, base, next);
      RebuildFrom(Chunk(text[i..cut], base + i, base + cut), rest);
      assert text[i..] == text[i..cut] + text[next..][CHUNK_OVERLAP..];
    }
  }

  lemma RebuildFrom(c: Chunk, rest: seq<Chunk>)
    requires |rest| > 0 && |rest[0].text| >= CHUNK_OVERLAP
    ensures Rebuild([c] + rest) == c.text + Rebuild(rest)[CHUNK_OVERLAP..]
  {
    assert ([c] + rest)[1..] == rest;
  }

  /**
    Each piece is the text between its offsets, at most 600 long; starts and ends increase; together they leave no
    gap.
   */
  ghost predicate Tiles(text: string, base: nat, i: nat, cs: seq<Chunk>) {
    && |cs| > 0 && cs[0].start == base + i && cs[|cs| - 1].end == base + |text|
    && (forall c :: c in cs ==> PieceOf(text, base, i, c))
    && Ascending(cs)
    && forall p :: base + i <= p < base + |text| ==> Covered(cs, p)
  }

  ghost predicate PieceOf(text: string, base: nat, i: nat, c: Chunk) {
    base + i <= c.start < c.end <= base + |text| && c.text == text[c.start - base..c.end - base]
        && |c.text| <= TARGET_CHUNK_SIZE
  }

  ghost predicate Ascending(cs: seq<Chunk>) {
    forall k :: 0 <= k < |cs| - 1 ==> Precedes(cs[k], cs[k + 1])
  }

  ghost predicate Precedes(a: Chunk, b: Chunk) { a.start < b.start && a.end < b.end }

  ghost predicate Covered(cs: seq<Chunk>, p: nat) {
    exists c :: c in cs && c.start <= p < c.end
  }

  lemma {:induction false} FixedTiles(text: string, base: nat, i: nat)
    requires i < |text|
    ensures Tiles(text, base, i, FixedFrom(text, base, i))
    decreases |text| - i
  {
    if i + TARGET_CHUNK_SIZE < |text| {
      var c, next := FixedStep(text, base, i);
      var rest := FixedFrom(text, base, next);
      GuardsNeverTaken(text, i);
      FixedTiles(text, base, next);
      FirstEnd(text, base, next, c.end);
      TilesFrom(text, base, i, c.end - base, next, c, rest);
    } else {
      LastTile(text, base, i);
    }
  }

  lemma LastTile(text: string, base: nat, i: nat)
    requires i < |text| <= i + TARGET_CHUNK_SIZE
    ensures Tiles(text, base, i, [Chunk(text[i..], base + i, base + |text|)])
  {
    var c := Chunk(text[i..], base + i, base + |text|);
    assert c in [c];
  }

  lemma FirstEnd(text: string, base: nat, i: nat, e: nat)
    requires i < |text| && e < base + |text| && e <= base + i + CHUNK_OVERLAP
    ensures |FixedFrom(text, base, i)| > 0 && FixedFrom(text, base, i)[0].end > e
  {
    if i + TARGET_CHUNK_SIZE < |text| {
      GuardsNeverTaken(text, i);
    }
  }

  lemma TilesFrom(text: string, base: nat, i: nat, cut: nat, next: nat, c: Chunk, rest: seq<Chunk>)
    requires i < cut <= i + TARGET_CHUNK_SIZE < |text| && i < next <= cut
    requires c == Chunk(text[i..cut], base + i, base + cut)
    requires Tiles(text, base, next, rest) && rest[0].end > c.end
    ensures Tiles(text, base, i, [c] + rest)
  {
    var cs := [c] + rest;
    forall d | d in cs ensures PieceOf(text, base, i, d) {
      assert d != c ==> PieceOf(text, base, next, d);
    }
    FirstAscends(c, rest);
    forall p | base + i <= p < base + |text| ensures Covered(cs, p) {
      FirstCovers(c, rest, p);
      assert p >= base + cut ==> Covered(rest, p);
    }
  }

  lemma FirstAscends(c: Chunk, rest: seq<Chunk>)
    requires rest != [] && Ascending(rest) && Precedes(c, rest[0])
    ensures Ascending([c] + rest)
  {
    var cs := [c] + rest;
    forall k | 0 <= k < |cs| - 1 ensures Precedes(cs[k], cs[k + 1]) {
      assert k > 0 ==> cs[k] == rest[k - 1] && Precedes(rest[k - 1], rest[k]);
    }
  }

  lemma FirstCovers(c: Chunk, rest: seq<Chunk>, p: nat)
    ensures c.start <= p < c.end || Covered(rest, p) ==> Covered([c] + rest, p)
  {
    var cs := [c] + rest;
    assert cs[0] == c && c in cs;
    if Covered(rest, p) {
      var d :| d in rest && d.start <= p < d.end;
      assert d in cs;
    }
  }
}
