/**
  The marker blocks in plain characters: what is printed, which span is the block, what is read, replaced and deleted.
 */
module MarkerText {
  import opened Wrappers
  import opened Text
  import opened Markers

  /** The line that begins or ends the block of a name. */
  function Marker(name: string, word: string): string {
    "<!-- sage-memory:skill:" + name + ":" + word + " -->"
  }

  ghost predicate Newlines(t: string) { forall k :: 0 <= k < |t| ==> t[k] == '\n' }

  lemma MarkersRead(name: string)
    ensures Begin(name) == Marker(name, "begin") && End(name) == Marker(name, "end")
  {
    assert ":begin -->" == ":" + "begin" + " -->";
    assert ":end -->" == ":" + "end" + " -->";
  }

  /** Only newlines behind: they are what is stripped. */
  lemma {:induction false} StripsBehind(part: string, tail: string)
    requires Newlines(tail) && (part == "" || part[|part| - 1] != '\n')
    ensures RStripNewlines(part + tail) == part
    decreases |tail|
  {
    if tail == "" {
      assert part + tail == part;
    } else {
      assert (part + tail)[..|part + tail| - 1] == part + tail[..|tail| - 1];
      StripsBehind(part, tail[..|tail| - 1]);
    }
  }

  lemma {:induction false} StripsAhead(nl: string, rest: string)
    requires Newlines(nl) && (rest == "" || rest[0] != '\n')
    ensures LStripNewlines(nl + rest) == rest
    decreases |nl|
  {
    if nl == "" {
      assert nl + rest == rest;
    } else {
      assert (nl + rest)[1..] == nl[1..] + rest;
      StripsAhead(nl[1..], rest);
    }
  }

  /** What is printed for a body: four parts one below the other, the newlines at the end of the body left out. */
  lemma PrintedAs(name: string, version: string, part: string, tail: string)
    requires Newlines(tail) && (part == "" || part[|part| - 1] != '\n')
    ensures FormatBlock(name, version, part + tail)
         == Marker(name, "begin") + "\n<!-- sage-memory version: " + version + " -->\n" + part + "\n"
            + Marker(name, "end")
  {
    StripsBehind(part, tail);
    MarkersRead(name);
    FourLines(Begin(name), version, part, End(name));
  }

  lemma FourLines(begin: string, version: string, part: string, end: string)
    ensures begin + "\n" + VersionLine(version) + "\n" + part + "\n" + end
         == begin + "\n<!-- sage-memory version: " + version + " -->\n" + part + "\n" + end
  {
    assert "\n<!-- sage-memory version: " == "\n" + VERSION_PREFIX;
    assert " -->\n" == " -->" + "\n";
  }

  /** The marker stands at k: at the place the search begins at, or behind it at the start of a line. */
  ghost predicate Stands(text: string, marker: string, from: nat, k: nat) {
    && from <= k && k + |marker| <= |text| && text[k..k + |marker|] == marker
    && (k == from || text[k - 1] == '\n')
  }

  /** No marker stands anywhere from there on. */
  ghost predicate Nowhere(text: string, marker: string, from: nat) {
    forall k {:trigger Stands(text, marker, from, k)} :: from <= k ==> !Stands(text, marker, from, k)
  }

  ghost predicate StandsFirst(text: string, marker: string, from: nat, k: nat) {
    && Stands(text, marker, from, k)
    && forall j {:trigger Stands(text, marker, from, j)} :: from <= j < k ==> !Stands(text, marker, from, j)
  }

  lemma AtIsSlice(text: string, marker: string, k: nat)
    ensures IsAt(text, marker, k) <==> k + |marker| <= |text| && text[k..k + |marker|] == marker
  {
    if k + |marker| <= |text| && text[k..k + |marker|] == marker {
      forall j | 0 <= j < |marker| ensures text[k + j] == marker[j] {
        assert text[k..k + |marker|][j] == marker[j];
      }
    }
  }

  lemma StandsIsAnchor(text: string, marker: string, from: nat, k: nat)
    ensures Stands(text, marker, from, k) <==> Anchor(text, marker, from, k)
  {
    AtIsSlice(text, marker, k);
  }

  lemma SearchFinds(text: string, marker: string, from: nat)
    ensures var r := FindAnchored(text, marker, from);
      if r < 0 then Nowhere(text, marker, from) else StandsFirst(text, marker, from, r)
  {
    FindAnchoredFirst(text, marker, from);
    forall k: nat ensures Stands(text, marker, from, k) <==> Anchor(text, marker, from, k) {
      StandsIsAnchor(text, marker, from, k);
    }
  }

  lemma FirstIsUnique(text: string, marker: string, from: nat, k: nat, j: nat)
    requires StandsFirst(text, marker, from, k) && StandsFirst(text, marker, from, j)
    ensures k == j
  {
    if k < j {
      NotFirst(text, marker, from, k, j);
    } else if j < k {
      NotFirst(text, marker, from, j, k);
    }
  }

  lemma NotFirst(text: string, marker: string, from: nat, k: nat, j: nat)
    requires Stands(text, marker, from, k) && k < j
    ensures !StandsFirst(text, marker, from, j)
  {
  }

  /**
    A span is the block of a name exactly if it begins with the first begin marker and ends with the first end marker
    behind that, both at the start of a line.
   */
  ghost predicate IsBlock(text: string, name: string, b: nat, e: nat) {
    && StandsFirst(text, Marker(name, "begin"), 0, b)
    && StandsFirst(text, Marker(name, "end"), b + |Marker(name, "begin")|, e)
  }

  /** The two searches one after the other. */
  function Searched(text: string, begin: string, end: string): Option<Span> {
    var b := FindAnchored(text, begin, 0);
    if b < 0 then None
    else
      var e := FindAnchored(text, end, b + |begin|);
      if e < 0 then None else Some(Span(b, e + |end|))
  }

  lemma SearchedIsBlock(text: string, name: string, begin: string, end: string)
    requires begin == Marker(name, "begin") && end == Marker(name, "end")
    ensures Searched(text, begin, end) == FindBlock(text, name)
  {
    MarkersRead(name);
  }

  lemma BlockIsIff(text: string, name: string, b: nat, e: nat, n: nat)
    requires n == e + |Marker(name, "end")|
    ensures FindBlock(text, name) == Some(Span(b, n)) <==> IsBlock(text, name, b, e)
  {
    SearchedIsBlock(text, name, Marker(name, "begin"), Marker(name, "end"));
    SearchedIff(text, Marker(name, "begin"), Marker(name, "end"), b, e, n);
  }

  lemma SearchedIff(text: string, begin: string, end: string, b: nat, e: nat, n: nat)
    requires n == e + |end|
    ensures Searched(text, begin, end) == Some(Span(b, n))
       <==> StandsFirst(text, begin, 0, b) && StandsFirst(text, end, b + |begin|, e)
  {
    SearchFinds(text, begin, 0);
    var a := FindAnchored(text, begin, 0);
    if a >= 0 {
      if StandsFirst(text, begin, 0, b) {
        FirstIsUnique(text, begin, 0, b, a);
        SecondIff(text, end, a + |begin|, e);
      }
    }
  }

  lemma SecondIff(text: string, end: string, from: nat, e: nat)
    ensures FindAnchored(text, end, from) == e <==> StandsFirst(text, end, from, e)
  {
    SearchFinds(text, end, from);
    var c := FindAnchored(text, end, from);
    if c >= 0 && StandsFirst(text, end, from, e) {
      FirstIsUnique(text, end, from, e, c);
    }
  }

  /** There is no block exactly if there is no begin marker, or no end marker behind the first. */
  lemma NoBlockIff(text: string, name: string)
    ensures FindBlock(text, name).None? <==> Missing(text, Marker(name, "begin"), Marker(name, "end"))
  {
    SearchedIsBlock(text, name, Marker(name, "begin"), Marker(name, "end"));
    SearchedMissing(text, Marker(name, "begin"), Marker(name, "end"));
  }

  ghost predicate Missing(text: string, begin: string, end: string) {
    || Nowhere(text, begin, 0)
    || exists b: nat :: StandsFirst(text, begin, 0, b) && Nowhere(text, end, b + |begin|)
  }

  lemma SearchedMissing(text: string, begin: string, end: string)
    ensures Searched(text, begin, end).None? <==> Missing(text, begin, end)
  {
    SearchFinds(text, begin, 0);
    var a := FindAnchored(text, begin, 0);
    if a >= 0 {
      SearchFinds(text, end, a + |begin|);
      forall b: nat | StandsFirst(text, begin, 0, b) ensures b == a {
        FirstIsUnique(text, begin, 0, b, a);
      }
    }
  }

  /** Without a block the new one is all of an empty text, and else follows it behind one blank line. */
  lemma AppendedAs(name: string, block: string, part: string, tail: string)
    requires FindBlock(part + tail, name).None?
    requires Newlines(tail) && (part == "" || part[|part| - 1] != '\n')
    ensures ReplaceOrAppend(part + tail, name, block)
         == if part + tail == "" then block else part + "\n\n" + block
  {
    StripsBehind(part, tail);
  }

  /** Deleting takes the block out, with the newlines right behind it but two of them at most. */
  lemma DeletedAs(text: string, name: string, b: nat, n: nat, j: nat)
    requires FindBlock(text, name) == Some(Span(b, n)) && n <= j <= |text| && j <= n + 2
    requires Newlines(text[n..j]) && (j < n + 2 ==> j == |text| || text[j] != '\n')
    ensures b <= n && DeleteBlock(text, name) == text[..b] + text[j..]
  {
    SpanWithin(text, name, b, n);
    SkipsTo(text, n, j);
  }

  lemma SpanWithin(text: string, name: string, b: nat, n: nat)
    requires FindBlock(text, name) == Some(Span(b, n))
    ensures b <= n <= |text|
  {
    SpanInText(text, name);
  }

  lemma SkipsTo(text: string, n: nat, j: nat)
    requires n <= j <= |text| && j <= n + 2
    requires Newlines(text[n..j]) && (j < n + 2 ==> j == |text| || text[j] != '\n')
    ensures var e := if n < |text| && text[n] == '\n' then n + 1 else n;
      j == if e < |text| && text[e] == '\n' then e + 1 else e
  {
    assert j > n ==> text[n..j][0] == text[n];
    assert j > n + 1 ==> text[n..j][1] == text[n + 1];
  }

  lemma DeletesNothing(text: string, name: string)
    ensures FindBlock(text, name).None? ==> DeleteBlock(text, name) == text
  {
  }

  /** A version line: some characters other than `>` in its place. */
  ghost predicate StartsWithVersion(t: string, version: string, rest: string) {
    && version != "" && '>' !in version
    && t == "<!-- sage-memory version: " + version + " -->\n" + rest
  }

  /** What is left of a text is what follows its version line, or all of it if it starts with none. */
  lemma VersionDropped(t: string, version: string, rest: string)
    requires StartsWithVersion(t, version, rest)
    ensures StripVersion(t) == rest
  {
    DropsLine(t, VERSION_PREFIX, version, rest);
  }

  lemma DropsLine(t: string, prefix: string, version: string, rest: string)
    requires prefix == VERSION_PREFIX && version != "" && '>' !in version
    requires t == prefix + version + " -->\n" + rest
    ensures StripVersion(t) == rest
  {
    var p := |prefix|;
    var g := p + |version| + 3;
    assert IsAt(t, prefix, 0);
    forall k | p <= k < p + |version| ensures !IsAt(t, ">", k) {
      assert t[k + 0] == version[k - p];
      assert t[k + 0] != ">"[0];
    }
    assert t[g - 3 + 0] == ' ' && t[g - 3 + 1] == '-' && t[g - 3 + 2] == '-' && t[g - 3 + 3] == '>';
    assert IsAt(t, " -->\n", g - 3) && IsAt(t, ">", g);
    assert !IsAt(t, ">", g - 3) && !IsAt(t, ">", g - 2) && !IsAt(t, ">", g - 1) by {
      assert t[g - 3 + 0] != ">"[0] && t[g - 2 + 0] != ">"[0] && t[g - 1 + 0] != ">"[0];
    }
    assert Find(t, ">", p) == g;
    assert t[g + 2..] == rest;
  }

  lemma OtherTextKept(t: string)
    requires forall version, rest :: !StartsWithVersion(t, version, rest)
    ensures StripVersion(t) == t
  {
    var p := |VERSION_PREFIX|;
    var g := Find(t, ">", p);
    if IsAt(t, VERSION_PREFIX, 0) && g > p + 3 && IsAt(t, " -->\n", g - 3) {
      var version, rest := t[p..g - 3], t[g + 2..];
      assert t[..p] == VERSION_PREFIX;
      AtIsSlice(t, " -->\n", g - 3);
      assert t == t[..p] + t[p..g - 3] + t[g - 3..g + 2] + t[g + 2..];
      forall k | 0 <= k < |version| ensures version[k] != '>' {
        assert !IsAt(t, ">", p + k);
        assert t[p + k + 0] != '>';
      }
      assert StartsWithVersion(t, version, rest);
    }
  }

  /** What is read of a block: all between its markers but the newlines at the start and then the version line. */
  lemma ReadAs(text: string, name: string, b: nat, n: nat, nl: string, inner: string)
    requires FindBlock(CrlfToLf(text), name) == Some(Span(b, n)) && b <= n <= |CrlfToLf(text)|
    requires CrlfToLf(text)[b..n] == Marker(name, "begin") + (nl + (inner + Marker(name, "end")))
    requires Newlines(nl) && (inner == "" || inner[0] != '\n')
    ensures ExtractBody(text, name) == Some(StripVersion(inner))
  {
    MarkersRead(name);
    SpanInText(CrlfToLf(text), name);
    var end := End(name);
    assert inner == "" ==> inner + end == end;
    assert end[0] == '<';
    StripsAhead(nl, inner + end);
    assert CrlfToLf(text)[b..n][|Begin(name)|..] == nl + (inner + end);
    assert IsAt(inner + end, end, |inner|);
    assert (inner + end)[..|inner|] == inner;
  }

  /** Two printed blocks count as equal exactly if their bodies are, the newlines at the end and the versions apart. */
  lemma SameBodyIff(name: string, version: string, version': string, body: string, body': string)
    requires ValidName(name) && ValidVersion(version) && ValidVersion(version')
    requires Clean(PrintedBody(body), End(name)) && Clean(PrintedBody(body'), End(name))
    ensures BodiesEqual(FormatBlock(name, version, body), FormatBlock(name, version', body'), name)
       <==> CrlfToLf(RStripNewlines(body) + "\n") == CrlfToLf(RStripNewlines(body') + "\n")
  {
    RoundTripIff(name, version, body);
    RoundTripIff(name, version', body');
  }

  /** A text without the block never counts as equal to anything. */
  lemma MissingDiffers(a: string, b: string, name: string)
    requires FindBlock(CrlfToLf(a), name).None?
    ensures !BodiesEqual(a, b, name) && !BodiesEqual(b, a, name)
  {
  }

  /** A pair that meets where two texts are joined becomes one line feed. */
  lemma PairConverts(a: string, b: string)
    ensures CrlfToLf(a + "\r\n" + b) == CrlfToLf(a) + "\n" + CrlfToLf(b)
  {
    assert a + "\r\n" + b == a + ("\r\n" + b);
    CrlfToLfConcat(a, "\r\n" + b);
    assert ("\r\n" + b)[2..] == b;
  }
}
