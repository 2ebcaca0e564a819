/**
  Marker blocks: the printer, the parser, and in-place replacement in a text that
  holds other content and other blocks.
 */
module Markers {
  import opened Wrappers
  import opened Text

  const PREFIX := "<!-- sage-memory:skill:"
  const VERSION_PREFIX := "<!-- sage-memory version: "

  function Begin(name: string): string { PREFIX + name + ":begin -->" }

  function End(name: string): string { PREFIX + name + ":end -->" }

  function VersionLine(version: string): string { VERSION_PREFIX + version + " -->" }

  /** begin, version line, body, end, one below the other. */
  function Block(name: string, version: string, body: string): string {
    Begin(name) + "\n" + VersionLine(version) + "\n" + body + "\n" + End(name)
  }

  function FormatBlock(name: string, version: string, body: string): string {
    Block(name, version, RStripNewlines(body))
  }

  /** needle at `start` itself, or at the start of a later line. */
  function FindAnchored(text: string, needle: string, start: nat): int {
    if IsAt(text, needle, start) then start
    else
      var i := Find(text, "\n" + needle, start);
      if i >= 0 then i + 1 else -1
  }

  datatype Span = Span(start: nat, end: nat)

  /** The span of the block, or None if a marker is missing. */
  function FindBlock(text: string, name: string): (r: Option<Span>) {
    var b := FindAnchored(text, Begin(name), 0);
    if b < 0 then None
    else
      var e := FindAnchored(text, End(name), b + |Begin(name)|);
      if e < 0 then None else Some(Span(b, e + |End(name)|))
  }

  function ReplaceOrAppend(text: string, name: string, block: string): string {
    match FindBlock(text, name)
    case None => if text == "" then block else RStripNewlines(text) + "\n\n" + block
    case Some(span) => SpanInText(text, name); text[..span.start] + block + text[span.end..]
  }

  function DeleteBlock(text: string, name: string): string {
    match FindBlock(text, name)
    case None => text
    case Some(span) =>
      SpanInText(text, name);
      var e := span.end;
      var e := if e < |text| && text[e] == '\n' then e + 1 else e;
      var e := if e < |text| && text[e] == '\n' then e + 1 else e;
      text[..span.start] + text[e..]
  }

  // ----- where needles can be anchored

  /** k is where an anchored search from `start` may stop. */
  ghost predicate Anchor(text: string, needle: string, start: nat, k: int) {
    IsAt(text, needle, k) && (k == start || (start < k && text[k - 1] == '\n'))
  }

  lemma NewlineNeedle(text: string, needle: string, i: int)
    ensures IsAt(text, "\n" + needle, i) <==> 0 <= i < |text| && text[i] == '\n' && IsAt(text, needle, i + 1)
  {
    var n := "\n" + needle;
    if IsAt(text, n, i) {
      assert text[i + 0] == n[0];
      forall k | 0 <= k < |needle| ensures text[i + 1 + k] == needle[k] {
        assert text[i + (k + 1)] == n[k + 1];
      }
    }
  }

  /** An anchored search stops at the first anchor. */
  lemma FindAnchoredFirst(text: string, needle: string, start: nat)
    ensures var r := FindAnchored(text, needle, start);
      && (r >= 0 ==> Anchor(text, needle, start, r) && forall k :: k < r ==> !Anchor(text, needle, start, k))
      && (r < 0 ==> r == -1 && forall k :: !Anchor(text, needle, start, k))
  {
    var i := Find(text, "\n" + needle, start);
    NewlineNeedle(text, needle, i);
    forall k | Anchor(text, needle, start, k) && k != start
      ensures IsAt(text, "\n" + needle, k - 1)
    {
      NewlineNeedle(text, needle, k - 1);
    }
  }

  /** The first anchor is where the search stops. */
  lemma FirstAnchorFound(text: string, needle: string, start: nat, r: int)
    requires Anchor(text, needle, start, r) && forall k :: k < r ==> !Anchor(text, needle, start, k)
    ensures FindAnchored(text, needle, start) == r
  {
    FindAnchoredFirst(text, needle, start);
  }

  lemma SpanInText(text: string, name: string)
    ensures FindBlock(text, name).Some? ==>
      var span := FindBlock(text, name).value;
      span.start + |Begin(name)| + |End(name)| <= span.end <= |text|
  {
    FindAnchoredFirst(text, Begin(name), 0);
    if FindAnchored(text, Begin(name), 0) >= 0 {
      FindAnchoredFirst(text, End(name), FindAnchored(text, Begin(name), 0) + |Begin(name)|);
    }
  }

  // ----- the markers

  /** A name that can stand in a marker: one line, no colon. */
  ghost predicate ValidName(name: string) {
    '\n' !in name && ':' !in name
  }

  /** A version that can stand in a version line. */
  ghost predicate ValidVersion(version: string) {
    version != "" && '\n' !in version && '>' !in version
  }

  lemma MarkerShape(name: string, marker: string)
    requires ValidName(name) && (marker == Begin(name) || marker == End(name))
    ensures |marker| > |PREFIX| + |name| + 1
    ensures marker[0] == '<' && marker[|PREFIX| - 7] == ':' && marker[|marker| - 1] == '>' && '\n' !in marker
    ensures forall k :: 0 <= k < |PREFIX| ==> marker[k] == PREFIX[k]
    ensures forall k :: 0 <= k < |name| ==> marker[|PREFIX| + k] == name[k]
    ensures marker[|PREFIX| + |name|] == ':'
    ensures marker[|PREFIX| + |name| + 1] == if marker == Begin(name) then 'b' else 'e'
  {
    assert |PREFIX| == 23 && PREFIX[16] == ':' && PREFIX[0] == '<' && '\n' !in PREFIX;
    assert Begin(name)[|PREFIX| + |name| + 1] == 'b' && End(name)[|PREFIX| + |name| + 1] == 'e';
  }

  /** In the text at p, the name of a marker ends at the first colon behind the prefix. */
  lemma NameInText(text: string, p: int, name: string, marker: string)
    requires ValidName(name) && (marker == Begin(name) || marker == End(name)) && IsAt(text, marker, p)
    ensures var q := p + |PREFIX|;
      && q + |name| + 1 < |text| && text[q..q + |name|] == name && text[q + |name|] == ':'
      && text[q + |name| + 1] == if marker == Begin(name) then 'b' else 'e'
  {
    MarkerShape(name, marker);
    assert text[p..p + |marker|] == marker;
    assert marker[|PREFIX|..|PREFIX| + |name|] == name;
    assert text[p + (|PREFIX| + |name|)] == marker[|PREFIX| + |name|];
    assert text[p + (|PREFIX| + |name| + 1)] == marker[|PREFIX| + |name| + 1];
  }

  lemma NoColon(text: string, q: nat, name: string)
    requires ValidName(name) && q + |name| <= |text| && text[q..q + |name|] == name
    ensures forall j :: q <= j < q + |name| ==> text[j] != ':'
  {
    forall j | q <= j < q + |name| ensures text[j] != ':' {
      assert text[j] == name[j - q];
    }
  }

  lemma FirstColonUnique(text: string, q: nat, n: nat, n': nat)
    requires q + n < |text| && q + n' < |text| && text[q + n] == ':' && text[q + n'] == ':'
    requires forall j :: q <= j < q + n ==> text[j] != ':'
    requires forall j :: q <= j < q + n' ==> text[j] != ':'
    ensures n == n'
  {
  }

  /** Two markers cannot start at the same place. */
  lemma MarkersDiffer(text: string, p: int, name: string, marker: string, name': string, marker': string)
    requires ValidName(name) && (marker == Begin(name) || marker == End(name))
    requires ValidName(name') && (marker' == Begin(name') || marker' == End(name'))
    requires IsAt(text, marker, p) && IsAt(text, marker', p)
    ensures marker == marker' && name == name'
  {
    NameInText(text, p, name, marker);
    NameInText(text, p, name', marker');
    NoColon(text, p + |PREFIX|, name);
    NoColon(text, p + |PREFIX|, name');
    FirstColonUnique(text, p + |PREFIX|, |name|, |name'|);
  }

  /** An occurrence of a one-line needle contains no newline. */
  lemma OneLine(text: string, needle: string, p: int)
    requires IsAt(text, needle, p) && '\n' !in needle
    ensures forall q :: p <= q < p + |needle| ==> text[q] != '\n'
  {
    forall q | p <= q < p + |needle| ensures text[q] != '\n' {
      assert text[p + (q - p)] == needle[q - p];
    }
  }

  // ----- a block in its surroundings

  /** A marker at the start of a line of the body. */
  ghost predicate BodyAnchor(body: string, marker: string, k: int) {
    IsAt(body, marker, k) && (k == 0 || body[k - 1] == '\n')
  }

  ghost predicate Clean(body: string, marker: string) {
    forall k :: !BodyAnchor(body, marker, k)
  }

  /** Where the body starts in a block. */
  function BodyAt(name: string, version: string): nat { |Begin(name)| + 1 + |VersionLine(version)| + 1 }

  lemma Embed(A: string, B: string, S: string, part: string, i: nat)
    requires IsAt(B, part, i)
    ensures IsAt(A + B + S, part, |A| + i)
  {
    forall k | 0 <= k < |part| ensures (A + B + S)[|A| + i + k] == part[k] {
      assert B[i + k] == part[k];
    }
  }

  /** T holds four parts one below the other, the first at a, the others at v, m and e. */
  ghost predicate Stacked(T: string, a: nat, v: nat, m: nat, e: nat, begin: string, line: string, body: string,
                          end: string) {
    && v == a + |begin| + 1 && m == v + |line| + 1 && e == m + |body| + 1 && e + |end| <= |T|
    && IsAt(T, begin, a) && T[v - 1] == '\n'
    && IsAt(T, line, v) && T[m - 1] == '\n'
    && IsAt(T, body, m) && T[e - 1] == '\n'
    && IsAt(T, end, e)
  }

  /** T holds a block at offset a: version line at v, body at m, end marker at e. */
  ghost predicate Layout(T: string, a: nat, v: nat, m: nat, e: nat, name: string, version: string, body: string) {
    Stacked(T, a, v, m, e, Begin(name), VersionLine(version), body, End(name))
  }

  lemma BlockParts(name: string, version: string, body: string, B: string) returns (v: nat, m: nat, e: nat)
    requires B == Block(name, version, body)
    ensures e + |End(name)| == |B| && Layout(B, 0, v, m, e, name, version, body) && m == BodyAt(name, version)
  {
    var head1 := Begin(name) + "\n";
    var head2 := head1 + VersionLine(version) + "\n";
    var head3 := head2 + body + "\n";
    v, m, e := |head1|, |head2|, |head3|;
    assert head3 + End(name) == B;
    assert IsAt(B, End(name), |head3|) && IsAt(head3, body, |head2|) && IsAt(head2, VersionLine(version), |head1|);
    assert head3 <= B && head2 <= head3 && head1 <= head2;
  }

  lemma Parts(A: string, name: string, version: string, body: string, B: string, S: string, T: string)
      returns (v: nat, m: nat, e: nat)
    requires T == A + B + S && B == Block(name, version, body)
    ensures Layout(T, |A|, v, m, e, name, version, body)
    ensures e + |End(name)| == |A| + |B|
  {
    v, m, e := BlockParts(name, version, body, B);
    v, m, e := StackShift(A, B, S, T, v, m, e, Begin(name), VersionLine(version), body, End(name));
  }

  lemma StackShift(A: string, B: string, S: string, T: string, v: nat, m: nat, e: nat,
                   begin: string, line: string, body: string, end: string) returns (v': nat, m': nat, e': nat)
    requires Stacked(B, 0, v, m, e, begin, line, body, end) && T == A + B + S
    ensures Stacked(T, |A|, v', m', e', begin, line, body, end) && e' == |A| + e
  {
    v', m', e' := |A| + v, |A| + m, |A| + e;
    Embed(A, B, S, begin, 0);
    Embed(A, B, S, line, v);
    Embed(A, B, S, body, m);
    Embed(A, B, S, end, e);
  }

  /** Inside a block, a marker at the start of a line is the end marker itself or stands in the body. */
  lemma AnchorsInBlock(T: string, a: nat, v: nat, m: nat, e: nat, name: string, version: string, body: string,
                       other: string, marker: string, k: int)
    requires Layout(T, a, v, m, e, name, version, body) && ValidName(name) && ValidVersion(version)
    requires ValidName(other) && (marker == Begin(other) || marker == End(other))
    requires a < k <= e + |End(name)| && IsAt(T, marker, k) && T[k - 1] == '\n'
    ensures (k == e && marker == End(name)) || (m <= k && BodyAnchor(body, marker, k - m))
  {
    MarkerShape(other, marker);
    MarkerShape(name, Begin(name));
    MarkerShape(name, End(name));
    OneLine(T, Begin(name), a);
    OneLine(T, End(name), e);
    OneLine(T, marker, k);
    VersionLineShape(T, version, v);
    assert T[k + 0] == '<' && T[k + 16] == ':';
    assert k == v || k == m || (m < k < e) || k == e;
    if k == e {
      MarkersDiffer(T, e, name, End(name), other, marker);
    } else {
      InBody(T, body, m, marker, k);
    }
  }

  lemma VersionLineShape(T: string, version: string, v: nat)
    requires ValidVersion(version) && IsAt(T, VersionLine(version), v)
    ensures T[v + 16] == ' ' && forall q :: v <= q < v + |VersionLine(version)| ==> T[q] != '\n'
  {
    var line := VersionLine(version);
    assert VERSION_PREFIX[16] == ' ' && '\n' !in VERSION_PREFIX;
    assert line[16] == ' ' && '\n' !in line;
    OneLine(T, line, v);
    assert T[v + 16] == line[16];
  }

  lemma InBody(T: string, body: string, m: nat, marker: string, k: int)
    requires IsAt(T, body, m) && m <= k && k + |marker| <= m + |body| && IsAt(T, marker, k)
    requires k == m || T[k - 1] == '\n'
    ensures BodyAnchor(body, marker, k - m)
  {
    forall i | 0 <= i < |marker| ensures body[k - m + i] == marker[i] {
      assert T[m + (k - m + i)] == body[k - m + i];
      assert T[k + i] == marker[i];
    }
    assert k > m ==> T[m + (k - m - 1)] == body[k - m - 1];
  }

  // ----- finding a block

  /** The first begin marker in T stands at a. */
  ghost predicate FirstAt(T: string, name: string, a: nat) {
    Anchor(T, Begin(name), 0, a) && forall k :: k < a ==> !Anchor(T, Begin(name), 0, k)
  }

  /** The first begin marker and the first end marker behind it make the span. */
  lemma SpanFound(T: string, name: string, a: nat, from: nat, e: nat, n: nat)
    requires n == e + |End(name)|
    requires FirstAt(T, name, a)
    requires from == a + |Begin(name)| && Anchor(T, End(name), from, e)
        && forall k :: k < e ==> !Anchor(T, End(name), from, k)
    ensures FindBlock(T, name) == Some(Span(a, n))
  {
    FirstAnchorFound(T, Begin(name), 0, a);
    FirstAnchorFound(T, End(name), from, e);
  }

  /**
    A block whose begin marker is the first one, and whose body holds no end marker at the start of a line, is found.
   */
  lemma FindsBlock(T: string, a: nat, v: nat, m: nat, e: nat, name: string, version: string, body: string, n: nat)
    requires n == e + |End(name)|
    requires Layout(T, a, v, m, e, name, version, body) && ValidName(name) && ValidVersion(version)
    requires FirstAt(T, name, a)
    requires Clean(body, End(name))
    ensures FindBlock(T, name) == Some(Span(a, n))
  {
    var from := a + |Begin(name)|;
    forall k | k < e ensures !Anchor(T, End(name), from, k) {
      NoEndBefore(T, a, v, m, e, name, version, body, k);
    }
    SpanFound(T, name, a, from, e, n);
  }

  /** Before the end marker an anchor can only stand in the body. */
  lemma NoEndBefore(T: string, a: nat, v: nat, m: nat, e: nat, name: string, version: string, body: string, k: int)
    requires Layout(T, a, v, m, e, name, version, body) && ValidName(name) && ValidVersion(version) && k < e
    ensures Anchor(T, End(name), a + |Begin(name)|, k) ==> m <= k && BodyAnchor(body, End(name), k - m)
  {
    if Anchor(T, End(name), a + |Begin(name)|, k) {
      MarkerShape(name, End(name));
      assert T[k + 0] == '<';
      AnchorsInBlock(T, a, v, m, e, name, version, body, name, End(name), k);
    }
  }

  /** With an end marker at the start of a body line, the block is cut short at the first of them. */
  lemma FindsShortBlock(T: string, a: nat, v: nat, m: nat, e: nat, name: string, version: string, body: string, k: nat,
                        n: nat)
    requires n == m + k + |End(name)|
    requires Layout(T, a, v, m, e, name, version, body) && ValidName(name) && ValidVersion(version)
    requires FirstAt(T, name, a)
    requires BodyAnchor(body, End(name), k) && forall j :: j < k ==> !BodyAnchor(body, End(name), j)
    ensures FindBlock(T, name) == Some(Span(a, n))
  {
    var from := a + |Begin(name)|;
    FromBody(T, body, m, End(name), k);
    forall j | j < m + k ensures !Anchor(T, End(name), from, j) {
      NoEndBefore(T, a, v, m, e, name, version, body, j);
    }
    SpanFound(T, name, a, from, m + k, n);
  }

  lemma FromBody(T: string, body: string, m: nat, marker: string, k: nat)
    requires IsAt(T, body, m) && m > 0 && T[m - 1] == '\n' && BodyAnchor(body, marker, k)
    ensures IsAt(T, marker, m + k) && T[m + k - 1] == '\n'
  {
    forall j | 0 <= j < |marker| ensures T[m + k + j] == marker[j] {
      assert T[m + (k + j)] == body[k + j];
      assert body[k + j] == marker[j];
    }
    assert k > 0 ==> T[m + (k - 1)] == body[k - 1];
  }

  // ----- reading a block back

  /** Drops the version line at the start of t, if there is one. */
  function StripVersion(t: string): (r: string) {
    var g := Find(t, ">", |VERSION_PREFIX|);
    if IsAt(t, VERSION_PREFIX, 0) && g > |VERSION_PREFIX| + 3 && IsAt(t, " -->\n", g - 3) then t[g + 2..] else t
  }

  /** Takes the rest of a block apart: end marker off, version line off. */
  function BodyOf(rest: string, end: string): string {
    var after := LStripNewlines(rest);
    StripVersion(if IsAt(after, end, |after| - |end|) then after[..|after| - |end|] else after)
  }

  /** The body of the block in a text whose line ends are LF already. */
  function BodyIn(text: string, name: string): Option<string> {
    match FindBlock(text, name)
    case None => None
    case Some(span) =>
      SpanInText(text, name);
      Some(BodyOf(text[span.start..span.end][|Begin(name)|..], End(name)))
  }

  function ExtractBody(text: string, name: string): Option<string> {
    BodyIn(CrlfToLf(text), name)
  }

  function Head(name: string, version: string): string {
    Begin(name) + "\n" + VersionLine(version) + "\n"
  }

  lemma StripsVersionLine(version: string, rest: string)
    requires ValidVersion(version)
    ensures StripVersion(VersionLine(version) + "\n" + rest) == rest
  {
    var t := VersionLine(version) + "\n" + rest;
    var g := |VERSION_PREFIX| + |version| + 3;
    assert IsAt(t, VERSION_PREFIX, 0) && IsAt(t, " -->\n", g - 3);
    assert t[g] == '>';
    forall k | |VERSION_PREFIX| <= k < g ensures !IsAt(t, ">", k) {
      if k < |VERSION_PREFIX| + |version| {
        assert t[k] == version[k - |VERSION_PREFIX|];
      }
      assert t[k + 0] != '>';
      assert ">"[0] == '>';
    }
    assert IsAt(t, ">", g);
    assert Find(t, ">", |VERSION_PREFIX|) == g;
    assert t[g + 2..] == rest;
  }

  /** T consists of a block's head, the text X, an end marker, and S. */
  ghost predicate Split(T: string, name: string, version: string, X: string, S: string) {
    T == Head(name, version) + X + End(name) + S
  }

  /** What stands between the version line and an end marker is the body. */
  lemma ReadsBetween(T: string, name: string, version: string, X: string, S: string)
    requires ValidVersion(version) && Split(T, name, version, X, S)
    ensures var n := BodyAt(name, version) + |X| + |End(name)|;
      |Begin(name)| <= n <= |T| && BodyOf(T[0..n][|Begin(name)|..], End(name)) == X
  {
    SliceBlock(T, Begin(name), VersionLine(version), X, End(name), S);
    TakesApart(version, X, End(name));
  }

  lemma ReadsSpan(T: string, name: string, version: string, X: string, S: string, n: nat)
    requires ValidVersion(version)
    requires Split(T, name, version, X, S)
    requires FindBlock(T, name) == Some(Span(0, n))
    requires n == BodyAt(name, version) + |X| + |End(name)|
    ensures BodyIn(T, name) == Some(X)
  {
    ReadsBetween(T, name, version, X, S);
  }

  lemma SliceBlock(T: string, begin: string, line: string, X: string, end: string, S: string)
    requires T == begin + "\n" + line + "\n" + X + end + S
    ensures T[0..|begin + "\n" + line + "\n"| + |X| + |end|][|begin|..] == "\n" + ((line + "\n" + X) + end)
  {
    var rest := "\n" + ((line + "\n" + X) + end);
    assert T == begin + rest + S;
    assert T[0..|begin| + |rest|] == begin + rest;
  }

  lemma TakesApart(version: string, X: string, end: string)
    requires ValidVersion(version)
    ensures BodyOf("\n" + ((VersionLine(version) + "\n" + X) + end), end) == X
  {
    TakesEndOff(VersionLine(version) + "\n" + X, end);
    StripsVersionLine(version, X);
  }

  lemma TakesEndOff(line: string, end: string)
    requires line != "" && line[0] != '\n'
    ensures BodyOf("\n" + (line + end), end) == StripVersion(line)
  {
    StripsOneNewline(line + end);
    assert IsAt(line + end, end, |line|);
    assert (line + end)[..|line|] == line;
  }

  lemma StripsOneNewline(t: string)
    requires t != "" && t[0] != '\n'
    ensures LStripNewlines("\n" + t) == t
  {
    assert ("\n" + t)[1..] == t;
    assert LStripNewlines(t) == t;
  }

  // ----- printing and reading are inverse

  /** The body as it stands in a printed block once its line ends are LF. */
  function PrintedBody(body: string): (r: string)
    ensures r + "\n" == CrlfToLf(RStripNewlines(body) + "\n")
  {
    var t := CrlfToLf(RStripNewlines(body) + "\n");
    CrlfToLfEndsInLf(RStripNewlines(body) + "\n");
    t[..|t| - 1]
  }

  lemma MarkersStay(name: string, version: string)
    requires ValidName(name) && ValidVersion(version)
    ensures CrlfToLf(Head(name, version)) == Head(name, version) && CrlfToLf(End(name)) == End(name)
  {
    var begin, line := Begin(name), VersionLine(version);
    MarkerShape(name, begin);
    MarkerShape(name, End(name));
    VersionLineEnds(version);
    HeadStays(begin, line);
    CrlfToLfSame(End(name));
  }

  lemma VersionLineEnds(version: string)
    requires ValidVersion(version)
    ensures var line := VersionLine(version); line != "" && line[|line| - 1] == '>' && '\n' !in line
  {
    assert '\n' !in VERSION_PREFIX;
  }

  lemma HeadStays(begin: string, line: string)
    requires '\n' !in begin && '\n' !in line && begin != "" && line != ""
    requires begin[|begin| - 1] == '>' && line[|line| - 1] == '>'
    ensures CrlfToLf(begin + "\n" + line + "\n") == begin + "\n" + line + "\n"
  {
    var head := begin + "\n" + line + "\n";
    forall i | 0 <= i < |head| - 1 ensures !(head[i] == '\r' && head[i + 1] == '\n') {
      assert head[i + 1] == '\n' ==> i + 1 == |begin| || i + 1 == |begin| + 1 + |line|;
    }
    CrlfToLfSame(head);
  }

  lemma PrintedIsBlock(name: string, version: string, body: string)
    requires ValidName(name) && ValidVersion(version)
    ensures CrlfToLf(FormatBlock(name, version, body)) == Block(name, version, PrintedBody(body))
  {
    var head, mid, end := Head(name, version), RStripNewlines(body) + "\n", End(name);
    BlockAsHead(name, version, RStripNewlines(body));
    BlockAsHead(name, version, PrintedBody(body));
    MarkersStay(name, version);
    CrlfToLfConcat(head, mid);
    CrlfToLfConcat(head + mid, end);
  }

  lemma Rejoin(begin: string, line: string, body: string, end: string)
    ensures begin + "\n" + line + "\n" + body + "\n" + end == (begin + "\n" + line + "\n") + (body + "\n") + end
  {
  }

  lemma BlockAsHead(name: string, version: string, body: string)
    ensures Block(name, version, body) == Head(name, version) + (body + "\n") + End(name)
    ensures |Head(name, version)| == BodyAt(name, version)
  {
    Rejoin(Begin(name), VersionLine(version), body, End(name));
  }

  lemma ReadsClean(T: string, v: nat, m: nat, e: nat, name: string, version: string, body: string, X: string, n: nat)
    requires n == e + |End(name)|
    requires ValidName(name) && ValidVersion(version) && Clean(body, End(name))
    requires Layout(T, 0, v, m, e, name, version, body) && m == BodyAt(name, version)
    requires Split(T, name, version, X, "") && |X| == |body| + 1
    ensures BodyIn(T, name) == Some(X)
  {
    FindsBlock(T, 0, v, m, e, name, version, body, n);
    ReadsSpan(T, name, version, X, "", n);
  }

  lemma ReadsDirty(T: string, v: nat, m: nat, e: nat, name: string, version: string, body: string,
                   k: nat, X: string, S: string, n: nat)
    requires n == m + k + |End(name)|
    requires ValidName(name) && ValidVersion(version)
    requires BodyAnchor(body, End(name), k) && forall j :: j < k ==> !BodyAnchor(body, End(name), j)
    requires Layout(T, 0, v, m, e, name, version, body) && m == BodyAt(name, version)
    requires Split(T, name, version, X, S) && |X| == k
    ensures BodyIn(T, name) == Some(X)
  {
    FindsShortBlock(T, 0, v, m, e, name, version, body, k, n);
    ReadsSpan(T, name, version, X, S, n);
  }

  lemma NothingBehind(T: string)
    ensures T == T + ""
  {
  }

  lemma SplitBody(head: string, body: string, k: nat, end: string)
    requires IsAt(body, end, k)
    ensures head + (body + "\n") + end == head + body[..k] + end + (body[k + |end|..] + "\n" + end)
  {
    assert body[k..k + |end|] == end;
    assert body == body[..k] + end + body[k + |end|..];
  }

  lemma FirstBodyAnchor(body: string, marker: string, k: int) returns (first: nat)
    requires BodyAnchor(body, marker, k)
    ensures BodyAnchor(body, marker, first) && forall j :: j < first ==> !BodyAnchor(body, marker, j)
    decreases k
  {
    if j :| 0 <= j < k && BodyAnchor(body, marker, j) {
      first := FirstBodyAnchor(body, marker, j);
    } else {
      first := k;
    }
  }

  lemma ReadsDirtyBlock(name: string, version: string, body: string, k: nat)
    requires ValidName(name) && ValidVersion(version)
    requires BodyAnchor(body, End(name), k) && forall j :: j < k ==> !BodyAnchor(body, End(name), j)
    ensures BodyIn(Block(name, version, body), name) == Some(body[..k])
  {
    var v, m, e := BlockParts(name, version, body, Block(name, version, body));
    var rest := CutAt(name, version, body, k);
    ReadsDirty(Block(name, version, body), v, m, e, name, version, body, k, body[..k], rest, m + k + |End(name)|);
  }

  lemma CutAt(name: string, version: string, body: string, k: nat) returns (rest: string)
    requires IsAt(body, End(name), k)
    ensures Split(Block(name, version, body), name, version, body[..k], rest)
  {
    BlockAsHead(name, version, body);
    SplitBody(Head(name, version), body, k, End(name));
    rest := body[k + |End(name)|..] + "\n" + End(name);
  }

  /**
    Reading back a printed block gives the body with trailing newlines normalised and LF line ends,
    whatever the version, if and only if no line of the body starts with the block's own end marker.
   */
  lemma RoundTripIff(name: string, version: string, body: string)
    requires ValidName(name) && ValidVersion(version)
    ensures ExtractBody(FormatBlock(name, version, body), name) == Some(CrlfToLf(RStripNewlines(body) + "\n"))
       <==> Clean(PrintedBody(body), End(name))
  {
    var printed := PrintedBody(body);
    var T := Block(name, version, printed);
    PrintedIsBlock(name, version, body);
    var v, m, e := BlockParts(name, version, printed, T);
    BlockAsHead(name, version, printed);
    if Clean(printed, End(name)) {
      NothingBehind(T);
      ReadsClean(T, v, m, e, name, version, printed, printed + "\n", |T|);
    } else {
      var k0 :| BodyAnchor(printed, End(name), k0);
      var k := FirstBodyAnchor(printed, End(name), k0);
      ReadsDirtyBlock(name, version, printed, k);
      assert |printed[..k]| < |printed + "\n"|;
    }
  }

  function BodiesEqual(a: string, b: string, name: string): bool {
    ExtractBody(a, name).Some? && ExtractBody(a, name) == ExtractBody(b, name)
  }

  /** A version bump alone never shows as a difference, even where the body is cut short. */
  lemma VersionBumpUnchanged(name: string, version: string, version': string, body: string)
    requires ValidName(name) && ValidVersion(version) && ValidVersion(version')
    ensures BodiesEqual(FormatBlock(name, version, body), FormatBlock(name, version', body), name)
  {
    var printed := PrintedBody(body);
    if Clean(printed, End(name)) {
      RoundTripIff(name, version, body);
      RoundTripIff(name, version', body);
    } else {
      var k0 :| BodyAnchor(printed, End(name), k0);
      var k := FirstBodyAnchor(printed, End(name), k0);
      PrintedIsBlock(name, version, body);
      PrintedIsBlock(name, version', body);
      ReadsDirtyBlock(name, version, printed, k);
      ReadsDirtyBlock(name, version', printed, k);
    }
  }

  // ----- replacing a block

  /** t and T start with the same p characters. */
  ghost predicate Agree(t: string, T: string, p: nat) {
    p <= |t| && p <= |T| && forall j :: 0 <= j < p ==> t[j] == T[j]
  }

  lemma AgreeAnchor(t: string, T: string, p: nat, needle: string, start: nat, k: int)
    requires Agree(t, T, p) && k + |needle| <= p && needle != ""
    ensures Anchor(t, needle, start, k) == Anchor(T, needle, start, k)
  {
    if k >= 0 {
      assert IsAt(t, needle, k) == IsAt(T, needle, k);
      assert k > 0 ==> t[k - 1] == T[k - 1];
    }
  }

  lemma FirstAnchorKept(t: string, T: string, needle: string, start: nat, r: int)
    requires FindAnchored(t, needle, start) == r >= 0 && needle != ""
    requires r + |needle| <= |t| ==> Agree(t, T, r + |needle|)
    ensures r + |needle| <= |t| && Anchor(T, needle, start, r) && forall k :: k < r ==> !Anchor(T, needle, start, k)
  {
    FindAnchoredFirst(t, needle, start);
    forall k | k <= r ensures Anchor(t, needle, start, k) == Anchor(T, needle, start, k) {
      AgreeAnchor(t, T, r + |needle|, needle, start, k);
    }
  }

  /** A block depends only on the text up to its end. */
  lemma PrefixKeepsBlock(t: string, T: string, p: nat, name: string)
    requires FindBlock(t, name).Some? && FindBlock(t, name).value.end <= p && Agree(t, T, p)
    ensures FindBlock(T, name) == FindBlock(t, name)
  {
    var b := FindAnchored(t, Begin(name), 0);
    var from := b + |Begin(name)|;
    var e := FindAnchored(t, End(name), from);
    FindAnchoredFirst(t, End(name), from);
    FirstAnchorKept(t, T, Begin(name), 0, b);
    FirstAnchorKept(t, T, End(name), from, e);
    SpanFound(T, name, b, from, e, FindBlock(t, name).value.end);
  }

  /** A begin marker without a block: the end marker is missing. */
  predicate Orphan(text: string, name: string) {
    FindBlock(text, name).None? && FindAnchored(text, Begin(name), 0) >= 0
  }

  lemma PrintedFound(A: string, S: string, name: string, version: string, body: string, B: string, T: string, n: nat)
    requires ValidName(name) && ValidVersion(version) && Clean(body, End(name)) && B == Block(name, version, body)
    requires T == A + B + S && FirstAt(T, name, |A|) && n == |A| + |B|
    ensures FindBlock(T, name) == Some(Span(|A|, n))
  {
    var v, m, e := Parts(A, name, version, body, B, S, T);
    FindsBlock(T, |A|, v, m, e, name, version, body, n);
  }

  lemma Replaces(T: string, name: string, b: nat, n: nat, B: string)
    requires FindBlock(T, name) == Some(Span(b, n)) && b <= n <= |T|
    ensures ReplaceOrAppend(T, name, B) == T[..b] + B + T[n..]
  {
  }

  /**
    A block printed behind A, where A brings no begin marker of its own, is found; printing it again changes nothing.
   */
  lemma Settled(A: string, S: string, name: string, version: string, body: string, B: string, T: string,
                b: nat, n: nat)
    requires ValidName(name) && ValidVersion(version) && Clean(body, End(name)) && b == |A| && n == b + |B|
    requires B == Block(name, version, body) && T == A + B + S && FirstAt(T, name, b)
    ensures FindBlock(T, name) == Some(Span(b, n)) && ReplaceOrAppend(T, name, B) == T
  {
    PrintedFound(A, S, name, version, body, B, T, n);
    SpliceSame(A, B, S);
    Replaces(T, name, b, n, B);
  }

  lemma SpliceSame(A: string, B: string, S: string)
    ensures var T := A + B + S; T[..|A|] == A && T[|A| + |B|..] == S && T[|A|..|A| + |B|] == B
  {
  }

  lemma BlockStarts(name: string, version: string, body: string)
    ensures Begin(name) <= Block(name, version, body)
  {
    BlockAsHead(name, version, body);
  }

  lemma InPlaceFirst(t: string, name: string, b: nat, n: nat, B: string, T: string)
    requires FindBlock(t, name) == Some(Span(b, n)) && b <= n <= |t| && Begin(name) <= B && T == t[..b] + B + t[n..]
    ensures FirstAt(T, name, b)
  {
    FindAnchoredFirst(t, Begin(name), 0);
    var marker := Begin(name);
    forall j | 0 <= j < b + |marker| ensures j < |t| && t[j] == T[j] {
      if j >= b {
        assert t[b + (j - b)] == marker[j - b] == B[j - b];
      }
    }
    FirstAnchorKept(t, T, Begin(name), 0, b);
  }

  /** In front of appended text, anchors are those of the text itself. */
  lemma AppendedAnchor(t: string, A: string, T: string, marker: string, start: nat, k: int)
    requires A == RStripNewlines(t) + "\n\n" && A <= T && '\n' !in marker && marker != ""
    requires k < |A| && Anchor(T, marker, start, k)
    ensures k + |marker| < |A| - 1 && Anchor(t, marker, start, k)
  {
    var r := |A| - 2;
    assert T[r] == A[r] == '\n' && T[r + 1] == A[r + 1] == '\n';
    OneLine(T, marker, k);
    assert k + |marker| <= r;
    assert Agree(t, T, r);
    AgreeAnchor(t, T, r, marker, start, k);
  }

  lemma AppendedFirst(t: string, name: string, A: string, B: string, T: string)
    requires ValidName(name) && FindAnchored(t, Begin(name), 0) < 0 && A == RStripNewlines(t) + "\n\n"
    requires Begin(name) <= B && T == A + B
    ensures FirstAt(T, name, |A|)
  {
    MarkerShape(name, Begin(name));
    FirstBehind(t, Begin(name), A, B, T);
  }

  lemma FirstBehind(t: string, marker: string, A: string, B: string, T: string)
    requires '\n' !in marker && marker != "" && FindAnchored(t, marker, 0) < 0 && A == RStripNewlines(t) + "\n\n"
    requires marker <= B && T == A + B
    ensures Anchor(T, marker, 0, |A|) && forall k :: k < |A| ==> !Anchor(T, marker, 0, k)
  {
    FindAnchoredFirst(t, marker, 0);
    forall k | k < |A| ensures !Anchor(T, marker, 0, k) {
      if Anchor(T, marker, 0, k) {
        AppendedAnchor(t, A, T, marker, 0, k);
      }
    }
    assert T[|A| - 1] == A[|A| - 1] == '\n';
    forall k | 0 <= k < |marker| ensures T[|A| + k] == marker[k] {
      assert B[k] == marker[k];
    }
  }

  /** A marker lies before the newlines at the end of the text. */
  lemma BeforeTrailingNewlines(t: string, marker: string, k: int)
    requires IsAt(t, marker, k) && '\n' !in marker && marker != ""
    ensures k + |marker| <= |RStripNewlines(t)|
  {
    assert t[k + (|marker| - 1)] == marker[|marker| - 1];
  }

  lemma NotBoth(T: string, p: int, name: string)
    requires ValidName(name) && IsAt(T, Begin(name), p)
    ensures !IsAt(T, End(name), p)
  {
    if IsAt(T, End(name), p) {
      NameInText(T, p, name, Begin(name));
      NameInText(T, p, name, End(name));
    }
  }

  /** Behind an orphan begin marker, an appended block brings the first end marker. */
  lemma NoEndBeforeAppended(t: string, name: string, b: nat, from: nat, A: string, T: string, v: nat, m: nat, e: nat,
                            version: string, body: string, k: int)
    requires ValidName(name) && ValidVersion(version) && Clean(body, End(name)) && from <= |A|
    requires FindAnchored(t, End(name), from) < 0 && A == RStripNewlines(t) + "\n\n" && A <= T
    requires Layout(T, |A|, v, m, e, name, version, body) && k < e
    ensures !Anchor(T, End(name), from, k)
  {
    MarkerShape(name, End(name));
    FindAnchoredFirst(t, End(name), from);
    if Anchor(T, End(name), from, k) {
      if k < |A| {
        AppendedAnchor(t, A, T, End(name), from, k);
      } else if k == |A| {
        NotBoth(T, k, name);
      } else {
        AnchorsInBlock(T, |A|, v, m, e, name, version, body, name, End(name), k);
      }
    }
  }

  lemma OrphanPairs(t: string, name: string, version: string, body: string, A: string, B: string, T: string)
      returns (b: nat)
    requires ValidName(name) && ValidVersion(version) && Clean(body, End(name)) && Orphan(t, name)
    requires A == RStripNewlines(t) + "\n\n" && B == Block(name, version, body) && T == A + B
    ensures b < |A| && FindBlock(T, name) == Some(Span(b, |T|))
  {
    b := OrphanFirst(t, name, A, T);
    NothingBehind(T);
    var v, m, e := Parts(A, name, version, body, B, "", T);
    EndBehind(t, name, b, b + |Begin(name)|, A, T, v, m, e, version, body, |T|);
  }

  lemma OrphanFirst(t: string, name: string, A: string, T: string) returns (b: nat)
    requires ValidName(name) && Orphan(t, name) && A == RStripNewlines(t) + "\n\n" && A <= T
    ensures b + |Begin(name)| < |A| && FindAnchored(t, End(name), b + |Begin(name)|) < 0 && FirstAt(T, name, b)
  {
    MarkerShape(name, Begin(name));
    b := FindAnchored(t, Begin(name), 0);
    FindAnchoredFirst(t, Begin(name), 0);
    BeforeTrailingNewlines(t, Begin(name), b);
    FirstAnchorKept(t, T, Begin(name), 0, b);
  }

  lemma EndBehind(t: string, name: string, b: nat, from: nat, A: string, T: string, v: nat, m: nat, e: nat,
                  version: string, body: string, n: nat)
    requires ValidName(name) && ValidVersion(version) && Clean(body, End(name)) && from < |A|
    requires FindAnchored(t, End(name), from) < 0 && A == RStripNewlines(t) + "\n\n" && A <= T
    requires Layout(T, |A|, v, m, e, name, version, body) && n == e + |End(name)|
    requires FirstAt(T, name, b) && from == b + |Begin(name)|
    ensures FindBlock(T, name) == Some(Span(b, n))
  {
    forall k | k < e ensures !Anchor(T, End(name), from, k) {
      NoEndBeforeAppended(t, name, b, from, A, T, v, m, e, version, body, k);
    }
    SpanFound(T, name, b, from, e, n);
  }

  /**
    Installing a block twice is the same as installing it once if and only if the text does not start
    a block of that name without ending it, and no line of the body starts with the block's own end marker.
   */
  lemma IdempotentIff(t: string, name: string, version: string, body: string)
    requires ValidName(name) && ValidVersion(version)
    ensures var B := FormatBlock(name, version, body);
      ReplaceOrAppend(ReplaceOrAppend(t, name, B), name, B) == ReplaceOrAppend(t, name, B)
      <==> !Orphan(t, name) && Clean(RStripNewlines(body), End(name))
  {
    var b := RStripNewlines(body);
    var B := Block(name, version, b);
    BlockStarts(name, version, b);
    if !Clean(b, End(name)) {
      var at := BlockAfterInstall(t, name, version, b, B);
      DirtyMoves(ReplaceOrAppend(t, name, B), name, version, b, B, at,
                 FindBlock(ReplaceOrAppend(t, name, B), name).value.end);
    } else if FindBlock(t, name).Some? {
      SpanInText(t, name);
      var span := FindBlock(t, name).value;
      var A, S := t[..span.start], t[span.end..];
      SettledInPlace(t, name, version, b, A, B, S, A + B + S, span.start, span.end);
    } else if Orphan(t, name) {
      NotSettled(t, name, version, b, B);
    } else {
      SettledBehind(t, name, version, b, B);
    }
  }

  /** After an install a block is found, whatever the body. */
  lemma BlockAfterInstall(t: string, name: string, version: string, body: string, B: string) returns (b: nat)
    requires ValidName(name) && ValidVersion(version) && B == Block(name, version, body) && Begin(name) <= B
    ensures var found := FindBlock(ReplaceOrAppend(t, name, B), name); found.Some? && found.value.start == b
  {
    if FindBlock(t, name).Some? {
      SpanInText(t, name);
      var span := FindBlock(t, name).value;
      b := span.start;
      var A, S := t[..span.start], t[span.end..];
      InPlaceFirst(t, name, b, span.end, B, A + B + S);
      Replaces(t, name, b, span.end, B);
      EndFollows(A, name, version, body, B, S, A + B + S, b);
    } else if t == "" {
      b := 0;
      assert "" + B + "" == B;
      assert Anchor(B, Begin(name), 0, 0);
      EndFollows("", name, version, body, B, "", B, 0);
    } else {
      var A := RStripNewlines(t) + "\n\n";
      NothingBehind(A + B);
      if Orphan(t, name) {
        b := OrphanFirst(t, name, A, A + B);
      } else {
        b := |A|;
        AppendedFirst(t, name, A, B, A + B);
      }
      EndFollows(A, name, version, body, B, "", A + B, b);
    }
  }

  /** A begin marker up to a printed block is followed by an end marker. */
  lemma EndFollows(A: string, name: string, version: string, body: string, B: string, S: string, T: string, b: nat)
    requires T == A + B + S && B == Block(name, version, body) && FirstAt(T, name, b) && b <= |A|
    ensures var found := FindBlock(T, name); found.Some? && found.value.start == b
  {
    var v, m, e := Parts(A, name, version, body, B, S, T);
    var from := b + |Begin(name)|;
    FirstAnchorFound(T, Begin(name), 0, b);
    FindAnchoredFirst(T, End(name), from);
    assert Anchor(T, End(name), from, e);
  }

  /** A block whose body has its own end marker at the start of a line is never the span that is found. */
  lemma DirtyMoves(T: string, name: string, version: string, body: string, B: string, b: nat, n: nat)
    requires FindBlock(T, name) == Some(Span(b, n)) && B == Block(name, version, body) && !Clean(body, End(name))
    ensures ReplaceOrAppend(T, name, B) != T
  {
    SpanInText(T, name);
    var q := EndInside(name, version, body, B);
    EarlierEnd(T, name, B, b, n, q);
    SamePlace(T, b, n, B);
    Replaces(T, name, b, n, B);
  }

  lemma EndInside(name: string, version: string, body: string, B: string) returns (q: nat)
    requires B == Block(name, version, body) && !Clean(body, End(name))
    ensures |Begin(name)| < q && q + |End(name)| < |B| && IsAt(B, End(name), q) && B[q - 1] == '\n'
  {
    var k :| BodyAnchor(body, End(name), k);
    var v, m, e := BlockParts(name, version, body, B);
    FromBody(B, body, m, End(name), k);
    q := m + k;
  }

  lemma SamePlace(T: string, b: nat, n: nat, B: string)
    requires b <= n <= |T|
    ensures T == T[..b] + B + T[n..] ==> T[b..n] == B
  {
    var R := T[..b] + B + T[n..];
    assert R[b..b + |B|] == B && |R| == b + |B| + (|T| - n);
  }

  /** The span that is found holds no end marker at the start of a line but its last. */
  lemma EarlierEnd(T: string, name: string, B: string, b: nat, n: nat, q: nat)
    requires FindBlock(T, name) == Some(Span(b, n)) && b <= n <= |T|
    requires |Begin(name)| < q && q + |End(name)| < |B| && IsAt(B, End(name), q) && B[q - 1] == '\n'
    ensures T[b..n] != B
  {
    var from, e := FoundAt(T, name, b, n);
    FindAnchoredFirst(T, End(name), from);
    assert b + q < e ==> !Anchor(T, End(name), from, b + q);
    if T[b..n] == B {
      Copied(T, b, n, B, End(name), q);
    }
  }

  lemma Copied(T: string, b: nat, n: nat, B: string, needle: string, q: nat)
    requires b <= n <= |T| && T[b..n] == B && IsAt(B, needle, q) && 0 < q <= |B|
    ensures IsAt(T, needle, b + q) && T[b + q - 1] == B[q - 1]
  {
    forall j | 0 <= j < |needle| ensures T[b + q + j] == needle[j] {
      assert T[b + (q + j)] == B[q + j];
    }
    assert T[b + (q - 1)] == B[q - 1];
  }

  lemma SettledInPlace(t: string, name: string, version: string, body: string, A: string, B: string, S: string,
                       T: string, b: nat, n: nat)
    requires ValidName(name) && ValidVersion(version) && Clean(body, End(name)) && B == Block(name, version, body)
    requires FindBlock(t, name) == Some(Span(b, n)) && b <= n <= |t| && Begin(name) <= B
    requires A == t[..b] && S == t[n..] && T == A + B + S
    ensures ReplaceOrAppend(t, name, B) == T && ReplaceOrAppend(T, name, B) == T
  {
    InPlaceFirst(t, name, b, n, B, T);
    Replaces(t, name, b, n, B);
    Settled(A, S, name, version, body, B, T, b, b + |B|);
  }

  lemma SettledBehind(t: string, name: string, version: string, body: string, B: string)
    requires ValidName(name) && ValidVersion(version) && Clean(body, End(name)) && B == Block(name, version, body)
    requires FindAnchored(t, Begin(name), 0) < 0 && Begin(name) <= B
    ensures var T := ReplaceOrAppend(t, name, B);
      && ReplaceOrAppend(T, name, B) == T
      && FindBlock(T, name) == Some(Span(|T| - |B|, |T|))
      && T == (if t == "" then "" else RStripNewlines(t) + "\n\n") + B
  {
    if t == "" {
      NothingBehind(B);
      assert "" + B == B;
      assert "" + B + "" == B;
      assert Anchor(B, Begin(name), 0, 0);
      Settled("", "", name, version, body, B, B, 0, |B|);
    } else {
      var A := RStripNewlines(t) + "\n\n";
      AppendedFirst(t, name, A, B, A + B);
      NothingBehind(A + B);
      Settled(A, "", name, version, body, B, A + B, |A|, |A + B|);
    }
  }

  lemma NotSettled(t: string, name: string, version: string, body: string, B: string)
    requires ValidName(name) && ValidVersion(version) && Clean(body, End(name)) && B == Block(name, version, body)
    requires Orphan(t, name)
    ensures var T := ReplaceOrAppend(t, name, B); ReplaceOrAppend(T, name, B) != T
  {
    var A := RStripNewlines(t) + "\n\n";
    FindAnchoredFirst(t, Begin(name), 0);
    var b := OrphanPairs(t, name, version, body, A, B, A + B);
    Replaces(A + B, name, b, |A + B|, B);
  }

  // ----- other blocks

  /** From n on, t reads as T does from n + d on. */
  ghost predicate SameTail(t: string, n: nat, T: string, d: int) {
    n <= |t| && n + d >= 0 && |T| == |t| + d && forall j :: n <= j < |t| ==> T[j + d] == t[j]
  }

  lemma ShiftIsAt(t: string, n: nat, T: string, d: int, needle: string, k: int)
    requires SameTail(t, n, T, d) && n <= k
    ensures IsAt(t, needle, k) == IsAt(T, needle, k + d)
  {
    if k + |needle| <= |t| {
      forall i | 0 <= i < |needle| ensures t[k + i] == needle[i] <==> T[k + d + i] == needle[i] {
        assert T[(k + i) + d] == t[k + i];
      }
    }
  }

  lemma ShiftAnchor(t: string, n: nat, T: string, d: int, needle: string, start: nat, start': nat, k: int)
    requires SameTail(t, n, T, d) && n < k && (start' == start + d || (start < k && start' < k + d))
    ensures Anchor(t, needle, start, k) == Anchor(T, needle, start', k + d)
  {
    ShiftIsAt(t, n, T, d, needle, k);
    assert k <= |t| ==> T[(k - 1) + d] == t[k - 1];
  }

  lemma ShiftFirst(t: string, n: nat, T: string, d: int, needle: string, from: nat, from': nat, e: nat, e': nat)
    requires SameTail(t, n, T, d) && n < from == from' - d && e == e' - d && FindAnchored(t, needle, from) == e
    ensures Anchor(T, needle, from', e') && forall k :: k < e' ==> !Anchor(T, needle, from', k)
  {
    FindAnchoredFirst(t, needle, from);
    ShiftAnchor(t, n, T, d, needle, from, from', e);
    forall k | k < e' ensures !Anchor(T, needle, from', k) {
      if from' <= k {
        ShiftAnchor(t, n, T, d, needle, from, from', k - d);
      }
    }
  }

  /** In front of a line that starts at p, anchors depend on the text before p only. */
  lemma AnchorBefore(t: string, T: string, p: nat, needle: string, k: int)
    requires Agree(t, T, p) && k < p && '\n' !in needle && needle != "" && (p > 0 ==> T[p - 1] == '\n')
    ensures Anchor(T, needle, 0, k) ==> Anchor(t, needle, 0, k)
  {
    if Anchor(T, needle, 0, k) {
      OneLine(T, needle, k);
      AgreeAnchor(t, T, p, needle, 0, k);
    }
  }

  /** A begin marker of another block: not where this block is, unless in the body. */
  lemma OtherNotInBlock(T: string, a: nat, v: nat, m: nat, e: nat, name: string, version: string, body: string,
                        other: string, k: int)
    requires Layout(T, a, v, m, e, name, version, body) && ValidName(name) && ValidVersion(version)
    requires ValidName(other) && other != name && a <= k <= e + |End(name)| && Anchor(T, Begin(other), 0, k)
    ensures m <= k && BodyAnchor(body, Begin(other), k - m)
  {
    if k == a {
      MarkersDiffer(T, k, name, Begin(name), other, Begin(other));
    } else if IsAt(T, End(name), k) {
      MarkersDiffer(T, k, name, End(name), other, Begin(other));
    } else {
      AnchorsInBlock(T, a, v, m, e, name, version, body, other, Begin(other), k);
    }
  }

  lemma SpanEdges(t: string, name: string, b: nat, n: nat)
    requires ValidName(name) && FindBlock(t, name) == Some(Span(b, n))
    ensures b < n <= |t| && t[n - 1] == '>' && (b > 0 ==> t[b - 1] == '\n')
  {
    FoundFirst(t, name, b, n);
    FoundEnd(t, name, b, n);
    MarkerShape(name, End(name));
    LastChar(t, End(name), n - |End(name)|, n);
  }

  lemma FoundEnd(t: string, name: string, b: nat, n: nat)
    requires FindBlock(t, name) == Some(Span(b, n))
    ensures b <= n - |End(name)| && IsAt(t, End(name), n - |End(name)|)
  {
    FindAnchoredFirst(t, End(name), b + |Begin(name)|);
  }

  lemma LastChar(t: string, needle: string, e: int, n: int)
    requires IsAt(t, needle, e) && needle != "" && n == e + |needle|
    ensures t[n - 1] == needle[|needle| - 1]
  {
    assert t[e + (|needle| - 1)] == needle[|needle| - 1];
  }

  /** t with the part from b to n replaced by B, which prints a block. */
  ghost predicate Spliced(t: string, b: nat, n: nat, B: string, T: string, d: int) {
    && b < n <= |t| && t[n - 1] == '>' && (b > 0 ==> t[b - 1] == '\n')
    && T == t[..b] + B + t[n..] && d == b + |B| - n
  }

  lemma SplicedParts(t: string, b: nat, n: nat, B: string, T: string, d: int)
    requires Spliced(t, b, n, B, T, d)
    ensures Agree(t, T, b) && SameTail(t, n, T, d)
  {
    forall j | n <= j < |t| ensures T[j + d] == t[j] {
      assert t[n..][j - n] == t[j];
    }
  }

  /** Where another block's begin marker can be anchored once a block has been put in. */
  lemma OtherAnchor(t: string, b: nat, n: nat, B: string, T: string, d: int, v: nat, m: nat, e: nat,
                    name: string, version: string, body: string, other: string, k: int)
    requires Spliced(t, b, n, B, T, d) && Layout(T, b, v, m, e, name, version, body) && e + |End(name)| == b + |B|
    requires ValidName(name) && ValidVersion(version) && ValidName(other) && other != name
        && Anchor(T, Begin(other), 0, k)
    ensures (k < b && Anchor(t, Begin(other), 0, k)) || (m <= k && BodyAnchor(body, Begin(other), k - m))
         || (n < k - d && Anchor(t, Begin(other), 0, k - d))
  {
    SplicedParts(t, b, n, B, T, d);
    MarkerShape(other, Begin(other));
    if k < b {
      AnchorBefore(t, T, b, Begin(other), k);
    } else if k <= b + |B| {
      OtherNotInBlock(T, b, v, m, e, name, version, body, other, k);
    } else {
      ShiftAnchor(t, n, T, d, Begin(other), 0, 0, k - d);
    }
  }

  /** The begin marker of a block further down stays the first one if and only if the new body brings none. */
  lemma OtherFirstIff(t: string, b: nat, n: nat, B: string, T: string, d: int, v: nat, m: nat, e: nat,
                      name: string, version: string, body: string, other: string, c: nat, c': nat)
    requires Spliced(t, b, n, B, T, d) && Layout(T, b, v, m, e, name, version, body) && e + |End(name)| == b + |B|
    requires ValidName(name) && ValidVersion(version) && ValidName(other) && other != name
    requires FirstAt(t, other, c) && n <= c == c' - d
    ensures FirstAt(T, other, c') <==> Clean(body, Begin(other))
  {
    if Clean(body, Begin(other)) {
      OtherStaysFirst(t, b, n, B, T, d, v, m, e, name, version, body, other, c, c');
    } else {
      var j :| BodyAnchor(body, Begin(other), j);
      FromBody(T, body, m, Begin(other), j);
      assert Anchor(T, Begin(other), 0, m + j);
    }
  }

  lemma OtherStaysFirst(t: string, b: nat, n: nat, B: string, T: string, d: int, v: nat, m: nat, e: nat,
                        name: string, version: string, body: string, other: string, c: nat, c': nat)
    requires Spliced(t, b, n, B, T, d) && Layout(T, b, v, m, e, name, version, body) && e + |End(name)| == b + |B|
    requires ValidName(name) && ValidVersion(version) && ValidName(other) && other != name
    requires FirstAt(t, other, c) && n <= c == c' - d && Clean(body, Begin(other))
    ensures FirstAt(T, other, c')
  {
    BehindBlock(t, b, n, B, T, d, other, c);
    forall k | k < c' ensures !Anchor(T, Begin(other), 0, k) {
      if Anchor(T, Begin(other), 0, k) {
        OtherAnchor(t, b, n, B, T, d, v, m, e, name, version, body, other, k);
      }
    }
  }

  lemma BehindBlock(t: string, b: nat, n: nat, B: string, T: string, d: int, other: string, c: nat)
    requires Spliced(t, b, n, B, T, d) && ValidName(other) && Anchor(t, Begin(other), 0, c) && n <= c
    ensures n < c && c + d > 0 && Anchor(T, Begin(other), 0, c + d)
  {
    SplicedParts(t, b, n, B, T, d);
    ShiftAnchor(t, n, T, d, Begin(other), 0, 0, c);
  }

  /** The end marker of a block further down moves along. */
  lemma OtherMoves(t: string, b: nat, n: nat, B: string, T: string, d: int, other: string, c: nat, c': nat, o: nat,
                   o': nat)
    requires Spliced(t, b, n, B, T, d) && ValidName(other) && FindBlock(t, other) == Some(Span(c, o))
        && n <= c == c' - d && o == o' - d
    requires FirstAt(T, other, c')
    ensures FindBlock(T, other) == Some(Span(c', o'))
  {
    MarkerShape(other, Begin(other));
    var from, e := FoundAt(t, other, c, o);
    var from', e' := from + d, e + d;
    SplicedParts(t, b, n, B, T, d);
    ShiftFirst(t, n, T, d, End(other), from, from', e, e');
    SpanFound(T, other, c', from', e', o');
  }

  lemma FoundAt(t: string, name: string, b: nat, n: nat) returns (from: nat, e: nat)
    requires FindBlock(t, name) == Some(Span(b, n))
    ensures from == b + |Begin(name)| && FindAnchored(t, End(name), from) == e && n == e + |End(name)|
  {
    from := b + |Begin(name)|;
    e := FindAnchored(t, End(name), from);
  }

  lemma FoundFirst(t: string, name: string, b: nat, n: nat)
    requires FindBlock(t, name) == Some(Span(b, n))
    ensures FirstAt(t, name, b)
  {
    FindAnchoredFirst(t, Begin(name), 0);
  }

  /** A block below the replaced one is found where it has moved to if and only if the new body does not begin it. */
  lemma BelowKeptIff(t: string, b: nat, n: nat, B: string, T: string, d: int, name: string, version: string,
                     body: string, other: string, c: nat, c': nat, o: nat, o': nat)
    requires ValidName(name) && ValidVersion(version) && ValidName(other) && other != name
    requires Spliced(t, b, n, B, T, d) && B == Block(name, version, body)
    requires FindBlock(t, other) == Some(Span(c, o)) && n <= c == c' - d && o == o' - d
    ensures FindBlock(T, other) == Some(Span(c', o')) <==> Clean(body, Begin(other))
  {
    var v, m, e := Parts(t[..b], name, version, body, B, t[n..], T);
    FoundFirst(t, other, c, o);
    OtherFirstIff(t, b, n, B, T, d, v, m, e, name, version, body, other, c, c');
    if FirstAt(T, other, c') {
      OtherMoves(t, b, n, B, T, d, other, c, c', o, o');
    } else if FindBlock(T, other) == Some(Span(c', o')) {
      FoundFirst(T, other, c', o');
    }
  }

  /** A block above the replaced one, or any block when the new one is appended, is found as before. */
  lemma InstallKeepsAbove(t: string, name: string, B: string, other: string, c: nat, o: nat)
    requires ValidName(name) && ValidName(other) && FindBlock(t, other) == Some(Span(c, o))
    requires FindBlock(t, name).Some? ==> o <= FindBlock(t, name).value.start
    ensures var T := ReplaceOrAppend(t, name, B);
      FindBlock(T, other) == Some(Span(c, o)) && c <= o <= |t| && o <= |T| && T[c..o] == t[c..o]
  {
    SpanEdges(t, other, c, o);
    SpanInText(t, name);
    var T := ReplaceOrAppend(t, name, B);
    assert Agree(t, T, o) by {
      if FindBlock(t, name).None? {
        assert t[o - 1] != '\n';
      }
    }
    PrefixKeepsBlock(t, T, o, other);
    AgreeSlice(t, T, o, c);
  }

  lemma AgreeSlice(t: string, T: string, p: nat, c: nat)
    requires Agree(t, T, p) && c <= p
    ensures T[c..p] == t[c..p]
  {
  }

  lemma TailSlice(t: string, n: nat, T: string, d: int, c: nat, o: nat)
    requires SameTail(t, n, T, d) && n <= c <= o <= |t|
    ensures T[c + d..o + d] == t[c..o]
  {
    forall j | 0 <= j < o - c ensures T[c + d..o + d][j] == t[c..o][j] {
      assert T[(c + j) + d] == t[c + j];
    }
  }

  /**
    A block below the replaced one keeps its text and is found where it has moved to, if and only if the new body does
    not begin it.
   */
  lemma InstallKeepsBelowIff(t: string, name: string, version: string, body: string, T: string, other: string,
                             c: nat, o: nat, c': nat, o': nat)
    requires ValidName(name) && ValidVersion(version) && ValidName(other) && other != name
    requires FindBlock(t, name).Some? && FindBlock(t, other) == Some(Span(c, o)) && FindBlock(t, name).value.end <= c
    requires T == ReplaceOrAppend(t, name, FormatBlock(name, version, body))
    requires c' == c + |T| - |t| && o' == o + |T| - |t|
    ensures c <= o <= |t| && c' <= o' <= |T| && T[c'..o'] == t[c..o]
    ensures FindBlock(T, other) == Some(Span(c', o')) <==> Clean(RStripNewlines(body), Begin(other))
  {
    var b, n := FindBlock(t, name).value.start, FindBlock(t, name).value.end;
    var B := Block(name, version, RStripNewlines(body));
    SpanEdges(t, name, b, n);
    SpanEdges(t, other, c, o);
    Replaces(t, name, b, n, B);
    Below(t, b, n, B, T, |T| - |t|, name, version, RStripNewlines(body), other, c, o, c', o');
  }

  lemma Below(t: string, b: nat, n: nat, B: string, T: string, d: int, name: string, version: string, body: string,
              other: string, c: nat, o: nat, c': nat, o': nat)
    requires ValidName(name) && ValidVersion(version) && ValidName(other) && other != name
    requires Spliced(t, b, n, B, T, d) && B == Block(name, version, body)
    requires FindBlock(t, other) == Some(Span(c, o)) && n <= c <= o <= |t| && c == c' - d && o == o' - d
    ensures c' <= o' <= |T| && T[c'..o'] == t[c..o]
    ensures FindBlock(T, other) == Some(Span(c', o')) <==> Clean(body, Begin(other))
  {
    SplicedParts(t, b, n, B, T, d);
    TailSlice(t, n, T, d, c, o);
    BelowKeptIff(t, b, n, B, T, d, name, version, body, other, c, c', o, o');
  }

  /**
    Deleting an installed block takes it out again, up to the newlines at the end of the text,
    if and only if no line of the body starts with the block's own end marker.
   */
  lemma DeleteUndoesInstallIff(t: string, name: string, version: string, body: string)
    requires ValidName(name) && ValidVersion(version) && FindAnchored(t, Begin(name), 0) < 0
    ensures DeleteBlock(ReplaceOrAppend(t, name, FormatBlock(name, version, body)), name)
         == (if t == "" then "" else RStripNewlines(t) + "\n\n")
       <==> Clean(RStripNewlines(body), End(name))
  {
    var b := RStripNewlines(body);
    var B := Block(name, version, b);
    var A := if t == "" then "" else RStripNewlines(t) + "\n\n";
    BlockStarts(name, version, b);
    if Clean(b, End(name)) {
      SettledBehind(t, name, version, b, B);
      DeletesLast(A, B, name);
    } else {
      var k0 :| BodyAnchor(b, End(name), k0);
      var k := FirstBodyAnchor(b, End(name), k0);
      assert "" + B == B;
      assert t == "" ==> Anchor(B, Begin(name), 0, 0);
      if t != "" {
        AppendedFirst(t, name, A, B, A + B);
      }
      DeletesShort(A, name, version, b, B, A + B, k);
    }
  }

  lemma DeletesShort(A: string, name: string, version: string, body: string, B: string, T: string, k: nat)
    requires ValidName(name) && ValidVersion(version) && B == Block(name, version, body) && T == A + B
        && FirstAt(T, name, |A|)
    requires BodyAnchor(body, End(name), k) && forall j :: j < k ==> !BodyAnchor(body, End(name), j)
    ensures DeleteBlock(T, name) != A
  {
    NothingBehind(T);
    MarkerShape(name, End(name));
    var v, m, e := Parts(A, name, version, body, B, "", T);
    var n := m + k + |End(name)|;
    FindsShortBlock(T, |A|, v, m, e, name, version, body, k, n);
    DeletesSpan(T, name, |A|, n);
  }

  lemma DeletesSpan(T: string, name: string, b: nat, n: nat)
    requires FindBlock(T, name) == Some(Span(b, n)) && b <= n && n + 2 < |T|
    ensures |DeleteBlock(T, name)| > b
  {
  }

  lemma DeletesLast(A: string, B: string, name: string)
    requires FindBlock(A + B, name) == Some(Span(|A|, |A + B|))
    ensures DeleteBlock(A + B, name) == A
  {
    NothingBehind(A);
  }

  /** Replacing touches nothing outside the span that was found. */
  lemma OutsideKept(t: string, name: string, B: string)
    requires ValidName(name)
    ensures var T := ReplaceOrAppend(t, name, B);
      match FindBlock(t, name)
      case Some(span) =>
        && span.start <= span.end <= |t|
        && T[..span.start] == t[..span.start] && T[span.start..|T| - (|t| - span.end)] == B
        && T[|T| - (|t| - span.end)..] == t[span.end..]
      case None =>
        && B <= T[|T| - |B|..] && RStripNewlines(t) <= T
        && (t == "" || T[|RStripNewlines(t)|..|T| - |B|] == "\n\n")
  {
    SpanInText(t, name);
    var T := ReplaceOrAppend(t, name, B);
    if FindBlock(t, name).Some? {
      var span := FindBlock(t, name).value;
      SpliceSame(t[..span.start], B, t[span.end..]);
    } else if t != "" {
      var A := RStripNewlines(t);
      SpliceSame(A + "\n\n", B, "");
      NothingBehind(T);
      assert T[..|A| + 2] == A + "\n\n";
    }
  }

  // ----- a body that names its own end

  /**
    The body that consists of the block's own end marker: read back it is gone, a second install changes the text, and
    deleting leaves a rest.
   */
  lemma OwnEndMarkerFails(name: string, version: string)
    requires ValidName(name) && ValidVersion(version)
    ensures var B := FormatBlock(name, version, End(name));
      && ExtractBody(B, name) != Some(End(name) + "\n")
      && ReplaceOrAppend(ReplaceOrAppend("", name, B), name, B) != ReplaceOrAppend("", name, B)
      && DeleteBlock(ReplaceOrAppend("", name, B), name) != ""
  {
    var body := End(name);
    EndStays(name);
    assert BodyAnchor(body, End(name), 0);
    RoundTripIff(name, version, body);
    IdempotentIff("", name, version, body);
    NoMarkerInNothing(name);
    DeleteUndoesInstallIff("", name, version, body);
  }

  lemma EndStays(name: string)
    requires ValidName(name)
    ensures RStripNewlines(End(name)) == End(name) && PrintedBody(End(name)) == End(name)
    ensures CrlfToLf(RStripNewlines(End(name)) + "\n") == End(name) + "\n"
  {
    MarkerShape(name, End(name));
    LineStays(End(name));
    assert PrintedBody(End(name)) + "\n" == End(name) + "\n";
    assert PrintedBody(End(name)) == (PrintedBody(End(name)) + "\n")[..|End(name)|] == End(name);
  }

  lemma LineStays(line: string)
    requires line != "" && line[|line| - 1] == '>' && '\n' !in line
    ensures RStripNewlines(line) == line && CrlfToLf(line + "\n") == line + "\n"
  {
    CrlfToLfSame(line + "\n");
  }

  lemma NoMarkerInNothing(name: string)
    ensures FindAnchored("", Begin(name), 0) < 0
  {
    FindAnchoredFirst("", Begin(name), 0);
  }
}
