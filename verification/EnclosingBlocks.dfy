/** A block that encloses the one that is replaced or deleted: when it is still found, with its end moved along. */
module EnclosingBlocks {
  import opened DeletedBlocks
  import opened Markers
  import opened Text
  import opened Wrappers

  /** The block from c to o lies around the span from b to n: it begins before, and its end marker e follows. */
  ghost predicate Around(t: string, other: string, b: nat, n: nat, c: nat, from: nat, e: nat, o: nat) {
    && ValidName(other) && FindBlock(t, other) == Some(Span(c, o)) && c < b < n && n <= e && o == e + |End(other)|
    && from == c + |Begin(other)|
  }

  /** T reads as t up to b, where a line starts, and as t does from x on behind that. */
  ghost predicate Edited(t: string, b: nat, x: nat, T: string, d: int) {
    0 < b <= x && b <= x + d && Agree(t, T, b) && SameTail(t, x, T, d) && t[b - 1] == '\n'
  }

  /** Behind the begin marker the first end marker in t. */
  lemma AroundEnds(t: string, other: string, b: nat, n: nat, c: nat, from: nat, e: nat, o: nat)
    requires Around(t, other, b, n, c, from, e, o) && b <= |t| && t[b - 1] == '\n'
    ensures from < b && FindAnchored(t, End(other), from) == e && Anchor(t, End(other), from, e)
    ensures forall k :: k < e ==> !Anchor(t, End(other), from, k)
  {
    BeginBefore(t, other, b, c, o);
    var from', e' := FoundAt(t, other, c, o);
    FindAnchoredFirst(t, End(other), from);
  }

  lemma BeginBefore(t: string, other: string, b: nat, c: nat, o: nat)
    requires ValidName(other) && FindBlock(t, other) == Some(Span(c, o)) && c < b <= |t| && t[b - 1] == '\n'
    ensures c + |Begin(other)| < b
  {
    FoundFirst(t, other, c, o);
    MarkerShape(other, Begin(other));
    OneLine(t, Begin(other), c);
  }

  /** In front of the edited part, anchors are those of the old text. */
  lemma AnchorInFront(t: string, b: nat, x: nat, T: string, d: int, needle: string, start: nat, k: int)
    requires Edited(t, b, x, T, d) && k < b && '\n' !in needle && needle != "" && Anchor(T, needle, start, k)
    ensures Anchor(t, needle, start, k)
  {
    OneLine(T, needle, k);
    AgreeAnchor(t, T, b, needle, start, k);
  }

  /** An end marker of the name begins a line behind the first. */
  ghost predicate EndLine(T: string, other: string, k: int) { IsAt(T, End(other), k) && k > 0 && T[k - 1] == '\n' }

  /** None does from the edit on, up to the old end marker. */
  ghost predicate NoEarlierEnd(T: string, other: string, b: nat, e': nat) {
    forall k :: b <= k < e' ==> !EndLine(T, other, k)
  }

  /** The enclosing block is found up to its moved end if and only if the edit brings no earlier end marker for it. */
  lemma AroundIff(t: string, b: nat, n: nat, x: nat, T: string, d: int, other: string, c: nat, from: nat, e: nat,
                  o: nat, e': nat, o': nat)
    requires Around(t, other, b, n, c, from, e, o) && Edited(t, b, x, T, d) && x <= e && e' == e + d && o' == o + d
    requires EndLine(T, other, e')
    ensures FindBlock(T, other) == Some(Span(c, o')) <==> NoEarlierEnd(T, other, b, e')
  {
    AroundEnds(t, other, b, n, c, from, e, o);
    MarkerShape(other, End(other));
    BeginKept(t, b, x, T, d, other, c, o);
    if NoEarlierEnd(T, other, b, e') {
      forall k | k < e' ensures !Anchor(T, End(other), from, k) {
        NoEndInFront(t, b, x, T, d, other, from, e, k);
        assert b <= k && Anchor(T, End(other), from, k) ==> EndLine(T, other, k);
      }
      SpanFound(T, other, c, from, e', o');
    } else {
      var k :| b <= k < e' && EndLine(T, other, k);
      EndsEarlier(T, other, c, from, k, o');
    }
  }

  lemma NoEndInFront(t: string, b: nat, x: nat, T: string, d: int, other: string, from: nat, e: nat, k: int)
    requires Edited(t, b, x, T, d) && ValidName(other) && b <= e
    requires forall j :: j < e ==> !Anchor(t, End(other), from, j)
    ensures k < b ==> !Anchor(T, End(other), from, k)
  {
    MarkerShape(other, End(other));
    if k < b && Anchor(T, End(other), from, k) {
      AnchorInFront(t, b, x, T, d, End(other), from, k);
    }
  }

  lemma BeginKept(t: string, b: nat, x: nat, T: string, d: int, other: string, c: nat, o: nat)
    requires Edited(t, b, x, T, d) && ValidName(other) && FindBlock(t, other) == Some(Span(c, o)) && c < b
    ensures FirstAt(T, other, c)
  {
    FoundFirst(t, other, c, o);
    MarkerShape(other, Begin(other));
    OneLine(t, Begin(other), c);
    AgreeAnchor(t, T, b, Begin(other), 0, c);
    forall k | k < c ensures !Anchor(T, Begin(other), 0, k) {
      if Anchor(T, Begin(other), 0, k) {
        AnchorInFront(t, b, x, T, d, Begin(other), 0, k);
      }
    }
  }

  lemma EndsEarlier(T: string, other: string, c: nat, from: nat, k: nat, o': nat)
    requires FirstAt(T, other, c) && from == c + |Begin(other)|
    requires Anchor(T, End(other), from, k) && k + |End(other)| < o'
    ensures FindBlock(T, other) != Some(Span(c, o'))
  {
    FirstAnchorFound(T, Begin(other), 0, c);
    FindAnchoredFirst(T, End(other), from);
  }

  // ----- deletion

  lemma EndBehind(t: string, b: nat, n: nat, x: nat, T: string, d: int, other: string, c: nat, from: nat, e: nat,
                  o: nat)
    requires Deleted(t, b, n, x, T, d) && Around(t, other, b, n, c, from, e, o)
    ensures x <= e && t[b - 1] == t[e - 1] == '\n' && Edited(t, b, x, T, d)
  {
    DeletedParts(t, b, n, x, T, d);
    AroundEnds(t, other, b, n, c, from, e, o);
    MarkerShape(other, End(other));
    assert t[e + 0] == End(other)[0];
  }

  /** Behind the deleted span, the end marker that follows stays at the start of a line. */
  lemma EndKeptByDeletion(t: string, b: nat, n: nat, x: nat, T: string, d: int, other: string, e: nat, e': nat)
    requires Deleted(t, b, n, x, T, d) && Edited(t, b, x, T, d) && x <= e && e' == e + d
    requires IsAt(t, End(other), e) && t[e - 1] == '\n'
    ensures EndLine(T, other, e')
  {
    ShiftIsAt(t, x, T, d, End(other), e);
    if e > x {
      assert T[(e - 1) + d] == t[e - 1];
    } else {
      assert T[b - 1] == t[b - 1];
    }
  }

  /** The only end marker that a deletion can bring to the start of a line is one right behind the deleted span. */
  lemma EarlierEndByDeletion(t: string, b: nat, n: nat, x: nat, T: string, d: int, other: string, c: nat, from: nat,
                             e: nat, o: nat, e': nat)
    requires Deleted(t, b, n, x, T, d) && Around(t, other, b, n, c, from, e, o) && e' == e + d && t[b - 1] == '\n'
    requires x <= e && Edited(t, b, x, T, d)
    ensures NoEarlierEnd(T, other, b, e') <==> !IsAt(t, End(other), n)
  {
    AroundEnds(t, other, b, n, c, from, e, o);
    if IsAt(t, End(other), n) {
      NewEndByDeletion(t, b, n, x, T, d, other);
      NotAtOnce(t, n, e, from, other);
      assert EndLine(T, other, b) && b < e';
    } else {
      forall k | b <= k < e' ensures !EndLine(T, other, k) {
        if EndLine(T, other, k) {
          OldEnd(t, b, n, x, T, d, other, from, k);
        }
      }
    }
  }

  lemma NewEndByDeletion(t: string, b: nat, n: nat, x: nat, T: string, d: int, other: string)
    requires Deleted(t, b, n, x, T, d) && Edited(t, b, x, T, d) && ValidName(other) && IsAt(t, End(other), n)
    ensures x == n && EndLine(T, other, b)
  {
    MarkerShape(other, End(other));
    assert t[n + 0] == End(other)[0];
    ShiftIsAt(t, x, T, d, End(other), n);
    assert T[b - 1] == t[b - 1];
  }

  /** Right behind an end marker, a marker is not at the start of a line. */
  lemma NotAtOnce(t: string, n: nat, e: nat, from: nat, other: string)
    requires 0 < n <= e && n <= |t| && t[n - 1] == '>' && Anchor(t, End(other), from, e) && from < n
    ensures n < e
  {
  }

  /** An end marker that begins a line after the deletion did so before it, unless it stood right behind the span. */
  lemma OldEnd(t: string, b: nat, n: nat, x: nat, T: string, d: int, other: string, from: nat, k: nat)
    requires Deleted(t, b, n, x, T, d) && ValidName(other) && 0 < b <= k && EndLine(T, other, k)
    requires from < b && !IsAt(t, End(other), n)
    ensures Anchor(t, End(other), from, k - d)
  {
    DeletedParts(t, b, n, x, T, d);
    ShiftIsAt(t, x, T, d, End(other), k - d);
    if k > b {
      assert T[(k - d - 1) + d] == t[k - d - 1];
    }
  }

  /**
    A block around the deleted one is found with its end moved along, if and only if no end marker of its name stood
    right behind the deleted block's end.
   */
  lemma DeleteKeepsAroundIff(t: string, name: string, other: string, b: nat, n: nat, c: nat, from: nat, e: nat, o: nat,
                             o': nat)
    requires ValidName(name) && FindBlock(t, name) == Some(Span(b, n)) && Around(t, other, b, n, c, from, e, o)
    requires o' == o + |DeleteBlock(t, name)| - |t|
    ensures FindBlock(DeleteBlock(t, name), other) == Some(Span(c, o')) <==> !IsAt(t, End(other), n)
  {
    var x, d := WhatIsDeleted(t, name, b, n);
    var e' := EndAfter(t, name, b, n, x, d, other, c, from, e, o);
    EarlierEndByDeletion(t, b, n, x, DeleteBlock(t, name), d, other, c, from, e, o, e');
    AroundIff(t, b, n, x, DeleteBlock(t, name), d, other, c, from, e, o, e', o');
  }

  lemma EndAfter(t: string, name: string, b: nat, n: nat, x: nat, d: int, other: string, c: nat, from: nat, e: nat,
                 o: nat) returns (e': nat)
    requires Deleted(t, b, n, x, DeleteBlock(t, name), d) && Around(t, other, b, n, c, from, e, o)
    ensures var T := DeleteBlock(t, name);
      && e' == e + d && d == |T| - |t| && t[b - 1] == '\n'
      && x <= e && Edited(t, b, x, T, d) && EndLine(T, other, e')
  {
    EndBehind(t, b, n, x, DeleteBlock(t, name), d, other, c, from, e, o);
    AroundEnds(t, other, b, n, c, from, e, o);
    e' := e + d;
    EndKeptByDeletion(t, b, n, x, DeleteBlock(t, name), d, other, e, e');
  }

  // ----- installation

  /** Where an end marker of another name can begin a line in what has been put in. */
  lemma EndInBlock(T: string, b: nat, v: nat, m: nat, l: nat, name: string, version: string, body: string,
                   other: string, k: nat)
    requires Layout(T, b, v, m, l, name, version, body) && ValidName(name) && ValidVersion(version)
    requires ValidName(other) && other != name && 0 < b <= k <= l + |End(name)|
    requires EndLine(T, other, k)
    ensures m <= k && BodyAnchor(body, End(other), k - m)
  {
    if k == b {
      MarkersDiffer(T, k, name, Begin(name), other, End(other));
    } else if IsAt(T, End(name), k) {
      MarkersDiffer(T, k, name, End(name), other, End(other));
    } else {
      AnchorsInBlock(T, b, v, m, l, name, version, body, other, End(other), k);
    }
  }

  lemma EarlierEndByInstall(t: string, b: nat, n: nat, B: string, T: string, d: int, v: nat, m: nat, l: nat,
                            name: string, version: string, body: string, other: string, c: nat, from: nat, e: nat,
                            o: nat, e': nat)
    requires Spliced(t, b, n, B, T, d) && Layout(T, b, v, m, l, name, version, body) && l + |End(name)| == b + |B|
    requires ValidName(name) && ValidVersion(version) && other != name && Around(t, other, b, n, c, from, e, o)
    requires e' == e + d && t[b - 1] == '\n'
    ensures NoEarlierEnd(T, other, b, e') <==> Clean(body, End(other))
  {
    AroundEnds(t, other, b, n, c, from, e, o);
    if Clean(body, End(other)) {
      forall k | b <= k < e' ensures !EndLine(T, other, k) {
        if EndLine(T, other, k) {
          NewEnd(t, b, n, B, T, d, v, m, l, name, version, body, other, from, k);
        }
      }
    } else {
      var j :| BodyAnchor(body, End(other), j);
      FromBody(T, body, m, End(other), j);
      BodyBefore(T, b, v, m, l, name, version, body, other, j);
      assert EndLine(T, other, m + j);
    }
  }

  lemma BodyBefore(T: string, b: nat, v: nat, m: nat, l: nat, name: string, version: string, body: string,
                   other: string, j: nat)
    requires Layout(T, b, v, m, l, name, version, body) && BodyAnchor(body, End(other), j)
    ensures b < m + j < l + |End(name)|
  {
  }

  lemma NewEnd(t: string, b: nat, n: nat, B: string, T: string, d: int, v: nat, m: nat, l: nat, name: string,
               version: string, body: string, other: string, from: nat, k: nat)
    requires Spliced(t, b, n, B, T, d) && Layout(T, b, v, m, l, name, version, body) && l + |End(name)| == b + |B|
    requires ValidName(name) && ValidVersion(version) && ValidName(other) && other != name && from < b <= k
    requires EndLine(T, other, k) && Clean(body, End(other))
    ensures Anchor(t, End(other), from, k - d)
  {
    SplicedParts(t, b, n, B, T, d);
    if k <= b + |B| {
      EndInBlock(T, b, v, m, l, name, version, body, other, k);
    } else {
      ShiftIsAt(t, n, T, d, End(other), k - d);
      assert T[(k - d - 1) + d] == t[k - d - 1];
    }
  }

  /**
    A block around the replaced one is found with its end moved along, if and only if no line of the new body starts
    with its end marker.
   */
  lemma InstallKeepsAroundIff(t: string, name: string, version: string, body: string, T: string, other: string, b: nat,
                              n: nat, c: nat, from: nat, e: nat, o: nat, o': nat)
    requires ValidName(name) && ValidVersion(version) && other != name
    requires FindBlock(t, name) == Some(Span(b, n)) && Around(t, other, b, n, c, from, e, o)
    requires T == ReplaceOrAppend(t, name, FormatBlock(name, version, body)) && o' == o + |T| - |t|
    ensures FindBlock(T, other) == Some(Span(c, o')) <==> Clean(RStripNewlines(body), End(other))
  {
    var B := Block(name, version, RStripNewlines(body));
    SpanEdges(t, name, b, n);
    Replaces(t, name, b, n, B);
    AroundInstalled(t, b, n, B, T, |T| - |t|, name, version, RStripNewlines(body), other, c, from, e, o, o');
  }

  lemma AroundInstalled(t: string, b: nat, n: nat, B: string, T: string, d: int, name: string, version: string,
                        body: string, other: string, c: nat, from: nat, e: nat, o: nat, o': nat)
    requires ValidName(name) && ValidVersion(version) && other != name && Spliced(t, b, n, B, T, d)
    requires B == Block(name, version, body) && Around(t, other, b, n, c, from, e, o) && o' == o + d
    ensures FindBlock(T, other) == Some(Span(c, o')) <==> Clean(body, End(other))
  {
    var v, m, l := Parts(t[..b], name, version, body, B, t[n..], T);
    var e' := EndKeptByInstall(t, b, n, B, T, d, other, c, from, e, o);
    EarlierEndByInstall(t, b, n, B, T, d, v, m, l, name, version, body, other, c, from, e, o, e');
    AroundIff(t, b, n, n, T, d, other, c, from, e, o, e', o');
  }

  lemma EndKeptByInstall(t: string, b: nat, n: nat, B: string, T: string, d: int, other: string, c: nat, from: nat,
                         e: nat, o: nat) returns (e': nat)
    requires Spliced(t, b, n, B, T, d) && Around(t, other, b, n, c, from, e, o)
    ensures e' == e + d && t[b - 1] == '\n' && Edited(t, b, n, T, d) && EndLine(T, other, e')
  {
    SplicedParts(t, b, n, B, T, d);
    AroundEnds(t, other, b, n, c, from, e, o);
    NotAtOnce(t, n, e, from, other);
    ShiftIsAt(t, n, T, d, End(other), e);
    e' := e + d;
    assert T[(e - 1) + d] == t[e - 1];
  }
}
