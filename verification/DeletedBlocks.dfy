/** Deleting one marker block from a text: what happens to the other blocks. */
module DeletedBlocks {
  import opened Markers
  import opened Text
  import opened Wrappers

  /** T is t without what lies from b to x: a block that ends at n, and up to two newlines behind it. */
  ghost predicate Deleted(t: string, b: nat, n: nat, x: nat, T: string, d: int) {
    && b < n <= x <= |t| && t[n - 1] == '>' && (b > 0 ==> t[b - 1] == '\n')
    && T == t[..b] + t[x..] && d == b - x
    && (forall j :: n <= j < x ==> t[j] == '\n') && (x == n ==> n == |t| || t[n] != '\n')
  }

  lemma DeletedParts(t: string, b: nat, n: nat, x: nat, T: string, d: int)
    requires Deleted(t, b, n, x, T, d)
    ensures Agree(t, T, b) && SameTail(t, x, T, d)
  {
    forall j | x <= j < |t| ensures T[j + d] == t[j] {
      assert t[x..][j - x] == t[j];
    }
  }

  lemma WhatIsDeleted(t: string, name: string, b: nat, n: nat) returns (x: nat, d: int)
    requires ValidName(name) && FindBlock(t, name) == Some(Span(b, n))
    ensures Deleted(t, b, n, x, DeleteBlock(t, name), d)
  {
    SpanEdges(t, name, b, n);
    x := BehindNewlines(t, n);
    d := b - x;
    CutOut(t, name, b, n, x);
  }

  lemma BehindNewlines(t: string, n: nat) returns (x: nat)
    requires n <= |t|
    ensures n <= x <= |t| && (forall j :: n <= j < x ==> t[j] == '\n') && (x == n ==> n == |t| || t[n] != '\n')
    ensures x == n || (x == n + 1 && (x == |t| || t[x] != '\n')) || x == n + 2
  {
    x := if n < |t| && t[n] == '\n' then n + 1 else n;
    x := if n < x < |t| && t[x] == '\n' then x + 1 else x;
  }

  lemma CutOut(t: string, name: string, b: nat, n: nat, x: nat)
    requires FindBlock(t, name) == Some(Span(b, n)) && b <= n <= x <= |t|
    requires (forall j :: n <= j < x ==> t[j] == '\n') && (x == n ==> n == |t| || t[n] != '\n')
    requires x == n || (x == n + 1 && (x == |t| || t[x] != '\n')) || x == n + 2
    ensures DeleteBlock(t, name) == t[..b] + t[x..]
  {
    assert x > n ==> t[n] == '\n';
    assert x > n + 1 ==> t[n + 1] == '\n';
  }

  /** A block above the deleted one is found as before, with the same text. */
  lemma DeleteKeepsAbove(t: string, name: string, other: string, c: nat, o: nat)
    requires ValidName(name) && ValidName(other) && FindBlock(t, other) == Some(Span(c, o))
    requires FindBlock(t, name).Some? ==> o <= FindBlock(t, name).value.start
    ensures var T := DeleteBlock(t, name);
      FindBlock(T, other) == Some(Span(c, o)) && c <= o <= |t| && o <= |T| && T[c..o] == t[c..o]
  {
    var T := DeleteBlock(t, name);
    SpanEdges(t, other, c, o);
    if FindBlock(t, name).Some? {
      var b, n := FindBlock(t, name).value.start, FindBlock(t, name).value.end;
      var x, d := WhatIsDeleted(t, name, b, n);
      DeletedParts(t, b, n, x, T, d);
    }
    PrefixKeepsBlock(t, T, o, other);
    AgreeSlice(t, T, o, c);
  }

  /** Where another block's begin marker can be anchored after the deletion. */
  lemma AnchorAfter(t: string, b: nat, n: nat, x: nat, T: string, d: int, other: string, k: int)
    requires Deleted(t, b, n, x, T, d) && ValidName(other) && Anchor(T, Begin(other), 0, k)
    ensures k < b ==> Anchor(t, Begin(other), 0, k)
    ensures k == b ==> IsAt(t, Begin(other), x)
    ensures k > b ==> Anchor(t, Begin(other), 0, k - d)
  {
    DeletedParts(t, b, n, x, T, d);
    MarkerShape(other, Begin(other));
    if k < b {
      AnchorBefore(t, T, b, Begin(other), k);
    } else if k == b {
      ShiftIsAt(t, x, T, d, Begin(other), x);
    } else {
      ShiftAnchor(t, x, T, d, Begin(other), 0, 0, k - d);
    }
  }

  /** In the text, only what stands behind a newline is at the start of a line. */
  lemma BehindDeleted(t: string, b: nat, n: nat, x: nat, T: string, d: int, other: string, c: nat)
    requires Deleted(t, b, n, x, T, d) && ValidName(other) && n <= c && Anchor(t, Begin(other), 0, c)
    ensures x <= c && n < c && (c == x ==> n < x)
  {
    MarkerShape(other, Begin(other));
    assert t[c + 0] == Begin(other)[0];
  }

  /** The begin marker of a block further down stays the first, unless one has stood right behind the deleted block. */
  lemma FirstAfterIff(t: string, b: nat, n: nat, x: nat, T: string, d: int, other: string, c: nat, c': nat)
    requires Deleted(t, b, n, x, T, d) && ValidName(other) && FirstAt(t, other, c) && n <= c && c' == c + d
    ensures FirstAt(T, other, c') <==> !IsAt(t, Begin(other), n)
  {
    BehindDeleted(t, b, n, x, T, d, other, c);
    DeletedParts(t, b, n, x, T, d);
    MarkerShape(other, Begin(other));
    if IsAt(t, Begin(other), n) {
      assert t[n + 0] == Begin(other)[0];
      ShiftIsAt(t, x, T, d, Begin(other), n);
      LineStartKept(t, b, x, T);
      assert Anchor(T, Begin(other), 0, b);
    } else {
      FirstStays(t, b, n, x, T, d, other, c, c');
    }
  }

  lemma LineStartKept(t: string, b: nat, x: nat, T: string)
    requires b <= x <= |t| && T == t[..b] + t[x..]
    ensures b > 0 ==> T[b - 1] == t[b - 1]
  {
  }

  lemma FirstStays(t: string, b: nat, n: nat, x: nat, T: string, d: int, other: string, c: nat, c': nat)
    requires Deleted(t, b, n, x, T, d) && ValidName(other) && FirstAt(t, other, c) && n < c && x <= c && c' == c + d
    requires (c == x ==> n < x) && !IsAt(t, Begin(other), n)
    ensures FirstAt(T, other, c')
  {
    DeletedParts(t, b, n, x, T, d);
    if c == x {
      ShiftIsAt(t, x, T, d, Begin(other), c);
      LineStartKept(t, b, x, T);
    } else {
      ShiftAnchor(t, x, T, d, Begin(other), 0, 0, c);
    }
    forall k | k < c' ensures !Anchor(T, Begin(other), 0, k) {
      if Anchor(T, Begin(other), 0, k) {
        AnchorAfter(t, b, n, x, T, d, other, k);
        NoneBetween(t, b, n, x, T, d, other, c);
      }
    }
  }

  /** Right behind the newlines that are deleted too, a marker is at the start of a line already. */
  lemma NoneBetween(t: string, b: nat, n: nat, x: nat, T: string, d: int, other: string, c: nat)
    requires Deleted(t, b, n, x, T, d) && FirstAt(t, other, c) && !IsAt(t, Begin(other), n)
    ensures x < c ==> !IsAt(t, Begin(other), x)
  {
    if n < x {
      assert IsAt(t, Begin(other), x) ==> Anchor(t, Begin(other), 0, x);
    }
  }

  lemma EndMoves(t: string, b: nat, n: nat, x: nat, T: string, d: int, other: string, c: nat, c': nat, o: nat, o': nat)
    requires Deleted(t, b, n, x, T, d) && ValidName(other) && FindBlock(t, other) == Some(Span(c, o)) && n <= c
    requires c' == c + d && o' == o + d && FirstAt(T, other, c') && x <= c
    ensures FindBlock(T, other) == Some(Span(c', o'))
  {
    MarkerShape(other, Begin(other));
    var from, e := FoundAt(t, other, c, o);
    var from', e' := from + d, e + d;
    DeletedParts(t, b, n, x, T, d);
    ShiftFirst(t, x, T, d, End(other), from, from', e, e');
    SpanFound(T, other, c', from', e', o');
  }

  /**
    A block below the deleted one keeps its text, and is found where it has moved to if and only if no begin marker of
    its name stood right behind the deleted block's end: there it comes to stand at the start of a line.
   */
  lemma DeleteKeepsBelowIff(t: string, name: string, T: string, other: string, c: nat, o: nat, c': nat, o': nat)
    requires ValidName(name) && ValidName(other) && FindBlock(t, name).Some? && FindBlock(t, other) == Some(Span(c, o))
    requires FindBlock(t, name).value.end <= c && T == DeleteBlock(t, name)
    requires c' == c + |T| - |t| && o' == o + |T| - |t|
    ensures c <= o <= |t| && c' <= o' <= |T| && T[c'..o'] == t[c..o]
    ensures FindBlock(T, other) == Some(Span(c', o')) <==> !IsAt(t, Begin(other), FindBlock(t, name).value.end)
  {
    var b, n := FindBlock(t, name).value.start, FindBlock(t, name).value.end;
    var x, d := WhatIsDeleted(t, name, b, n);
    Below(t, b, n, x, T, d, other, c, o, c', o');
  }

  lemma Below(t: string, b: nat, n: nat, x: nat, T: string, d: int, other: string, c: nat, o: nat, c': nat, o': nat)
    requires Deleted(t, b, n, x, T, d) && ValidName(other) && FindBlock(t, other) == Some(Span(c, o)) && n <= c
    requires c' == c + d && o' == o + d
    ensures c <= o <= |t| && c' <= o' <= |T| && T[c'..o'] == t[c..o]
    ensures FindBlock(T, other) == Some(Span(c', o')) <==> !IsAt(t, Begin(other), n)
  {
    FoundFirst(t, other, c, o);
    BehindDeleted(t, b, n, x, T, d, other, c);
    TextMoves(t, b, n, x, T, d, other, c, o, c', o');
    FoundIff(t, b, n, x, T, d, other, c, o, c', o');
  }

  lemma TextMoves(t: string, b: nat, n: nat, x: nat, T: string, d: int, other: string, c: nat, o: nat, c': nat, o': nat)
    requires Deleted(t, b, n, x, T, d) && ValidName(other) && FindBlock(t, other) == Some(Span(c, o)) && x <= c
    requires c' == c + d && o' == o + d
    ensures c <= o <= |t| && c' <= o' <= |T| && T[c'..o'] == t[c..o]
  {
    SpanEdges(t, other, c, o);
    DeletedParts(t, b, n, x, T, d);
    TailSlice(t, x, T, d, c, o);
  }

  lemma FoundIff(t: string, b: nat, n: nat, x: nat, T: string, d: int, other: string, c: nat, o: nat, c': nat, o': nat)
    requires Deleted(t, b, n, x, T, d) && ValidName(other) && FindBlock(t, other) == Some(Span(c, o))
    requires n <= c && x <= c && c' == c + d && o' == o + d && FirstAt(t, other, c)
    ensures FindBlock(T, other) == Some(Span(c', o')) <==> !IsAt(t, Begin(other), n)
  {
    FirstAfterIff(t, b, n, x, T, d, other, c, c');
    if FirstAt(T, other, c') {
      EndMoves(t, b, n, x, T, d, other, c, c', o, o');
    } else if FindBlock(T, other) == Some(Span(c', o')) {
      FoundFirst(T, other, c', o');
    }
  }
}
