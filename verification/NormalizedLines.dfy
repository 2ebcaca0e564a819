/** What normalising makes of the white space between two words. */
module NormalizedLines {
  import opened Normalization
  import opened Text

  /** Line ends: line feeds, and carriage returns that no line feed follows. */
  function LineEndsIn(w: string): nat {
    if w == "" then 0
    else (if w[0] == '\n' || (w[0] == '\r' && !(|w| >= 2 && w[1] == '\n')) then 1 else 0) + LineEndsIn(w[1..])
  }

  function Newlines(n: nat): (r: string)
    ensures |r| == n && forall k :: 0 <= k < n ==> r[k] == '\n'
  {
    seq(n, k => '\n')
  }

  /** All line ends become line feeds. */
  function Unix(t: string): string { CrToLf(CrlfToLf(t)) }

  lemma {:induction false} EndsBecomeNewlines(w: string)
    requires forall k :: 0 <= k < |w| ==> w[k] == '\r' || w[k] == '\n'
    ensures Unix(w) == Newlines(LineEndsIn(w))
    decreases |w|
  {
    if |w| >= 2 && w[0] == '\r' && w[1] == '\n' {
      EndsBecomeNewlines(w[2..]);
      assert w[1..][1..] == w[2..];
      OneNewline(CrlfToLf(w[2..]), '\n', LineEndsIn(w[2..]));
    } else if w != "" {
      EndsBecomeNewlines(w[1..]);
      OneNewline(CrlfToLf(w[1..]), w[0], LineEndsIn(w[1..]));
    }
  }

  lemma OneNewline(t: string, c: char, n: nat)
    requires CrToLf(t) == Newlines(n) && (c == '\r' || c == '\n')
    ensures CrToLf([c] + t) == Newlines(1 + n)
  {
    var r := CrToLf([c] + t);
    forall k | 0 <= k < |r| ensures r[k] == '\n' {
      if k > 0 {
        assert r[k] == CrToLf(t)[k - 1];
      }
    }
    assert |CrToLf(t)| == n;
  }

  lemma CollapseNewlines(n: nat)
    ensures Collapse(Newlines(n)) == Newlines(if n < 2 then n else 2)
  {
    var t := Newlines(n);
    if n > 0 {
      assert NewlineRun(t) == n;
      assert t[n..] == "";
      assert n == 1 ==> t[..n] == "\n";
    }
  }

  // ----- part by part

  lemma {:induction false} RStripPart(t: string, b: string)
    requires b != "" && !IsSpace(b[0])
    ensures RStripSpaces(t + b) == t + RStripSpaces(b)
    decreases |b|
  {
    if IsSpace(b[|b| - 1]) {
      assert (t + b)[..|t + b| - 1] == t + b[..|b| - 1];
      RStripPart(t, b[..|b| - 1]);
    }
  }

  lemma {:induction false} LeadingPart(a: string, t: string)
    requires EndsSolid(a)
    ensures LeadingSpaces(a + t) == LeadingSpaces(a) < |a|
  {
    if IsSpace(a[0]) {
      assert (a + t)[1..] == a[1..] + t;
      LeadingPart(a[1..], t);
    }
  }

  lemma SolidEnd(a: string)
    requires EndsSolid(a)
    ensures LeadingSpaces(a) < |a| && Strip(a) == a[LeadingSpaces(a)..] && EndsSolid(Strip(a))
  {
    LeadingPart(a, "");
    assert a + "" == a;
    var rest := a[LeadingSpaces(a)..];
    assert rest[|rest| - 1] == a[|a| - 1];
  }

  lemma SolidStart(b: string)
    requires b != "" && !IsSpace(b[0])
    ensures b[LeadingSpaces(b)..] == b && Strip(b) == RStripSpaces(b) && Strip(b) != "" && Strip(b)[0] == b[0]
  {
    RStripPart("", b);
    assert b == [b[0]] + b[1..];
    StartStays([b[0]], b[1..]);
  }

  lemma {:induction false} StartStays(head: string, rest: string)
    requires EndsSolid(head)
    ensures head <= RStripSpaces(head + rest)
    decreases |rest|
  {
    if rest == "" {
      assert head + rest == head;
    } else if IsSpace(rest[|rest| - 1]) {
      assert (head + rest)[..|head + rest| - 1] == head + rest[..|rest| - 1];
      StartStays(head, rest[..|rest| - 1]);
    }
  }

  /** Only the outer ends of a text in three parts are stripped. */
  lemma StripParts(a: string, w: string, b: string)
    requires EndsSolid(a) && b != "" && !IsSpace(b[0])
    ensures Strip(a + w + b) == Strip(a) + w + Strip(b)
  {
    var n := LeadingSpaces(a);
    SolidEnd(a);
    SolidStart(b);
    assert a + w + b == a + (w + b);
    LeadingPart(a, w + b);
    assert (a + w + b)[n..] == (a[n..] + w) + b;
    RStripPart(a[n..] + w, b);
    assert (a[n..] + w) + RStripSpaces(b) == a[n..] + w + RStripSpaces(b);
  }

  lemma UnixParts(a: string, b: string)
    requires a != "" && b != "" && a[|a| - 1] == '\r' ==> b[0] != '\n'
    ensures Unix(a + b) == Unix(a) + Unix(b)
  {
    CrlfToLfConcat(a, b);
    var x, y := CrlfToLf(a), CrlfToLf(b);
    assert CrToLf(x + y) == CrToLf(x) + CrToLf(y);
  }

  lemma {:induction false} CollapseParts(a: string, b: string)
    requires a != "" && b != "" && a[|a| - 1] == '\n' ==> b[0] != '\n'
    ensures Collapse(a + b) == Collapse(a) + Collapse(b)
    decreases |a|
  {
    if a == "" {
      assert a + b == b;
    } else if a[0] != '\n' {
      LastBehind(a, b, 1);
      CollapseParts(a[1..], b);
      OneMore(a, b, Collapse(b));
    } else {
      var n := NewlineRun(a);
      RunEnds(a, b);
      LastBehind(a, b, n);
      CollapseParts(a[n..], b);
      RunMore(a, b, n, Collapse(b));
    }
  }

  lemma LastBehind(a: string, b: string, n: nat)
    requires n <= |a| && (a != "" && b != "" && a[|a| - 1] == '\n' ==> b[0] != '\n')
    ensures a[n..] != "" && b != "" && a[n..][|a[n..]| - 1] == '\n' ==> b[0] != '\n'
  {
  }

  lemma OneMore(a: string, b: string, rest: string)
    requires a != "" && a[0] != '\n' && Collapse(a[1..] + b) == Collapse(a[1..]) + rest
    ensures Collapse(a + b) == Collapse(a) + rest
  {
    assert (a + b)[1..] == a[1..] + b;
    assert [a[0]] + (Collapse(a[1..]) + rest) == [a[0]] + Collapse(a[1..]) + rest;
  }

  lemma RunMore(a: string, b: string, n: nat, rest: string)
    requires a != "" && a[0] == '\n' && n == NewlineRun(a) == NewlineRun(a + b)
    requires Collapse(a[n..] + b) == Collapse(a[n..]) + rest
    ensures Collapse(a + b) == Collapse(a) + rest
  {
    assert (a + b)[n..] == a[n..] + b && (a + b)[..n] == a[..n];
    HeadInFront(if n >= 3 then "\n\n" else a[..n], Collapse(a[n..]), rest);
  }

  lemma HeadInFront(head: string, t: string, rest: string)
    ensures head + (t + rest) == head + t + rest
  {
  }

  lemma RunEnds(a: string, b: string)
    requires a != "" && b != "" && a[|a| - 1] == '\n' ==> b[0] != '\n'
    ensures a != "" ==> NewlineRun(a + b) == NewlineRun(a)
  {
    if a != "" {
      var n := NewlineRun(a);
      forall k | 0 <= k < n ensures (a + b)[k] == '\n' {
      }
      if n < |a| {
        assert (a + b)[n] == a[n];
      } else if b != "" {
        assert (a + b)[n] == b[0];
      }
      SameRun(a + b, n);
    }
  }

  lemma {:induction false} SameRun(t: string, n: nat)
    requires n <= |t| && (forall k :: 0 <= k < n ==> t[k] == '\n') && (n < |t| ==> t[n] != '\n')
    ensures NewlineRun(t) == n
  {
    if n > 0 {
      SameRun(t[1..], n - 1);
    }
  }

  lemma {:induction false} UnixKeepsEnds(t: string)
    requires t != ""
    ensures Unix(t) != ""
    ensures !IsSpace(t[0]) ==> Unix(t)[0] == t[0]
    ensures EndsSolid(t) ==> EndsSolid(Unix(t))
  {
    if EndsSolid(t) {
      CrlfKeepsEnd(t);
    }
  }

  /** A text in parts between words is normalised part by part, whatever stands between them. */
  lemma NormalizeParts(a: string, w: string, b: string)
    requires EndsSolid(a) && b != "" && !IsSpace(b[0])
    ensures Normalize(a + w + b) == Normalize(a) + Collapse(Unix(w)) + Normalize(b)
  {
    var A, B := Strip(a), Strip(b);
    StripParts(a, w, b);
    SolidEnd(a);
    SolidStart(b);
    Parts(A, w, B);
  }

  lemma Parts(A: string, w: string, B: string)
    requires EndsSolid(A) && B != "" && !IsSpace(B[0])
    ensures Collapse(Unix(A + w + B)) == Collapse(Unix(A)) + Collapse(Unix(w)) + Collapse(Unix(B))
  {
    assert IsSpace('\n') && IsSpace('\r');
    UnixParts(A + w, B);
    UnixParts(A, w);
    UnixKeepsEnds(A);
    UnixKeepsEnds(B);
    CollapseParts(Unix(A) + Unix(w), Unix(B));
    CollapseParts(Unix(A), Unix(w));
  }

  /** Line ends between two words, of whatever kinds: one stays one, and two or more become two. */
  lemma LinesBetween(a: string, w: string, b: string)
    requires EndsSolid(a) && b != "" && !IsSpace(b[0])
    requires forall k :: 0 <= k < |w| ==> w[k] == '\r' || w[k] == '\n'
    ensures Normalize(a + w + b)
         == Normalize(a) + Newlines(if LineEndsIn(w) < 2 then LineEndsIn(w) else 2) + Normalize(b)
  {
    NormalizeParts(a, w, b);
    EndsBecomeNewlines(w);
    CollapseNewlines(LineEndsIn(w));
  }

  /** Anything without line ends stays as it is, blanks included. */
  lemma InlineStays(a: string, w: string, b: string)
    requires EndsSolid(a) && b != "" && !IsSpace(b[0]) && '\r' !in w && '\n' !in w
    ensures Normalize(a + w + b) == Normalize(a) + w + Normalize(b)
  {
    NormalizeParts(a, w, b);
    NoCarriageReturn(w);
    CollapseSame(w);
  }
}
