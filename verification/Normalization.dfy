/** Normalising the content of a memory before it is stored. */
module Normalization {
  import opened Text

  function RStripSpaces(t: string): (r: string)
    ensures r <= t && (r != "" ==> !IsSpace(r[|r| - 1]))
  {
    if t != "" && IsSpace(t[|t| - 1]) then RStripSpaces(t[..|t| - 1]) else t
  }

  function Strip(t: string): string { RStripSpaces(t[LeadingSpaces(t)..]) }

  function CrToLf(t: string): (r: string)
    ensures |r| == |t| && forall k :: 0 <= k < |t| ==> r[k] == if t[k] == '\r' then '\n' else t[k]
  {
    seq(|t|, k requires 0 <= k < |t| => if t[k] == '\r' then '\n' else t[k])
  }

  /** The number of newlines at the start. */
  function NewlineRun(t: string): (n: nat)
    ensures n <= |t| && (forall k :: 0 <= k < n ==> t[k] == '\n') && (n < |t| ==> t[n] != '\n')
  {
    if t != "" && t[0] == '\n' then 1 + NewlineRun(t[1..]) else 0
  }

  /** Runs of three or more newlines become two. */
  function Collapse(t: string): string
    decreases |t|
  {
    if t == "" then ""
    else if t[0] != '\n' then [t[0]] + Collapse(t[1..])
    else
      var n := NewlineRun(t);
      (if n >= 3 then "\n\n" else t[..n]) + Collapse(t[n..])
  }

  function Normalize(text: string): string { Collapse(CrToLf(CrlfToLf(Strip(text)))) }

  // ----- what a normalised text looks like

  ghost predicate EndsSolid(t: string) { t != "" && !IsSpace(t[|t| - 1]) }

  /** Empty, or solid at both ends. */
  ghost predicate Trim(t: string) { t == "" || (!IsSpace(t[0]) && EndsSolid(t)) }

  lemma StripTrims(t: string)
    ensures Trim(Strip(t))
  {
    var rest := t[LeadingSpaces(t)..];
    assert rest != "" ==> rest[0] == t[LeadingSpaces(t)];
    assert Strip(t) <= rest;
  }

  lemma StripSame(t: string)
    requires Trim(t)
    ensures Strip(t) == t
  {
    assert LeadingSpaces(t) == 0;
    assert t[0..] == t;
  }

  lemma {:induction false} CrlfKeepsEnd(t: string)
    requires EndsSolid(t)
    ensures EndsSolid(CrlfToLf(t))
    decreases |t|
  {
    if |t| >= 2 && t[0] == '\r' && t[1] == '\n' {
      CrlfKeepsEnd(t[2..]);
    } else if |t| > 1 {
      CrlfKeepsEnd(t[1..]);
    }
  }

  lemma {:induction false} CollapseKeepsEnd(t: string)
    requires EndsSolid(t)
    ensures EndsSolid(Collapse(t))
    decreases |t|
  {
    if t[0] != '\n' {
      if |t| > 1 {
        CollapseKeepsEnd(t[1..]);
      }
    } else {
      CollapseKeepsEnd(t[NewlineRun(t)..]);
    }
  }

  ghost predicate NoTriple(t: string) {
    forall k :: 0 <= k < |t| - 2 ==> !(t[k] == '\n' && t[k + 1] == '\n' && t[k + 2] == '\n')
  }

  lemma {:induction false} CollapseHasNoTriple(t: string)
    ensures var r := Collapse(t);
      NoTriple(r) && (t != "" && t[0] != '\n' ==> r != "" && r[0] == t[0]) && (t == "" <==> r == "")
    decreases |t|
  {
    if t != "" {
      if t[0] != '\n' {
        CollapseHasNoTriple(t[1..]);
      } else {
        var n := NewlineRun(t);
        CollapseHasNoTriple(t[n..]);
        var head := if n >= 3 then "\n\n" else t[..n];
        NewlinesThen(head, Collapse(t[n..]));
      }
    }
  }

  lemma {:induction false} CollapseAddsNothing(t: string, c: char)
    requires c in Collapse(t)
    ensures c in t
    decreases |t|
  {
    if t[0] != '\n' {
      if c != t[0] {
        CollapseAddsNothing(t[1..], c);
      }
    } else if c != '\n' {
      CollapseAddsNothing(t[NewlineRun(t)..], c);
    }
  }

  lemma NewlinesThen(head: string, rest: string)
    requires |head| <= 2 && NoTriple(rest) && (rest != "" ==> rest[0] != '\n')
    ensures NoTriple(head + rest)
  {
    var t := head + rest;
    forall k | 0 <= k < |t| - 2 ensures !(t[k] == '\n' && t[k + 1] == '\n' && t[k + 2] == '\n') {
      if k >= |head| {
        assert t[k] == rest[k - |head|] && t[k + 1] == rest[k - |head| + 1] && t[k + 2] == rest[k - |head| + 2];
      } else {
        assert t[|head|] == rest[0];
      }
    }
  }

  lemma {:induction false} CollapseSame(t: string)
    requires NoTriple(t)
    ensures Collapse(t) == t
    decreases |t|
  {
    if t != "" {
      if t[0] != '\n' {
        NoTripleBehind(t, 1);
        CollapseSame(t[1..]);
      } else {
        var n := NewlineRun(t);
        ShortRun(t);
        NoTripleBehind(t, n);
        CollapseSame(t[n..]);
        assert t == t[..n] + t[n..];
      }
    }
  }

  lemma NoTripleBehind(t: string, n: nat)
    requires NoTriple(t) && n <= |t|
    ensures NoTriple(t[n..])
  {
    var r := t[n..];
    forall k | 0 <= k < |r| - 2 ensures !(r[k] == '\n' && r[k + 1] == '\n' && r[k + 2] == '\n') {
      assert r[k] == t[n + k] && r[k + 1] == t[n + k + 1] && r[k + 2] == t[n + k + 2];
    }
  }

  lemma ShortRun(t: string)
    requires NoTriple(t)
    ensures NewlineRun(t) < 3
  {
    assert |t| >= 3 ==> !(t[0] == '\n' && t[0 + 1] == '\n' && t[0 + 2] == '\n');
  }

  /** Trimmed, without carriage returns, and with at most one blank line in a row. */
  ghost predicate Normal(t: string) { Trim(t) && '\r' !in t && NoTriple(t) }

  lemma NormalizeIsNormal(text: string)
    ensures Normal(Normalize(text))
  {
    var s := Strip(text);
    var a := CrlfToLf(s);
    var b := CrToLf(a);
    StripTrims(text);
    CollapseHasNoTriple(b);
    assert '\r' !in b;
    if '\r' in Collapse(b) {
      CollapseAddsNothing(b, '\r');
    }
    if s != "" {
      CrlfKeepsEnd(s);
      assert a[0] == s[0] && b[0] == a[0];
      assert b[|b| - 1] == a[|a| - 1];
      CollapseKeepsEnd(b);
    }
  }

  lemma NormalStays(t: string)
    requires Normal(t)
    ensures Normalize(t) == t
  {
    StripSame(t);
    NoCarriageReturn(t);
    CollapseSame(t);
  }

  lemma NoCarriageReturn(t: string)
    requires '\r' !in t
    ensures CrlfToLf(t) == t && CrToLf(t) == t
  {
    CrlfToLfSame(t);
  }

  /** Exactly the normal texts are left alone, and one pass makes every text normal. */
  lemma NormalizeIdempotent(text: string)
    ensures Normalize(Normalize(text)) == Normalize(text)
    ensures Normalize(text) == text <==> Normal(text)
  {
    NormalizeIsNormal(text);
    NormalStays(Normalize(text));
    if Normal(text) {
      NormalStays(text);
    }
  }

  /** A normal text is blank only if it is empty. */
  lemma NormalNotBlank(t: string)
    requires Normal(t)
    ensures IsBlankText(t) <==> t == ""
  {
  }

  // ----- nothing but white space changes

  /** The characters that are not white space. */
  function Solid(t: string): string {
    if t == "" then "" else (if IsSpace(t[0]) then "" else [t[0]]) + Solid(t[1..])
  }

  lemma {:induction false} SolidConcat(a: string, b: string)
    ensures Solid(a + b) == Solid(a) + Solid(b)
  {
    if a == "" {
      assert a + b == b;
    } else {
      assert (a + b)[1..] == a[1..] + b;
      SolidConcat(a[1..], b);
    }
  }

  lemma {:induction false} NothingSolid(t: string)
    requires forall k :: 0 <= k < |t| ==> IsSpace(t[k])
    ensures Solid(t) == ""
  {
    if t != "" {
      NothingSolid(t[1..]);
    }
  }

  lemma {:induction false} RStripKeepsSolid(t: string)
    ensures Solid(RStripSpaces(t)) == Solid(t)
  {
    if t != "" && IsSpace(t[|t| - 1]) {
      var n := |t| - 1;
      RStripKeepsSolid(t[..n]);
      assert t == t[..n] + [t[n]];
      SolidConcat(t[..n], [t[n]]);
      NothingSolid([t[n]]);
    }
  }

  lemma StripKeepsSolid(t: string)
    ensures Solid(Strip(t)) == Solid(t)
  {
    var n := LeadingSpaces(t);
    assert t == t[..n] + t[n..];
    SolidConcat(t[..n], t[n..]);
    NothingSolid(t[..n]);
    RStripKeepsSolid(t[n..]);
  }

  lemma {:induction false} CrlfKeepsSolid(t: string)
    ensures Solid(CrlfToLf(t)) == Solid(t)
    decreases |t|
  {
    if |t| >= 2 && t[0] == '\r' && t[1] == '\n' {
      CrlfKeepsSolid(t[2..]);
      assert t[1..][1..] == t[2..];
      assert ("\n" + CrlfToLf(t[2..]))[1..] == CrlfToLf(t[2..]);
    } else if t != "" {
      CrlfKeepsSolid(t[1..]);
      assert ([t[0]] + CrlfToLf(t[1..]))[1..] == CrlfToLf(t[1..]);
    }
  }

  lemma {:induction false} CrKeepsSolid(t: string)
    ensures Solid(CrToLf(t)) == Solid(t)
  {
    if t != "" {
      assert CrToLf(t)[1..] == CrToLf(t[1..]);
      CrKeepsSolid(t[1..]);
    }
  }

  lemma {:induction false} CollapseKeepsSolid(t: string)
    ensures Solid(Collapse(t)) == Solid(t)
    decreases |t|
  {
    if t != "" {
      if t[0] != '\n' {
        CollapseKeepsSolid(t[1..]);
        assert ([t[0]] + Collapse(t[1..]))[1..] == Collapse(t[1..]);
      } else {
        var n := NewlineRun(t);
        CollapseKeepsSolid(t[n..]);
        assert t == t[..n] + t[n..];
        SolidConcat(t[..n], t[n..]);
        NothingSolid(t[..n]);
        var head := if n >= 3 then "\n\n" else t[..n];
        SolidConcat(head, Collapse(t[n..]));
        NothingSolid(head);
      }
    }
  }

  /** The characters that are not white space stay, all of them and in order. */
  lemma NormalizeKeepsSolid(text: string)
    ensures Solid(Normalize(text)) == Solid(text)
  {
    StripKeepsSolid(text);
    CrlfKeepsSolid(Strip(text));
    CrKeepsSolid(CrlfToLf(Strip(text)));
    CollapseKeepsSolid(CrToLf(CrlfToLf(Strip(text))));
  }
}
