/** What the masker does with each kind of token at the start of a script, and so, token by token, with all of it. */
module SqlTokens {
  import opened SqlMask

  /** Behind a boundary the classes are those of the rest on its own. */
  lemma {:induction false} RestOnItsOwn(s: string, n: nat, i: nat)
    requires n <= i < |s| && Boundary(s, n)
    ensures LexAt(s, i) == LexAt(s[n..], i - n)
    decreases i
  {
    assert forall k :: 0 <= k < |s[n..]| ==> s[n..][k] == s[n + k];
    if i > n {
      RestOnItsOwn(s, n, i - 1);
    }
  }

  lemma RestMasked(s: string, n: nat, i: nat)
    requires n <= i < |s| && Boundary(s, n)
    ensures Masked(s)[i] == Masked(s[n..])[i - n]
  {
    RestOnItsOwn(s, n, i);
  }

  /** A start without code is blanked, and the rest masked on its own. */
  lemma BlankStart(s: string, n: nat)
    requires n <= |s| && Boundary(s, n) && forall k :: 0 <= k < n ==> !LexAt(s, k).Code?
    ensures Masked(s) == Blanks(n) + Masked(s[n..])
  {
    forall i: nat | n <= i < |s| ensures Masked(s)[i] == Masked(s[n..])[i - n] {
      RestMasked(s, n, i);
    }
    TwoParts(Masked(s), n, Blanks(n), Masked(s[n..]));
  }

  lemma TwoParts(m: string, n: nat, head: string, rest: string)
    requires |head| == n <= |m| && |rest| == |m| - n
    requires (forall k :: 0 <= k < n ==> m[k] == head[k]) && forall i :: n <= i < |m| ==> m[i] == rest[i - n]
    ensures m == head + rest
  {
  }

  /** A character that opens no string and no comment stays. */
  lemma CodeStays(c: char, rest: string)
    requires c != '\'' && !(rest != "" && ((c == '-' && rest[0] == '-') || (c == '/' && rest[0] == '*')))
    ensures Masked([c] + rest) == [c] + Masked(rest)
  {
    OneCode([c] + rest, c, rest);
  }

  lemma OneCode(s: string, c: char, rest: string)
    requires s != "" && s[1..] == rest && s[0] == c != '\'' && !Two(s, 0, '-', '-') && !Two(s, 0, '/', '*')
    ensures Masked(s) == [c] + Masked(rest)
  {
    assert LexAt(s, 0) == Code;
    forall i: nat | 1 <= i < |s| ensures Masked(s)[i] == Masked(rest)[i - 1] {
      RestMasked(s, 1, i);
    }
    TwoParts(Masked(s), 1, [c], Masked(rest));
  }

  lemma {:induction false} InLine(s: string, c: string, k: nat)
    requires "--" + c <= s && '\n' !in c && k < 2 + |c|
    ensures LexAt(s, k) == Line
    decreases k
  {
    assert s[0] == '-' && s[1] == '-';
    if k > 0 {
      InLine(s, c, k - 1);
      assert k > 1 ==> s[k] == ("--" + c)[k] == c[k - 2];
    }
  }

  /** A line comment is blanked up to its newline, which stays; without a newline to the end. */
  lemma LineCommentBlanked(c: string, rest: string)
    requires '\n' !in c && (rest == "" || rest[0] == '\n')
    ensures Masked("--" + c + rest) == Blanks(2 + |c|) + Masked(rest)
  {
    var s := "--" + c + rest;
    var n := 2 + |c|;
    forall k: nat | k < n ensures !LexAt(s, k).Code? {
      InLine(s, c, k);
    }
    assert s[n..] == rest;
    if n < |s| {
      assert s[n] == '\n';
      InLine(s, c, n - 1);
    }
    BlankStart(s, n);
  }

  /** No end mark begins in c, whatever follows it begins with. */
  ghost predicate NoEndMark(c: string, rest: string) {
    forall k :: 0 <= k < |c| && k + 1 < |c + rest| ==> !((c + rest)[k] == '*' && (c + rest)[k + 1] == '/')
  }

  lemma {:induction false} InBlock(s: string, c: string, rest: string, k: nat)
    requires s == "/*" + c + rest && NoEndMark(c, rest) && 1 <= k < 2 + |c|
    ensures LexAt(s, 0) == BlockSlash && (LexAt(s, k) == BlockStar || LexAt(s, k) == Block)
    decreases k
  {
    assert s[0] == '/' && s[1] == '*';
    if k > 1 {
      InBlock(s, c, rest, k - 1);
      var t := c + rest;
      assert s[k] == t[k - 2] && (k + 1 < |s| ==> s[k + 1] == t[k - 1]);
    }
  }

  /** A block comment is blanked with its marks; one that does not end is blanked to the end. */
  lemma BlockCommentBlanked(c: string, rest: string)
    requires NoEndMark(c, "*/" + rest)
    ensures Masked("/*" + c + "*/" + rest) == Blanks(4 + |c|) + Masked(rest)
  {
    var s := "/*" + c + "*/" + rest;
    var n := 4 + |c|;
    var m := n - 2;
    assert s == "/*" + c + ("*/" + rest);
    forall k: nat | k < m ensures !LexAt(s, k).Code? {
      InBlock(s, c, "*/" + rest, if k == 0 then 1 else k);
    }
    InBlock(s, c, "*/" + rest, m - 1);
    assert s[m] == '*' && s[m + 1] == '/';
    assert LexAt(s, m) == BlockEndStar && LexAt(s, m + 1) == BlockEnd;
    assert s[n..] == rest;
    BlankStart(s, n);
  }

  lemma OpenBlockBlanked(c: string)
    requires NoEndMark(c, "")
    ensures Masked("/*" + c) == Blanks(2 + |c|)
  {
    var s := "/*" + c;
    assert s == "/*" + c + "" && s[|s|..] == "";
    forall k: nat | k < |s| ensures !LexAt(s, k).Code? {
      InBlock(s, c, "", if k == 0 then 1 else k);
    }
    BlankStart(s, |s|);
  }

  /** Quotes only in pairs. */
  ghost predicate Doubled(c: string)
    decreases |c|
  {
    c == ""
    || (c[0] != '\'' && Doubled(c[1..]))
    || (|c| >= 2 && c[0] == '\'' && c[1] == '\'' && Doubled(c[2..]))
  }

  /** From inside a string through c. */
  lemma {:induction false} InString(s: string, p: nat, c: string, k: nat)
    requires 0 < p && p + |c| <= |s| && s[p..p + |c|] == c && Doubled(c) && LexAt(s, p - 1) == Str
    ensures LexAt(s, p + |c| - 1) == Str
    ensures p <= k < p + |c| ==> !LexAt(s, k).Code?
    decreases |c|
  {
    if c != "" {
      assert s[p] == c[0];
      if c[0] != '\'' {
        assert s[p + 1..p + 1 + |c[1..]|] == c[1..];
        InString(s, p + 1, c[1..], k);
      } else {
        assert s[p + 1] == c[1];
        assert LexAt(s, p) == StrEscape && LexAt(s, p + 1) == Str;
        assert s[p + 2..p + 2 + |c[2..]|] == c[2..];
        InString(s, p + 2, c[2..], k);
      }
    }
  }

  /** A string is blanked with its quotes, a doubled quote being part of it. */
  lemma StringBlanked(c: string, rest: string)
    requires Doubled(c) && (rest == "" || rest[0] != '\'')
    ensures Masked("'" + c + "'" + rest) == Blanks(2 + |c|) + Masked(rest)
  {
    var s := "'" + c + "'" + rest;
    var n := 2 + |c|;
    Quoted(s, c, n, rest);
    assert s[n..] == rest;
    BlankStart(s, n);
  }

  lemma Quoted(s: string, c: string, n: nat, rest: string)
    requires Doubled(c) && (rest == "" || rest[0] != '\'') && s == "'" + c + "'" + rest && n == 2 + |c|
    ensures Boundary(s, n) && forall k :: 0 <= k < n ==> !LexAt(s, k).Code?
  {
    assert s[0] == '\'' && s[n - 1] == '\'' && s[1..1 + |c|] == c;
    assert n < |s| ==> s[n] == rest[0];
    AfterOpening(s, c, n);
  }

  lemma AfterOpening(s: string, c: string, n: nat)
    requires Doubled(c) && n == 2 + |c| <= |s| && s[0] == '\'' && s[n - 1] == '\'' && s[1..1 + |c|] == c
    requires n < |s| ==> s[n] != '\''
    ensures Boundary(s, n) && forall k :: 0 <= k < n ==> !LexAt(s, k).Code?
  {
    assert LexAt(s, 0) == Str;
    forall k: nat | k < n - 1 ensures !LexAt(s, k).Code? {
      InString(s, 1, c, k);
    }
    InString(s, 1, c, 0);
    assert LexAt(s, n - 1) == StrEnd;
  }

  /** So is a string that does not end, up to the end of the text. */
  lemma OpenStringBlanked(c: string)
    requires Doubled(c)
    ensures Masked("'" + c) == Blanks(1 + |c|)
  {
    var s := "'" + c;
    assert s[0] == '\'' && s[1..1 + |c|] == c && s[|s|..] == "";
    assert LexAt(s, 0) == Str;
    forall k: nat | k < |s| ensures !LexAt(s, k).Code? {
      InString(s, 1, c, k);
    }
    BlankStart(s, |s|);
  }
}
