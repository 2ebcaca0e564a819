/**
  Masking of string literals and comments in SQL scripts, against a lexer that
  classifies every character by looking one character ahead.
 */
module SqlMask {

  /** What a character belongs to.  Only Code characters survive the masking. */
  datatype Lex =
    | Code
    | Line                                   // -- up to, not including, the newline
    | BlockSlash | BlockStar | Block | BlockEndStar | BlockEnd   // the parts of a block comment
    | Str | StrEscape | StrEnd               // inside a string, first of a doubled quote, closing quote

  predicate Two(s: string, i: nat, a: char, b: char) {
    i + 1 < |s| && s[i] == a && s[i + 1] == b
  }

  /** The class of a character met in code. */
  function Enter(s: string, i: nat): Lex
    requires i < |s|
  {
    if Two(s, i, '-', '-') then Line
    else if Two(s, i, '/', '*') then BlockSlash
    else if s[i] == '\'' then Str
    else Code
  }

  /** The class of a character, given that of the one before it. */
  function Follow(s: string, i: nat, before: Lex): Lex
    requires i < |s|
  {
    match before
    case Code => Enter(s, i)
    case BlockEnd => Enter(s, i)
    case StrEnd => Enter(s, i)
    case Line => if s[i] == '\n' then Code else Line
    case BlockSlash => BlockStar
    case BlockStar => if Two(s, i, '*', '/') then BlockEndStar else Block
    case Block => if Two(s, i, '*', '/') then BlockEndStar else Block
    case BlockEndStar => BlockEnd
    case Str => if Two(s, i, '\'', '\'') then StrEscape else if s[i] == '\'' then StrEnd else Str
    case StrEscape => Str
  }

  function LexAt(s: string, i: nat): Lex
    requires i < |s|
  {
    Follow(s, i, if i == 0 then Code else LexAt(s, i - 1))
  }

  /** The text with everything but code blanked out. */
  function Masked(s: string): (r: string)
    ensures |r| == |s|
    ensures forall i :: 0 <= i < |s| ==> r[i] == if LexAt(s, i).Code? then s[i] else ' '
  {
    seq(|s|, i requires 0 <= i < |s| => if LexAt(s, i).Code? then s[i] else ' ')
  }

  // ----- the masker

  /** At i the masker is between tokens. */
  ghost predicate Boundary(s: string, i: nat) {
    i < |s| ==> LexAt(s, i) == Enter(s, i)
  }

  ghost predicate Blanked(s: string, i: nat, j: nat) {
    i <= j <= |s| && forall k :: i <= k < j ==> !LexAt(s, k).Code?
  }

  /** The end of a line comment that starts at i: the next newline, or the end of the text. */
  method EndOfLine(s: string, i: nat) returns (j: nat)
    requires i < |s| && LexAt(s, i) == Line
    ensures i < j && Blanked(s, i, j) && Boundary(s, j)
  {
    j := i + 1;
    while j < |s| && s[j] != '\n'
      invariant i < j <= |s| && Blanked(s, i, j) && LexAt(s, j - 1) == Line
    {
      j := j + 1;
    }
  }

  /** The end of a block comment that starts at i: past the next end mark from i + 2 on, or the end of the text. */
  method EndOfBlock(s: string, i: nat) returns (j: nat)
    requires Two(s, i, '/', '*') && LexAt(s, i) == BlockSlash
    ensures i < j && Blanked(s, i, j) && Boundary(s, j)
  {
    j := i + 2;
    assert LexAt(s, i + 1) == BlockStar;
    while j < |s| && !Two(s, j, '*', '/')
      invariant i + 2 <= j <= |s| && Blanked(s, i, j)
      invariant LexAt(s, j - 1) == BlockStar || LexAt(s, j - 1) == Block
    {
      j := j + 1;
    }
    if j < |s| {
      assert LexAt(s, j) == BlockEndStar && LexAt(s, j + 1) == BlockEnd;
      j := j + 2;
    }
  }

  /** The end of a string that starts at i; a doubled quote does not end it. */
  method EndOfString(s: string, i: nat) returns (j: nat)
    requires i < |s| && LexAt(s, i) == Str
    ensures i < j && Blanked(s, i, j) && Boundary(s, j)
  {
    j := i + 1;
    while j < |s|
      invariant i < j <= |s| && Blanked(s, i, j) && LexAt(s, j - 1) == Str
    {
      if s[j] == '\'' {
        if j + 1 < |s| && s[j + 1] == '\'' {
          assert LexAt(s, j) == StrEscape && LexAt(s, j + 1) == Str;
          j := j + 2;
          continue;
        }
        assert LexAt(s, j) == StrEnd;
        j := j + 1;
        return;
      }
      j := j + 1;
    }
  }

  function Blanks(n: nat): (r: string)
    ensures |r| == n && forall i :: 0 <= i < n ==> r[i] == ' '
  {
    seq(n, _ => ' ')
  }

  /** Masks token by token, and so computes what the lexer says character by character. */
  method Mask(s: string) returns (out: string)
    ensures out == Masked(s)
  {
    out := "";
    var i := 0;
    while i < |s|
      invariant i <= |s| && out == Masked(s)[..i] && Boundary(s, i)
    {
      var j;
      if Two(s, i, '-', '-') {
        j := EndOfLine(s, i);
        out := out + Blanks(j - i);
      } else if Two(s, i, '/', '*') {
        j := EndOfBlock(s, i);
        out := out + Blanks(j - i);
      } else if s[i] == '\'' {
        j := EndOfString(s, i);
        out := out + Blanks(j - i);
      } else {
        j := i + 1;
        out := out + [s[i]];
      }
      i := j;
    }
  }

  // ----- what masking guarantees

  /** No string and no comment starts anywhere. */
  ghost predicate NoTokens(s: string) {
    forall i :: 0 <= i < |s| ==> s[i] != '\'' && !Two(s, i, '-', '-') && !Two(s, i, '/', '*')
  }

  /** A code character does not start a token. */
  lemma CodeIsPlain(s: string, i: nat)
    requires i < |s| && LexAt(s, i) == Code
    ensures s[i] != '\'' && !Two(s, i, '-', '-') && !Two(s, i, '/', '*')
  {
  }

  /** Nothing is left to mistake for a string or a comment, and what is left is unchanged and in place. */
  lemma MaskedHasNoTokens(s: string)
    ensures NoTokens(Masked(s))
  {
    forall i | 0 <= i < |s|
      ensures Masked(s)[i] != '\'' && !Two(Masked(s), i, '-', '-') && !Two(Masked(s), i, '/', '*')
    {
      if LexAt(s, i) == Code {
        CodeIsPlain(s, i);
      }
    }
  }

  lemma {:induction false} PlainIsCode(s: string, i: nat)
    requires NoTokens(s) && i < |s|
    ensures LexAt(s, i) == Code
  {
    if i > 0 {
      PlainIsCode(s, i - 1);
    }
  }

  /** A text without tokens is left alone, and only such a text is. */
  lemma MaskedFixpoint(s: string)
    ensures Masked(s) == s <==> NoTokens(s)
  {
    if NoTokens(s) {
      forall i | 0 <= i < |s| ensures LexAt(s, i) == Code {
        PlainIsCode(s, i);
      }
    }
    MaskedHasNoTokens(s);
  }

  lemma MaskedIdempotent(s: string)
    ensures Masked(Masked(s)) == Masked(s)
  {
    MaskedHasNoTokens(s);
    MaskedFixpoint(Masked(s));
  }
}
