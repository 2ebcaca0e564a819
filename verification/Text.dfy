/** Searching and trimming strings. */
module Text {

  /** needle occurs in text at position i. */
  predicate IsAt(text: string, needle: string, i: int) {
    0 <= i && i + |needle| <= |text| && forall k :: 0 <= k < |needle| ==> text[i + k] == needle[k]
  }

  /** The first occurrence of needle from position start on, or -1. */
  function Find(text: string, needle: string, start: nat): (r: int)
    ensures r >= 0 ==> start <= r && IsAt(text, needle, r) && forall k :: start <= k < r ==> !IsAt(text, needle, k)
    ensures r < 0 ==> r == -1 && forall k :: start <= k ==> !IsAt(text, needle, k)
    decreases |text| - start
  {
    if start > |text| then -1
    else if IsAt(text, needle, start) then start
    else Find(text, needle, start + 1)
  }

  /** The last occurrence of needle, or -1. */
  function RFind(text: string, needle: string): (r: int)
    ensures r >= 0 ==> IsAt(text, needle, r)
    ensures r < 0 ==> r == -1 && forall k :: !IsAt(text, needle, k)
    ensures forall k :: IsAt(text, needle, k) ==> k <= r
  {
    RFindBelow(text, needle, |text| + 1)
  }

  function RFindBelow(text: string, needle: string, bound: nat): (r: int)
    ensures -1 <= r < bound && (r >= 0 ==> IsAt(text, needle, r))
    ensures forall k :: r < k < bound ==> !IsAt(text, needle, k)
  {
    if bound == 0 then -1
    else if IsAt(text, needle, bound - 1) then bound - 1
    else RFindBelow(text, needle, bound - 1)
  }

  /** Trailing newlines removed. */
  function RStripNewlines(t: string): (r: string)
    ensures r <= t
    ensures forall k :: |r| <= k < |t| ==> t[k] == '\n'
    ensures r != "" ==> r[|r| - 1] != '\n'
  {
    if t != "" && t[|t| - 1] == '\n' then RStripNewlines(t[..|t| - 1]) else t
  }

  /** Leading newlines removed. */
  function LStripNewlines(t: string): string {
    if t != "" && t[0] == '\n' then LStripNewlines(t[1..]) else t
  }

  /** Every CR LF pair becomes a LF. */
  function CrlfToLf(t: string): (r: string)
    ensures |r| <= |t|
  {
    if |t| >= 2 && t[0] == '\r' && t[1] == '\n' then "\n" + CrlfToLf(t[2..])
    else if t == "" then ""
    else [t[0]] + CrlfToLf(t[1..])
  }

  /** A pair is not split: the two parts may be converted separately. */
  lemma {:induction false} CrlfToLfConcat(a: string, b: string)
    requires a != "" && b != "" && a[|a| - 1] == '\r' ==> b[0] != '\n'
    ensures CrlfToLf(a + b) == CrlfToLf(a) + CrlfToLf(b)
    decreases |a|
  {
    if a == "" {
      assert a + b == b;
    } else if |a| >= 2 && a[0] == '\r' && a[1] == '\n' {
      assert (a + b)[2..] == a[2..] + b;
      CrlfToLfConcat(a[2..], b);
    } else {
      assert (a + b)[1..] == a[1..] + b;
      assert |a| == 1 ==> a[1..] == "";
      CrlfToLfConcat(a[1..], b);
    }
  }

  /** A text in which no line feed follows a carriage return stays as it is. */
  lemma {:induction false} CrlfToLfSame(t: string)
    requires forall i :: 0 <= i < |t| - 1 ==> !(t[i] == '\r' && t[i + 1] == '\n')
    ensures CrlfToLf(t) == t
    decreases |t|
  {
    if t != "" {
      CrlfToLfSame(t[1..]);
    }
  }

  /** A final line feed survives. */
  lemma {:induction false} CrlfToLfEndsInLf(t: string)
    requires t != "" && t[|t| - 1] == '\n'
    ensures var r := CrlfToLf(t); r != "" && r[|r| - 1] == '\n'
    decreases |t|
  {
    if |t| >= 2 && t[0] == '\r' && t[1] == '\n' {
      if |t| > 2 {
        CrlfToLfEndsInLf(t[2..]);
      }
    } else if |t| > 1 {
      CrlfToLfEndsInLf(t[1..]);
    }
  }

  /** White space as Python's str.isspace and the regular-expression class for it see it. */
  predicate IsSpace(c: char) {
    || '\t' <= c <= '\r' || '\U{1c}' <= c <= ' ' || c == '\U{85}' || c == '\U{a0}' || c == '\U{1680}'
    || '\U{2000}' <= c <= '\U{200a}' || c == '\U{2028}' || c == '\U{2029}' || c == '\U{202f}' || c == '\U{205f}'
    || c == '\U{3000}'
  }

  predicate IsBlankText(t: string) { forall k :: 0 <= k < |t| ==> IsSpace(t[k]) }

  /** The number of white-space characters at the start. */
  function LeadingSpaces(t: string): (r: nat)
    ensures r <= |t| && (forall k :: 0 <= k < r ==> IsSpace(t[k])) && (r < |t| ==> !IsSpace(t[r]))
  {
    if t != "" && IsSpace(t[0]) then 1 + LeadingSpaces(t[1..]) else 0
  }
}
