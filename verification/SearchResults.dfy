/**
  From scored candidates to results: the stable sort, the blend with rerank scores, and one result per content hash.
 */
module SearchResults {
  import opened Ids
  import opened Multisets
  import opened Wrappers

  datatype Candidate = Candidate(row: Id, hash: Id, score: real)

  // ----- the stable descending sort

  /** c put behind the last candidate that scores at least as much. */
  function Insert(sorted: seq<Candidate>, c: Candidate): (r: seq<Candidate>)
    ensures |r| == |sorted| + 1
  {
    if sorted == [] then [c]
    else if sorted[|sorted| - 1].score >= c.score then sorted + [c]
    else Insert(sorted[..|sorted| - 1], c) + [sorted[|sorted| - 1]]
  }

  function SortDesc(s: seq<Candidate>): seq<Candidate> {
    if s == [] then [] else Insert(SortDesc(s[..|s| - 1]), s[|s| - 1])
  }

  ghost predicate Descending(s: seq<Candidate>) {
    forall i, j :: 0 <= i < j < |s| ==> s[i].score >= s[j].score
  }

  /** The candidates with this score, in their order. */
  ghost function WithScore(s: seq<Candidate>, score: real): seq<Candidate> {
    if s == [] then []
    else WithScore(s[..|s| - 1], score) + (if s[|s| - 1].score == score then [s[|s| - 1]] else [])
  }

  lemma {:induction false} InsertRearranges(s: seq<Candidate>, c: Candidate)
    ensures multiset(Insert(s, c)) == multiset(s) + multiset{c}
  {
    if s != [] && s[|s| - 1].score < c.score {
      var n := |s| - 1;
      InsertRearranges(s[..n], c);
      assert s == s[..n] + [s[n]];
    }
  }

  lemma {:induction false} InsertOrders(s: seq<Candidate>, c: Candidate)
    requires Descending(s)
    ensures var r := Insert(s, c); Descending(r) && forall x :: x in r ==> x in s || x == c
  {
    if s != [] && s[|s| - 1].score < c.score {
      var n := |s| - 1;
      InsertOrders(s[..n], c);
      assert s == s[..n] + [s[n]];
      LastIsLeast(Insert(s[..n], c), s[..n], c, s[n]);
    }
  }

  lemma {:induction false} InsertIsStable(s: seq<Candidate>, c: Candidate, score: real)
    requires Descending(s)
    ensures WithScore(Insert(s, c), score) == WithScore(s, score) + (if c.score == score then [c] else [])
  {
    var r := Insert(s, c);
    if s != [] {
      var n := |s| - 1;
      if s[n].score >= c.score {
        assert r[..|s|] == s;
      } else {
        InsertIsStable(s[..n], c, score);
        assert r[..|s|] == Insert(s[..n], c) && r[|s|] == s[n];
        if c.score == score {
          NotLast(s, score);
        }
      }
    }
  }

  lemma LastIsLeast(r: seq<Candidate>, s: seq<Candidate>, c: Candidate, last: Candidate)
    requires Descending(r) && Descending(s + [last]) && last.score < c.score
    requires forall x :: x in r ==> x in s || x == c
    ensures Descending(r + [last])
  {
    forall i | 0 <= i < |r| ensures r[i].score >= last.score {
      if r[i] in s {
        var k :| 0 <= k < |s| && s[k] == r[i];
        assert (s + [last])[k].score >= (s + [last])[|s|].score;
      }
    }
  }

  lemma {:induction false} SortRearranges(s: seq<Candidate>)
    ensures multiset(SortDesc(s)) == multiset(s)
  {
    if s != [] {
      var n := |s| - 1;
      SortRearranges(s[..n]);
      InsertRearranges(SortDesc(s[..n]), s[n]);
      InitAndLast(s, n);
    }
  }

  lemma InitAndLast(s: seq<Candidate>, n: nat)
    requires |s| == n + 1
    ensures multiset(s[..n]) + multiset{s[n]} == multiset(s)
  {
    assert s == s[..n] + [s[n]];
  }

  lemma {:induction false} SortDescends(s: seq<Candidate>)
    ensures Descending(SortDesc(s))
  {
    if s != [] {
      SortDescends(s[..|s| - 1]);
      InsertOrders(SortDesc(s[..|s| - 1]), s[|s| - 1]);
    }
  }

  /** The sort rearranges, puts higher scores first, and keeps equal scores in their order. */
  lemma {:induction false} SortDescSorts(s: seq<Candidate>, score: real)
    ensures var r := SortDesc(s);
        Descending(r) && multiset(r) == multiset(s) && WithScore(r, score) == WithScore(s, score)
  {
    SortDescends(s);
    SortRearranges(s);
    if s != [] {
      SortDescSorts(s[..|s| - 1], score);
      InsertIsStable(SortDesc(s[..|s| - 1]), s[|s| - 1], score);
    }
  }

  lemma {:induction false} WithScoreHas(s: seq<Candidate>, score: real)
    ensures WithScore(s, score) != [] <==> exists k :: 0 <= k < |s| && s[k].score == score
  {
    if s != [] {
      WithScoreHas(s[..|s| - 1], score);
    }
  }

  lemma {:induction false} WithScoreLast(s: seq<Candidate>, score: real)
    requires s != [] && s[|s| - 1].score == score
    ensures var w := WithScore(s, score);
        w != [] && w[|w| - 1] == s[|s| - 1] && WithScore(s[..|s| - 1], score) == w[..|w| - 1]
  {
  }

  /** No other list is a stable descending arrangement. */
  lemma {:induction false} StableSortUnique(a: seq<Candidate>, b: seq<Candidate>)
    requires Descending(a) && Descending(b) && forall score :: WithScore(a, score) == WithScore(b, score)
    ensures a == b
    decreases |a|
  {
    if a == [] || b == [] {
      if a != [] {
        WithScoreHas(a, a[0].score);
        WithScoreHas(b, a[0].score);
      }
      if b != [] {
        WithScoreHas(a, b[0].score);
        WithScoreHas(b, b[0].score);
      }
    } else {
      var m, n := |a| - 1, |b| - 1;
      LastNotAbove(a, b);
      LastNotAbove(b, a);
      var score := a[m].score;
      WithScoreLast(a, score);
      WithScoreLast(b, score);
      forall s ensures WithScore(a[..m], s) == WithScore(b[..n], s) {
        assert WithScore(a, s) == WithScore(b, s);
        if s == score {
        } else {
          NotLast(a, s);
          NotLast(b, s);
        }
      }
      StableSortUnique(a[..m], b[..n]);
      assert a == a[..m] + [a[m]] && b == b[..n] + [b[n]];
    }
  }

  lemma NotLast(s: seq<Candidate>, score: real)
    requires s != [] && s[|s| - 1].score != score
    ensures WithScore(s, score) == WithScore(s[..|s| - 1], score)
  {
  }

  lemma LastNotAbove(a: seq<Candidate>, b: seq<Candidate>)
    requires a != [] && b != [] && Descending(b) && forall score :: WithScore(a, score) == WithScore(b, score)
    ensures b[|b| - 1].score <= a[|a| - 1].score
  {
    var score := a[|a| - 1].score;
    WithScoreHas(a, score);
    assert WithScore(a, score) == WithScore(b, score);
    WithScoreHas(b, score);
    var k :| 0 <= k < |b| && b[k].score == score;
    assert k < |b| - 1 ==> b[k].score >= b[|b| - 1].score;
  }

  // ----- blending in the rerank scores

  /** The weights of the fused score at positions 1 to 3, 4 to 10 and from 11 on. */
  datatype Curve = Curve(top: real, middle: real, rest: real)

  function WeightAt(curve: Curve, position: nat): real {
    if position <= 3 then curve.top else if position <= 10 then curve.middle else curve.rest
  }

  /** A position counted from 1; without a rerank score the fused score stays. */
  function BlendedScore(curve: Curve, score: real, llm: Option<real>, position: nat): real {
    match llm
    case None => score
    case Some(l) => WeightAt(curve, position) * score + (1.0 - WeightAt(curve, position)) * l
  }

  lemma BlendBetween(curve: Curve, score: real, l: real, position: nat)
    requires 0.0 <= WeightAt(curve, position) <= 1.0
    ensures var b := BlendedScore(curve, score, Some(l), position);
      (if score <= l then score <= b <= l else l <= b <= score)
  {
    var w := WeightAt(curve, position);
    var b := BlendedScore(curve, score, Some(l), position);
    assert b - l == w * (score - l);
    assert score - b == (1.0 - w) * (score - l);
    Sign(w, score - l);
    Sign(1.0 - w, score - l);
  }

  lemma Sign(w: real, x: real)
    requires w >= 0.0
    ensures (x >= 0.0 ==> w * x >= 0.0) && (x <= 0.0 ==> w * x <= 0.0)
  {
  }

  /** scores[i] is what the reranker says of position i + 1. */
  function Blend(curve: Curve, head: seq<Candidate>, scores: seq<Option<real>>): seq<Candidate>
    requires |scores| == |head|
  {
    seq(|head|, i requires 0 <= i < |head| => head[i].(score := BlendedScore(curve, head[i].score, scores[i], i + 1)))
  }

  function Scored(scores: seq<Option<real>>): nat {
    if scores == [] then 0 else Scored(scores[..|scores| - 1]) + if scores[|scores| - 1].Some? then 1 else 0
  }

  function Coverage(scores: seq<Option<real>>): real {
    (Scored(scores) as real) / ((if |scores| > 1 then |scores| else 1) as real)
  }

  function Rerank(curve: Curve, cands: seq<Candidate>, scores: seq<Option<real>>, minCoverage: real): seq<Candidate>
    requires |scores| <= |cands|
  {
    if Coverage(scores) < minCoverage then cands
    else SortDesc(Blend(curve, cands[..|scores|], scores)) + cands[|scores|..]
  }

  method ApplyRerankBlend(curve: Curve, cands: seq<Candidate>, scores: seq<Option<real>>, topK: nat, minCoverage: real)
    returns (out: seq<Candidate>)
    requires |scores| == if topK < |cands| then topK else |cands|
    ensures out == Rerank(curve, cands, scores, minCoverage)
  {
    var n := if topK < |cands| then topK else |cands|;
    var head, tail := cands[..n], cands[n..];
    if Coverage(scores) < minCoverage {
      return cands;
    }
    var newHead := [];
    for i := 0 to |head|
      invariant newHead == Blend(curve, head, scores)[..i]
    {
      newHead := newHead + [head[i].(score := BlendedScore(curve, head[i].score, scores[i], i + 1))];
    }
    assert newHead == Blend(curve, head, scores);
    return SortDesc(newHead) + tail;
  }

  function RowsOf(s: seq<Candidate>): seq<Id> { seq(|s|, i requires 0 <= i < |s| => s[i].row) }

  lemma {:induction false} RowsOfRearranged(a: seq<Candidate>, b: seq<Candidate>)
    requires multiset(a) == multiset(b)
    ensures multiset(RowsOf(a)) == multiset(RowsOf(b))
    decreases |a|
  {
    if a == [] {
      assert |multiset(b)| == 0;
    } else {
      var init, c, b1, b2 := TakeOut(a, b);
      RowsOfRearranged(init, b1 + b2);
      RowsWithout(init, c, []);
      RowsWithout(b1, c, b2);
      assert init + [c] + [] == a && init + [] == init;
    }
  }

  lemma RowsWithout(b1: seq<Candidate>, c: Candidate, b2: seq<Candidate>)
    ensures multiset(RowsOf(b1 + [c] + b2)) == multiset(RowsOf(b1 + b2)) + multiset{c.row}
  {
    assert RowsOf(b1 + [c] + b2) == RowsOf(b1) + [c.row] + RowsOf(b2);
    assert RowsOf(b1 + b2) == RowsOf(b1) + RowsOf(b2);
  }

  /**
    Reranking only rearranges: the reranked head holds the same rows, best blended score first, and the rest stays
    put.
   */
  lemma RerankRearranges(curve: Curve, cands: seq<Candidate>, scores: seq<Option<real>>, minCoverage: real)
    requires |scores| <= |cands|
    ensures var n, out := |scores|, Rerank(curve, cands, scores, minCoverage);
      && |out| == |cands| && out[n..] == cands[n..] && multiset(RowsOf(out[..n])) == multiset(RowsOf(cands[..n]))
      && (Coverage(scores) >= minCoverage ==> Descending(out[..n]))
  {
    var n, out := |scores|, Rerank(curve, cands, scores, minCoverage);
    var blended := Blend(curve, cands[..n], scores);
    SortDescSorts(blended, 0.0);
    assert |SortDesc(blended)| == |multiset(SortDesc(blended))| == n;
    RowsOfRearranged(SortDesc(blended), blended);
    assert RowsOf(blended) == RowsOf(cands[..n]);
    if Coverage(scores) >= minCoverage {
      assert out[..n] == SortDesc(blended);
    }
  }

  // ----- one result per content hash

  /**
    The first candidate of each hash not seen before, until there are `limit` of them; at least one if there is any.
   */
  function FirstOfEach(cands: seq<Candidate>, seen: set<Id>, limit: int): seq<Candidate> {
    if cands == [] then []
    else if cands[0].hash in seen then FirstOfEach(cands[1..], seen, limit)
    else if limit <= 1 then [cands[0]]
    else [cands[0]] + FirstOfEach(cands[1..], seen + {cands[0].hash}, limit - 1)
  }

  method Deduplicate(cands: seq<Candidate>, limit: int) returns (results: seq<Candidate>)
    ensures results == FirstOfEach(cands, {}, limit)
  {
    results := [];
    var seen: set<Id> := {};
    var i := 0;
    while i < |cands|
      invariant 0 <= i <= |cands|
      invariant results == [] || |results| < limit
      invariant results + FirstOfEach(cands[i..], seen, limit - |results|) == FirstOfEach(cands, {}, limit)
    {
      var c := cands[i];
      assert cands[i..][1..] == cands[i + 1..];
      i := i + 1;
      if c.hash in seen {
        continue;
      }
      seen := seen + {c.hash};
      results := results + [c];
      if |results| >= limit {
        return;
      }
    }
    assert results + [] == results;
  }

  /** c is the first candidate with its hash. */
  ghost predicate FirstOfHash(cands: seq<Candidate>, c: Candidate) {
    exists k :: 0 <= k < |cands| && cands[k] == c && forall j :: 0 <= j < k ==> cands[j].hash != c.hash
  }

  /** Results are the first candidates of their hashes, no hash twice; below the limit no hash is missing. */
  lemma {:induction false} FirstOfEachExact(cands: seq<Candidate>, seen: set<Id>, limit: int)
    ensures var r := FirstOfEach(cands, seen, limit);
      && (forall c :: c in r ==> c.hash !in seen && FirstOfHash(cands, c))
      && (forall i, j :: 0 <= i < j < |r| ==> r[i].hash != r[j].hash)
      && (|r| <= limit || |r| <= 1)
      && (limit < 1 && (exists c :: c in cands && c.hash !in seen) ==> |r| == 1)
      && (|r| < limit ==> forall c :: c in cands && c.hash !in seen ==> exists d :: d in r && d.hash == c.hash)
    decreases |cands|
  {
    if cands != [] {
      var c, rest := cands[0], cands[1..];
      if c.hash in seen {
        FirstOfEachExact(rest, seen, limit);
        forall d | d in FirstOfEach(rest, seen, limit) ensures FirstOfHash(cands, d) {
          FirstShifts(cands, d);
        }
      } else {
        FirstOfEachExact(rest, seen + {c.hash}, limit - 1);
        assert FirstOfHash(cands, c) by {
          assert cands[0] == c;
        }
        forall d | d in FirstOfEach(rest, seen + {c.hash}, limit - 1) ensures FirstOfHash(cands, d) {
          FirstShifts(cands, d);
        }
        if limit > 1 {
          var r0 := FirstOfEach(rest, seen + {c.hash}, limit - 1);
          var r := [c] + r0;
          if |r| < limit {
            forall x | x in cands && x.hash !in seen ensures exists d :: d in r && d.hash == x.hash {
              if x.hash == c.hash {
                assert c in r;
              } else {
                assert x in rest;
                var d :| d in r0 && d.hash == x.hash;
                assert d in r;
              }
            }
          }
        }
      }
    }
  }

  lemma FirstShifts(cands: seq<Candidate>, d: Candidate)
    requires cands != [] && FirstOfHash(cands[1..], d) && d.hash != cands[0].hash
    ensures FirstOfHash(cands, d)
  {
    var k :| 0 <= k < |cands[1..]| && cands[1..][k] == d && forall j :: 0 <= j < k ==> cands[1..][j].hash != d.hash;
    forall j | 0 <= j < k + 1 ensures cands[j].hash != d.hash {
      assert j > 0 ==> cands[j] == cands[1..][j - 1];
    }
    assert cands[k + 1] == d;
  }

  /** No candidate of the same hash scores more. */
  ghost predicate BestOfHash(cands: seq<Candidate>, c: Candidate) {
    forall other :: other in cands && other.hash == c.hash ==> other.score <= c.score
  }

  /** Of candidates sorted by score, each result is the best of its hash. */
  lemma ResultsAreBest(cands: seq<Candidate>, limit: int, c: Candidate)
    requires Descending(cands) && c in FirstOfEach(cands, {}, limit)
    ensures BestOfHash(cands, c)
  {
    var k := FirstPlace(cands, limit, c);
    forall other | other in cands && other.hash == c.hash ensures other.score <= c.score {
      var i :| 0 <= i < |cands| && cands[i] == other;
      assert i >= k;
      assert i > k ==> cands[k].score >= cands[i].score;
    }
  }

  lemma FirstPlace(cands: seq<Candidate>, limit: int, c: Candidate) returns (k: nat)
    requires c in FirstOfEach(cands, {}, limit)
    ensures k < |cands| && cands[k] == c && forall j :: 0 <= j < k ==> cands[j].hash != c.hash
  {
    FirstOfEachExact(cands, {}, limit);
    assert FirstOfHash(cands, c);
    k :| 0 <= k < |cands| && cands[k] == c && forall j :: 0 <= j < k ==> cands[j].hash != c.hash;
  }

  ghost predicate AllBest(cands: seq<Candidate>, limit: int) {
    forall c :: c in FirstOfEach(cands, {}, limit) ==> BestOfHash(cands, c)
  }
}
