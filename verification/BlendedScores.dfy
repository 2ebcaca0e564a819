/** Scores in plain arithmetic: relevance, coverage and the blend, and the order of the results. */
module BlendedScores {
  import opened Fusion
  import opened Ids
  import opened SearchResults
  import opened Wrappers

  // ----- relevance

  /** Relevance is the place between the lowest and the highest score, in proportion; 0 if all scores are the same. */
  lemma RelevanceIs(score: real, lo: real, hi: real)
    requires lo <= score <= hi
    ensures lo < hi ==> Relevance(score, lo, hi) * (hi - lo) == score - lo
    ensures lo == hi ==> Relevance(score, lo, hi) == 0.0
  {
    if lo < hi {
      Divided(score - lo, hi - lo);
    }
  }

  lemma Divided(a: real, b: real)
    requires b > 0.0
    ensures a / b * b == a
  {
  }

  // ----- coverage

  ghost function Answered(scores: seq<Option<real>>): set<int> {
    set i | 0 <= i < |scores| && scores[i].Some?
  }

  lemma {:induction false} ScoredCounts(scores: seq<Option<real>>)
    ensures Scored(scores) == |Answered(scores)|
    decreases |scores|
  {
    if scores != [] {
      var n := |scores| - 1;
      ScoredCounts(scores[..n]);
      var before := Answered(scores[..n]);
      assert forall i :: i in before <==> i in Answered(scores) && i < n;
      assert Answered(scores) == if scores[n].Some? then before + {n} else before;
    }
  }

  /** Coverage is the share of the head that got a score; it is 0 if there is no head. */
  lemma CoverageIs(scores: seq<Option<real>>)
    ensures scores != [] ==> Coverage(scores) * (|scores| as real) == |Answered(scores)| as real
    ensures scores == [] ==> Coverage(scores) == 0.0
  {
    ScoredCounts(scores);
    if scores != [] {
      Divided(Scored(scores) as real, |scores| as real);
    }
  }

  // ----- the blend

  /** The weight of the fused score for the candidate at place i, counted from 0. */
  ghost predicate WeightFor(curve: Curve, i: nat, w: real) {
    if i < 3 then w == curve.top else if i < 10 then w == curve.middle else w == curve.rest
  }

  /** The fused and the rerank score are mixed by the weight of the place; without a rerank score nothing changes. */
  lemma BlendIs(curve: Curve, head: seq<Candidate>, scores: seq<Option<real>>, i: nat, w: real)
    requires |scores| == |head| && i < |head| && WeightFor(curve, i, w)
    ensures var c := Blend(curve, head, scores)[i];
      && c.row == head[i].row && c.hash == head[i].hash
      && (scores[i].None? ==> c.score == head[i].score)
      && (scores[i].Some? ==> c.score - scores[i].value == w * (head[i].score - scores[i].value))
  {
    if scores[i].Some? {
      Mixed(w, head[i].score, scores[i].value);
    }
  }

  lemma Mixed(w: real, s: real, l: real)
    ensures w * s + (1.0 - w) * l - l == w * (s - l)
  {
  }

  /** Too few scores leave the candidates as they are; else the head becomes the sorted blend and the rest stays. */
  lemma RerankIs(curve: Curve, cands: seq<Candidate>, scores: seq<Option<real>>, minCoverage: real, score: real)
    requires |scores| <= |cands|
    ensures var n, out := |scores|, Rerank(curve, cands, scores, minCoverage);
      if Coverage(scores) < minCoverage then out == cands
      else
        var blend := Blend(curve, cands[..n], scores);
        && |out| == |cands| && out[n..] == cands[n..]
        && multiset(out[..n]) == multiset(blend) && Descending(out[..n])
        && WithScore(out[..n], score) == WithScore(blend, score)
  {
    var n := |scores|;
    var blend := Blend(curve, cands[..n], scores);
    SortDescSorts(blend, score);
    assert |SortDesc(blend)| == |multiset(SortDesc(blend))| == n;
    assert Coverage(scores) >= minCoverage ==>
        Rerank(curve, cands, scores, minCoverage)[..n] == SortDesc(blend);
  }

  // ----- the order of the results

  /** The places of the results among the candidates, further and further on. */
  lemma {:induction false} ResultsInOrder(cands: seq<Candidate>, seen: set<Id>, limit: int) returns (places: seq<nat>)
    ensures var r := FirstOfEach(cands, seen, limit);
      && |places| == |r|
      && (forall i :: 0 <= i < |r| ==> places[i] < |cands| && cands[places[i]] == r[i])
      && forall i, j :: 0 <= i < j < |r| ==> places[i] < places[j]
    decreases |cands|
  {
    if cands == [] {
      places := [];
    } else if cands[0].hash in seen {
      var later := ResultsInOrder(cands[1..], seen, limit);
      places := seq(|later|, i requires 0 <= i < |later| => later[i] + 1);
    } else if limit <= 1 {
      places := [0];
    } else {
      var later := ResultsInOrder(cands[1..], seen + {cands[0].hash}, limit - 1);
      var shifted := seq(|later|, i requires 0 <= i < |later| => later[i] + 1);
      places := [0] + shifted;
    }
  }
}
