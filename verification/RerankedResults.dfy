/**
  When results are the best of their hashes after the head of the candidates has been reranked: said of the
  candidates, their rerank scores and the limit.
 */
module RerankedResults {
  import opened Ids
  import opened SearchResults
  import opened Wrappers

  // ----- places in the sorted list

  /** i comes before j in the stable descending sort. */
  ghost predicate Before(s: seq<Candidate>, i: nat, j: nat)
    requires i < |s| && j < |s|
  {
    s[i].score > s[j].score || (s[i].score == s[j].score && i < j)
  }

  /** r is s sorted: its k-th element is the f[k]-th of s, and the places follow the order. */
  ghost predicate SortedBy(s: seq<Candidate>, r: seq<Candidate>, f: seq<nat>) {
    && |f| == |r| == |s|
    && (forall k :: 0 <= k < |f| ==> f[k] < |s| && r[k] == s[f[k]])
    && (forall k, l :: 0 <= k < l < |f| ==> Before(s, f[k], f[l]))
    && forall j :: 0 <= j < |s| ==> j in f
  }

  lemma {:induction false} InsertPlace(sorted: seq<Candidate>, c: Candidate) returns (p: nat)
    requires Descending(sorted)
    ensures p <= |sorted| && Insert(sorted, c) == sorted[..p] + [c] + sorted[p..]
    ensures forall k :: 0 <= k < p ==> sorted[k].score >= c.score
    ensures forall k :: p <= k < |sorted| ==> sorted[k].score < c.score
  {
    if sorted == [] || sorted[|sorted| - 1].score >= c.score {
      p := |sorted|;
    } else {
      var n := |sorted| - 1;
      p := InsertPlace(sorted[..n], c);
      assert sorted[p..] == sorted[..n][p..] + [sorted[n]];
    }
  }

  lemma {:induction false} SortPlaces(s: seq<Candidate>) returns (f: seq<nat>)
    ensures SortedBy(s, SortDesc(s), f)
  {
    if s == [] {
      f := [];
    } else {
      var init, c := s[..|s| - 1], s[|s| - 1];
      var r0 := SortDesc(init);
      var f0 := SortPlaces(init);
      SortDescends(init);
      var p := InsertPlace(r0, c);
      f := f0[..p] + [|s| - 1] + f0[p..];
      PlacesInserted(s, r0, f0, p, f);
    }
  }

  lemma PlacesInserted(s: seq<Candidate>, r0: seq<Candidate>, f0: seq<nat>, p: nat, f: seq<nat>)
    requires s != [] && SortedBy(s[..|s| - 1], r0, f0) && p <= |r0| && f == f0[..p] + [|s| - 1] + f0[p..]
    requires forall k :: 0 <= k < p ==> r0[k].score >= s[|s| - 1].score
    requires forall k :: p <= k < |r0| ==> r0[k].score < s[|s| - 1].score
    ensures SortedBy(s, r0[..p] + [s[|s| - 1]] + r0[p..], f)
  {
    var n := |s| - 1;
    var r := r0[..p] + [s[n]] + r0[p..];
    forall k | 0 <= k < |f| ensures f[k] < |s| && r[k] == s[f[k]] {
      assert k != p ==> f[k] == f0[if k < p then k else k - 1];
    }
    forall k, l | 0 <= k < l < |f| ensures Before(s, f[k], f[l]) {
      OldOrNew(s, r0, f0, p, f, k);
      OldOrNew(s, r0, f0, p, f, l);
      if k != p && l != p {
        var k0, l0 := if k < p then k else k - 1, if l < p then l else l - 1;
        assert Before(s[..n], f0[k0], f0[l0]);
      }
    }
    forall j | 0 <= j < |s| ensures j in f {
      assert j < n ==> j in f0;
      assert f0 == f0[..p] + f0[p..];
      assert f[p] == n;
    }
  }

  lemma OldOrNew(s: seq<Candidate>, r0: seq<Candidate>, f0: seq<nat>, p: nat, f: seq<nat>, k: nat)
    requires s != [] && SortedBy(s[..|s| - 1], r0, f0) && p <= |r0| && f == f0[..p] + [|s| - 1] + f0[p..] && k < |f|
    ensures k == p ==> f[k] == |s| - 1
    ensures k < p ==> f[k] == f0[k] < |s| - 1 && s[f[k]] == r0[k]
    ensures k > p ==> f[k] == f0[k - 1] < |s| - 1 && s[f[k]] == r0[k - 1]
  {
  }

  // ----- which candidates are shown

  ghost function Hashes(s: seq<Candidate>): set<Id> { set c | c in s :: c.hash }

  /** The hashes of the candidates that come before the j-th. */
  ghost function Ahead(s: seq<Candidate>, j: nat): set<Id>
    requires j < |s|
  {
    set i: nat | i < |s| && Before(s, i, j) :: s[i].hash
  }

  lemma AheadIsPrefix(s: seq<Candidate>, r: seq<Candidate>, f: seq<nat>, k: nat)
    requires SortedBy(s, r, f) && k < |s|
    ensures Ahead(s, f[k]) == Hashes(r[..k])
  {
    forall h | h in Ahead(s, f[k]) ensures h in Hashes(r[..k]) {
      var i: nat :| i < |s| && Before(s, i, f[k]) && s[i].hash == h;
      assert i in f;
      var m :| 0 <= m < |f| && f[m] == i;
      NotAfter(s, f, k, m);
      assert r[..k][m] == s[i];
    }
    forall h | h in Hashes(r[..k]) ensures h in Ahead(s, f[k]) {
      var c :| c in r[..k] && c.hash == h;
      var m :| 0 <= m < k && r[..k][m] == c;
      assert Before(s, f[m], f[k]);
    }
  }

  lemma NotAfter(s: seq<Candidate>, f: seq<nat>, k: nat, m: nat)
    requires k < |f| && m < |f| && (forall k :: 0 <= k < |f| ==> f[k] < |s|) && Before(s, f[m], f[k])
    requires forall k, l :: 0 <= k < l < |f| ==> Before(s, f[k], f[l])
    ensures m < k
  {
  }

  function AtLeastOne(limit: int): int { if limit < 1 then 1 else limit }

  /** The candidate at place k becomes a result: its hash is new, and there is still room. */
  ghost predicate ShownAt(cands: seq<Candidate>, k: nat, seen: set<Id>, limit: int) {
    && k < |cands| && cands[k].hash !in seen && cands[k].hash !in Hashes(cands[..k])
    && |Hashes(cands[..k]) - seen| < AtLeastOne(limit)
  }

  lemma HashesBehind(cands: seq<Candidate>, k: nat)
    requires 0 < k <= |cands|
    ensures Hashes(cands[..k]) == {cands[0].hash} + Hashes(cands[1..][..k - 1])
  {
    assert cands[..k] == [cands[0]] + cands[1..][..k - 1];
  }

  lemma ShownFurther(cands: seq<Candidate>, k: nat, seen: set<Id>, limit: int)
    requires cands != [] && k > 0
    ensures cands[0].hash in seen ==> (ShownAt(cands, k, seen, limit) <==> ShownAt(cands[1..], k - 1, seen, limit))
    ensures cands[0].hash !in seen && limit <= 1 ==> !ShownAt(cands, k, seen, limit)
    ensures cands[0].hash !in seen && limit > 1 ==>
      (ShownAt(cands, k, seen, limit) <==> ShownAt(cands[1..], k - 1, seen + {cands[0].hash}, limit - 1))
  {
    if k < |cands| {
      var h := cands[0].hash;
      HashesBehind(cands, k);
      var behind := Hashes(cands[1..][..k - 1]);
      if h in seen {
        assert Hashes(cands[..k]) - seen == behind - seen;
      } else {
        assert Hashes(cands[..k]) - seen == {h} + (behind - (seen + {h}));
        assert |Hashes(cands[..k]) - seen| == 1 + |behind - (seen + {h})|;
      }
    }
  }

  /** The results are the candidates of the places that are shown. */
  lemma {:induction false} ResultsAreShown(cands: seq<Candidate>, seen: set<Id>, limit: int, c: Candidate)
    ensures c in FirstOfEach(cands, seen, limit) <==> exists k: nat :: ShownAt(cands, k, seen, limit) && cands[k] == c
    decreases |cands|
  {
    if cands != [] {
      var h, rest := cands[0].hash, cands[1..];
      assert Hashes(cands[..0]) == {} && {} - seen == {};
      assert ShownAt(cands, 0, seen, limit) <==> h !in seen;
      var seen', limit' := if h in seen then seen else seen + {h}, if h in seen then limit else limit - 1;
      ResultsAreShown(rest, seen', limit', c);
      forall k: nat | k > 0 ensures h in seen || limit > 1 ==>
          (ShownAt(cands, k, seen, limit) <==> ShownAt(rest, k - 1, seen', limit'))
      {
        ShownFurther(cands, k, seen, limit);
      }
      forall k: nat | k > 0 && h !in seen && limit <= 1 ensures !ShownAt(cands, k, seen, limit) {
        ShownFurther(cands, k, seen, limit);
      }
      if h in seen || limit > 1 {
        if k: nat :| ShownAt(rest, k, seen', limit') && rest[k] == c {
          assert ShownAt(cands, k + 1, seen, limit);
        }
        if k: nat :| ShownAt(cands, k, seen, limit) && cands[k] == c {
          assert k > 0 ==> ShownAt(rest, k - 1, seen', limit') && rest[k - 1] == c;
        }
      }
    }
  }

  // ----- the rerank

  /** The j-th candidate of the head becomes a result once the head has been sorted. */
  ghost predicate Shown(head: seq<Candidate>, j: nat, limit: int) {
    j < |head| && head[j].hash !in Ahead(head, j) && |Ahead(head, j)| < AtLeastOne(limit)
  }

  /** The result of its hash is the j-th of the head, by its blended score, and the t-th behind the head scores more. */
  ghost predicate Overtakes(curve: Curve, cands: seq<Candidate>, scores: seq<Option<real>>, limit: int, j: nat, t: nat)
    requires |scores| <= |cands|
  {
    && Shown(Blend(curve, cands[..|scores|], scores), j, limit) && |scores| <= t < |cands|
    && cands[t].hash == cands[j].hash
    && cands[t].score > BlendedScore(curve, cands[j].score, scores[j], j + 1)
  }

  ghost predicate SomeOvertakes(curve: Curve, cands: seq<Candidate>, scores: seq<Option<real>>, limit: int)
    requires |scores| <= |cands|
  {
    exists j: nat, t: nat :: Overtakes(curve, cands, scores, limit, j, t)
  }

  lemma SamePrefix(r: seq<Candidate>, tail: seq<Candidate>, k: nat)
    requires k < |r|
    ensures (r + tail)[..k] == r[..k] && (r + tail)[k] == r[k]
  {
  }

  lemma NothingSeen(hashes: set<Id>)
    ensures hashes - {} == hashes
  {
  }

  lemma ShownPlace(head: seq<Candidate>, r: seq<Candidate>, tail: seq<Candidate>, limit: int, f: seq<nat>, k: nat)
    requires SortedBy(head, r, f) && k < |head|
    ensures ShownAt(r + tail, k, {}, limit) <==> Shown(head, f[k], limit)
    ensures (r + tail)[k] == head[f[k]]
  {
    SamePrefix(r, tail, k);
    AheadIsPrefix(head, r, f, k);
    NothingSeen(Hashes(r[..k]));
  }

  lemma PlaceInFront(out: seq<Candidate>, k: nat, n: nat, limit: int)
    requires n <= |out| && ShownAt(out, k, {}, limit) && out[k] in out[..n]
    ensures k < n
  {
    var m :| 0 <= m < n && out[..n][m] == out[k];
    EarlierHash(out, m, k);
  }

  lemma EarlierHash(out: seq<Candidate>, m: nat, k: nat)
    requires m < |out| && k <= |out|
    ensures m < k ==> out[m].hash in Hashes(out[..k])
  {
    if m < k {
      assert out[..k][m] == out[m];
    }
  }

  /** A result from the head is one that is shown there, and the other way round. */
  lemma HeadResults(head: seq<Candidate>, r: seq<Candidate>, tail: seq<Candidate>, limit: int, f: seq<nat>,
                    c: Candidate)
    requires SortedBy(head, r, f)
    ensures c in FirstOfEach(r + tail, {}, limit) && c in (r + tail)[..|head|]
       <==> exists j: nat :: Shown(head, j, limit) && head[j] == c
  {
    var out := r + tail;
    ResultsAreShown(out, {}, limit, c);
    if c in FirstOfEach(out, {}, limit) && c in out[..|head|] {
      var k: nat :| ShownAt(out, k, {}, limit) && out[k] == c;
      PlaceInFront(out, k, |head|, limit);
      ShownPlace(head, r, tail, limit, f, k);
      assert Shown(head, f[k], limit) && head[f[k]] == c;
    }
    if j: nat :| Shown(head, j, limit) && head[j] == c {
      var k := PlaceOf(head, r, f, j);
      ShownPlace(head, r, tail, limit, f, k);
      assert out[..|head|][k] == c;
    }
  }

  lemma PlaceOf(head: seq<Candidate>, r: seq<Candidate>, f: seq<nat>, j: nat) returns (k: nat)
    requires SortedBy(head, r, f) && j < |head|
    ensures k < |head| && f[k] == j
  {
    assert j in f;
    k :| 0 <= k < |f| && f[k] == j;
  }

  /** Some result from the first n candidates scores less than a candidate of its hash behind them. */
  ghost predicate Overtaken(cands: seq<Candidate>, n: nat, limit: int)
    requires n <= |cands|
  {
    exists c, t :: c in FirstOfEach(cands, {}, limit) && c in cands[..n] && t in cands[n..] && t.hash == c.hash
        && t.score > c.score
  }

  /** In a list of two sorted parts the results are the best of their hashes if and only if none is overtaken. */
  lemma TwoPartsBestIff(cands: seq<Candidate>, n: nat, limit: int)
    requires n <= |cands| && Descending(cands[..n]) && Descending(cands[n..])
    ensures AllBest(cands, limit) <==> !Overtaken(cands, n, limit)
  {
    if !Overtaken(cands, n, limit) {
      forall c, other | c in FirstOfEach(cands, {}, limit) && other in cands && other.hash == c.hash
        ensures other.score <= c.score
      {
        var k := FirstPlace(cands, limit, c);
        var i :| 0 <= i < |cands| && cands[i] == other;
        assert i >= k;
        InTwoParts(cands, n, k, i);
      }
    }
    if AllBest(cands, limit) {
      forall c, t | c in FirstOfEach(cands, {}, limit) && t in cands[n..] && t.hash == c.hash
          ensures t.score <= c.score {
        assert BestOfHash(cands, c) && t in cands;
      }
    }
  }

  lemma InTwoParts(cands: seq<Candidate>, n: nat, k: nat, i: nat)
    requires n <= |cands| && k <= i < |cands| && Descending(cands[..n]) && Descending(cands[n..])
    ensures (k < n && cands[k] in cands[..n] && i >= n && cands[i] in cands[n..]) || cands[k].score >= cands[i].score
  {
    if i < n {
      assert cands[..n][k] == cands[k] && cands[..n][i] == cands[i];
    } else {
      assert cands[n..][i - n] == cands[i];
      if k < n {
        assert cands[..n][k] == cands[k];
      } else {
        assert cands[n..][k - n] == cands[k];
      }
    }
  }

  /**
    After a rerank of sorted candidates all results are the best of their hashes if and only if the coverage was
    too low for it, or no candidate behind the head scores more than the blended score of the one in the head that
    becomes the result of its hash.
   */
  lemma RerankedBestIff(curve: Curve, cands: seq<Candidate>, scores: seq<Option<real>>, minCoverage: real, limit: int)
    requires |scores| <= |cands| && Descending(cands)
    ensures AllBest(Rerank(curve, cands, scores, minCoverage), limit)
       <==> Coverage(scores) < minCoverage || !SomeOvertakes(curve, cands, scores, limit)
  {
    var n, out := |scores|, Rerank(curve, cands, scores, minCoverage);
    if Coverage(scores) < minCoverage {
      forall c | c in FirstOfEach(out, {}, limit) ensures BestOfHash(out, c) {
        ResultsAreBest(out, limit, c);
      }
    } else {
      RerankRearranges(curve, cands, scores, minCoverage);
      TwoPartsBestIff(out, n, limit);
      OvertakenIff(curve, cands, scores, limit, out, Blend(curve, cands[..n], scores));
    }
  }

  lemma BlendAt(curve: Curve, cands: seq<Candidate>, scores: seq<Option<real>>, j: nat)
    requires j < |scores| <= |cands|
    ensures var c := Blend(curve, cands[..|scores|], scores)[j];
      c.hash == cands[j].hash && c.score == BlendedScore(curve, cands[j].score, scores[j], j + 1)
  {
  }

  lemma OvertakenIff(curve: Curve, cands: seq<Candidate>, scores: seq<Option<real>>, limit: int, out: seq<Candidate>,
                     head: seq<Candidate>)
    requires |scores| <= |cands| && head == Blend(curve, cands[..|scores|], scores)
    requires out == SortDesc(head) + cands[|scores|..] && |out| == |cands|
    ensures Overtaken(out, |scores|, limit) <==> SomeOvertakes(curve, cands, scores, limit)
  {
    var f := SortPlaces(head);
    if Overtaken(out, |scores|, limit) {
      var j, t := FindsOvertaker(curve, cands, scores, limit, out, head, f);
    }
    if j: nat, t: nat :| Overtakes(curve, cands, scores, limit, j, t) {
      OvertakerFound(curve, cands, scores, limit, out, head, f, j, t);
    }
  }

  lemma TailAt(r: seq<Candidate>, cands: seq<Candidate>, n: nat, t: nat)
    requires |r| == n <= t < |cands|
    ensures (r + cands[n..])[n..] == cands[n..] && cands[t] in cands[n..]
  {
    assert cands[n..][t - n] == cands[t];
  }

  lemma TailPlace(r: seq<Candidate>, cands: seq<Candidate>, n: nat, x: Candidate) returns (t: nat)
    requires |r| == n <= |cands| && x in (r + cands[n..])[n..]
    ensures n <= t < |cands| && cands[t] == x
  {
    assert (r + cands[n..])[n..] == cands[n..];
    var i :| 0 <= i < |cands[n..]| && cands[n..][i] == x;
    t := n + i;
  }

  lemma FindsOvertaker(curve: Curve, cands: seq<Candidate>, scores: seq<Option<real>>, limit: int, out: seq<Candidate>,
                       head: seq<Candidate>, f: seq<nat>) returns (j: nat, t: nat)
    requires |scores| <= |cands| && head == Blend(curve, cands[..|scores|], scores)
    requires out == SortDesc(head) + cands[|scores|..] && |out| == |cands| && SortedBy(head, SortDesc(head), f)
    requires Overtaken(out, |scores|, limit)
    ensures Overtakes(curve, cands, scores, limit, j, t)
  {
    var n := |scores|;
    var c, x :|
      c in FirstOfEach(out, {}, limit) && c in out[..n] && x in out[n..] && x.hash == c.hash && x.score > c.score;
    HeadResults(head, SortDesc(head), cands[|scores|..], limit, f, c);
    j :| Shown(head, j, limit) && head[j] == c;
    t := TailPlace(SortDesc(head), cands, n, x);
    BlendAt(curve, cands, scores, j);
  }

  lemma OvertakerFound(curve: Curve, cands: seq<Candidate>, scores: seq<Option<real>>, limit: int, out: seq<Candidate>,
                       head: seq<Candidate>, f: seq<nat>, j: nat, t: nat)
    requires |scores| <= |cands| && head == Blend(curve, cands[..|scores|], scores)
    requires out == SortDesc(head) + cands[|scores|..] && |out| == |cands| && SortedBy(head, SortDesc(head), f)
    requires Overtakes(curve, cands, scores, limit, j, t)
    ensures Overtaken(out, |scores|, limit)
  {
    var n := |scores|;
    HeadResults(head, SortDesc(head), cands[|scores|..], limit, f, head[j]);
    BlendAt(curve, cands, scores, j);
    TailAt(SortDesc(head), cands, n, t);
  }

  /** The blended score of some candidate of the head with this hash is at least that score. */
  ghost predicate Reached(curve: Curve, cands: seq<Candidate>, scores: seq<Option<real>>, hash: Id, score: real)
    requires |scores| <= |cands|
  {
    exists j :: 0 <= j < |scores| && cands[j].hash == hash
                && BlendedScore(curve, cands[j].score, scores[j], j + 1) >= score
  }

  lemma {:induction false} FewHashes(s: seq<Candidate>)
    ensures |Hashes(s)| <= |s|
  {
    if s != [] {
      var n := |s| - 1;
      FewHashes(s[..n]);
      assert s == s[..n] + [s[n]];
      assert Hashes(s) == Hashes(s[..n]) + {s[n].hash};
    }
  }

  /** The first of its hash in the sorted head; with room for the whole head it is shown. */
  lemma BestIsShown(head: seq<Candidate>, i: nat, limit: int) returns (j: nat)
    requires i < |head| <= limit
    ensures Shown(head, j, limit) && head[j].hash == head[i].hash
  {
    var r := SortDesc(head);
    var f := SortPlaces(head);
    assert i in f;
    var m :| 0 <= m < |f| && f[m] == i;
    var k := FirstWithHash(r, m);
    AheadIsPrefix(head, r, f, k);
    FewHashes(r[..k]);
    j := f[k];
  }

  lemma {:induction false} FirstWithHash(r: seq<Candidate>, m: nat) returns (k: nat)
    requires m < |r|
    ensures k < |r| && r[k].hash == r[m].hash && r[k].hash !in Hashes(r[..k])
  {
    if r[m].hash in Hashes(r[..m]) {
      var c :| c in r[..m] && c.hash == r[m].hash;
      var i :| 0 <= i < m && r[..m][i] == c;
      k := FirstWithHash(r, i);
    } else {
      k := m;
    }
  }

  /**
    When the limit has room for the whole head: if and only if no candidate behind it scores more than all those of its
    hash in it, if there are any.
   */
  lemma RoomyBestIff(curve: Curve, cands: seq<Candidate>, scores: seq<Option<real>>, minCoverage: real, limit: int)
    requires |scores| <= |cands| && Descending(cands) && |scores| <= limit && Coverage(scores) >= minCoverage
    ensures AllBest(Rerank(curve, cands, scores, minCoverage), limit)
       <==> forall i, t :: 0 <= i < |scores| <= t < |cands| && cands[i].hash == cands[t].hash ==>
              Reached(curve, cands, scores, cands[t].hash, cands[t].score)
  {
    var head := Blend(curve, cands[..|scores|], scores);
    RerankedBestIff(curve, cands, scores, minCoverage, limit);
    if !SomeOvertakes(curve, cands, scores, limit) {
      forall i, t | 0 <= i < |scores| <= t < |cands| && cands[i].hash == cands[t].hash
        ensures Reached(curve, cands, scores, cands[t].hash, cands[t].score)
      {
        var j := BestIsShown(head, i, limit);
        assert !Overtakes(curve, cands, scores, limit, j, t);
      }
    }
    if j: nat, t: nat :| Overtakes(curve, cands, scores, limit, j, t) {
      if Reached(curve, cands, scores, cands[t].hash, cands[t].score) {
        ReachedIsAhead(curve, cands, scores, limit, j, t, head);
      }
    }
  }

  lemma HigherIsAhead(head: seq<Candidate>, i: nat, j: nat)
    requires i < |head| && j < |head|
    ensures head[i].score > head[j].score ==> head[i].hash in Ahead(head, j)
  {
    assert head[i].score > head[j].score ==> Before(head, i, j);
  }

  lemma ReachedIsAhead(curve: Curve, cands: seq<Candidate>, scores: seq<Option<real>>, limit: int, j: nat, t: nat,
                       head: seq<Candidate>)
    requires |scores| <= |cands| && head == Blend(curve, cands[..|scores|], scores)
    requires Overtakes(curve, cands, scores, limit, j, t)
    ensures !Reached(curve, cands, scores, cands[t].hash, cands[t].score)
  {
    forall i | 0 <= i < |scores| && cands[i].hash == cands[t].hash
      ensures BlendedScore(curve, cands[i].score, scores[i], i + 1) < cands[t].score
    {
      HigherIsAhead(head, i, j);
    }
  }

  // ----- a result that is not the best

  lemma {:induction false} AllScored(scores: seq<Option<real>>)
    requires forall i :: 0 <= i < |scores| ==> scores[i].Some?
    ensures Scored(scores) == |scores|
  {
    if scores != [] {
      AllScored(scores[..|scores| - 1]);
    }
  }

  /**
    Any number of candidates with the same score, of which the first and the last have the same hash: when all but the
    last are reranked to 0, the first stays in front, and is the result with less than the score of the last.
   */
  lemma OvertakenAfterRerank(curve: Curve, cands: seq<Candidate>, scores: seq<Option<real>>, score: real, limit: int)
    requires 0 < |scores| == |cands| - 1 && score > 0.0 && 0.0 <= curve.rest <= curve.middle <= curve.top < 1.0
    requires forall i :: 0 <= i < |cands| ==> cands[i].score == score
    requires forall i :: 0 <= i < |scores| ==> scores[i] == Some(0.0)
    requires cands[0].hash == cands[|cands| - 1].hash
    ensures Descending(cands) && !AllBest(Rerank(curve, cands, scores, 1.0), limit)
  {
    FullCoverage(scores);
    FirstStaysAhead(curve, cands, scores, score, limit);
    assert Overtakes(curve, cands, scores, limit, 0, |scores|);
    RerankedBestIff(curve, cands, scores, 1.0, limit);
  }

  lemma FullCoverage(scores: seq<Option<real>>)
    requires scores != [] && forall i :: 0 <= i < |scores| ==> scores[i].Some?
    ensures Coverage(scores) == 1.0
  {
    AllScored(scores);
    var n := |scores|;
    assert Coverage(scores) == (n as real) / (n as real);
    PartOfItself(n as real);
  }

  lemma PartOfItself(x: real)
    requires x > 0.0
    ensures x / x == 1.0
  {
  }

  lemma FirstStaysAhead(curve: Curve, cands: seq<Candidate>, scores: seq<Option<real>>, score: real, limit: int)
    requires 0 < |scores| <= |cands| && score > 0.0 && 0.0 <= curve.rest <= curve.middle <= curve.top < 1.0
    requires forall i :: 0 <= i < |cands| ==> cands[i].score == score
    requires forall i :: 0 <= i < |scores| ==> scores[i] == Some(0.0)
    ensures Shown(Blend(curve, cands[..|scores|], scores), 0, limit)
    ensures BlendedScore(curve, cands[0].score, scores[0], 1) < score
  {
    var head := Blend(curve, cands[..|scores|], scores);
    forall i: nat | i < |head| ensures head[i].score <= head[0].score < score {
      BlendAt(curve, cands, scores, i);
      BlendAt(curve, cands, scores, 0);
      Larger(WeightAt(curve, i + 1), WeightAt(curve, 1), score);
      Larger(WeightAt(curve, 1), 1.0, score);
    }
    assert Ahead(head, 0) == {};
  }

  lemma Larger(v: real, w: real, x: real)
    requires v <= w && x > 0.0
    ensures v * x <= w * x && (v < w ==> v * x < w * x)
  {
    assert w * x - v * x == (w - v) * x;
    Positive(w - v, x);
  }

  lemma Positive(a: real, b: real)
    requires a >= 0.0 && b > 0.0
    ensures a * b >= 0.0 && (a > 0.0 ==> a * b > 0.0)
  {
  }
}
