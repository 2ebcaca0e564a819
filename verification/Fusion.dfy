/** Reciprocal-rank fusion of ranked lists, and the normalisation of the fused scores. */
module Fusion {
  import opened Ids
  import opened Multisets
  import opened Wrappers

  const RRF_K := 60
  const VEC_WEIGHT_FLOOR := 0.5
  const GRAPH_WEIGHT := 0.7

  /** A ranked list, best first, and its weight. */
  datatype Channel = Channel(items: seq<Id>, weight: real)

  type Scores = map<Id, real>

  // ----- what a score is

  /** The sum of weight / (k + rank) over the ranks at which x stands in the list. */
  ghost function Contribution(items: seq<Id>, weight: real, k: nat, x: Id): real {
    if items == [] then 0.0
    else Contribution(items[..|items| - 1], weight, k, x) + Share(items[|items| - 1], |items|, weight, k, x)
  }

  ghost function Share(item: Id, rank: nat, weight: real, k: nat, x: Id): real
    requires rank > 0
  {
    if item == x then weight / ((k + rank) as real) else 0.0
  }

  ghost function Score(channels: seq<Channel>, k: nat, x: Id): real {
    if channels == [] then 0.0
    else
      var c := channels[|channels| - 1];
      Score(channels[..|channels| - 1], k, x) + Contribution(c.items, c.weight, k, x)
  }

  ghost function Items(channels: seq<Channel>): set<Id> {
    if channels == [] then {} else Items(channels[..|channels| - 1]) + ItemsOf(channels[|channels| - 1].items)
  }

  ghost function ItemsOf(items: seq<Id>): set<Id> { set x | x in items }

  /** The fused scores: every item of some list, with its score. */
  ghost predicate Fused(scores: Scores, channels: seq<Channel>, k: nat) {
    scores.Keys == Items(channels) && forall x :: x in scores ==> scores[x] == Score(channels, k, x)
  }

  lemma {:induction false} AbsentScoresZero(channels: seq<Channel>, k: nat, x: Id)
    requires x !in Items(channels)
    ensures Score(channels, k, x) == 0.0
  {
    if channels != [] {
      AbsentScoresZero(channels[..|channels| - 1], k, x);
      AbsentContributesZero(channels[|channels| - 1].items, channels[|channels| - 1].weight, k, x);
    }
  }

  lemma {:induction false} AbsentContributesZero(items: seq<Id>, weight: real, k: nat, x: Id)
    requires x !in items
    ensures Contribution(items, weight, k, x) == 0.0
  {
    if items != [] {
      AbsentContributesZero(items[..|items| - 1], weight, k, x);
      assert items[|items| - 1] in items;
    }
  }

  // ----- the fusion loops

  function ScoreOf(scores: Scores, x: Id): real { if x in scores then scores[x] else 0.0 }

  /** Adds one list to the scores. */
  method AddList(scores: Scores, items: seq<Id>, weight: real, k: nat) returns (scores': Scores)
    ensures scores'.Keys == scores.Keys + ItemsOf(items)
    ensures forall x :: ScoreOf(scores', x) == ScoreOf(scores, x) + Contribution(items, weight, k, x)
  {
    scores' := scores;
    for i := 0 to |items|
      invariant scores'.Keys == scores.Keys + ItemsOf(items[..i])
      invariant forall x :: ScoreOf(scores', x) == ScoreOf(scores, x) + Contribution(items[..i], weight, k, x)
    {
      var item, rank := items[i], i + 1;
      OneMore(items, i, weight, k);
      scores' := scores'[item := ScoreOf(scores', item) + weight / ((k + rank) as real)];
    }
    assert items[..|items|] == items;
  }

  lemma OneMore(items: seq<Id>, i: nat, weight: real, k: nat)
    requires i < |items|
    ensures ItemsOf(items[..i + 1]) == ItemsOf(items[..i]) + {items[i]}
    ensures forall x :: Contribution(items[..i + 1], weight, k, x)
                     == Contribution(items[..i], weight, k, x) + (if items[i] == x
                         then weight / ((k + (i + 1)) as real) else 0.0)
  {
    assert items[..i + 1] == items[..i] + [items[i]] && items[..i + 1][..i] == items[..i];
  }

  lemma ListAdded(before: Scores, after: Scores, channels: seq<Channel>, c: Channel, k: nat)
    requires Fused(before, channels, k) && after.Keys == before.Keys + ItemsOf(c.items)
    requires forall x :: ScoreOf(after, x) == ScoreOf(before, x) + Contribution(c.items, c.weight, k, x)
    ensures Fused(after, channels + [c], k)
  {
    assert (channels + [c])[..|channels|] == channels;
    forall x | x in after ensures after[x] == Score(channels + [c], k, x) {
      assert ScoreOf(after, x) == ScoreOf(before, x) + Contribution(c.items, c.weight, k, x);
      if x !in before {
        AbsentScoresZero(channels, k, x);
      }
    }
  }

  datatype WeightsMismatch = WeightsMismatch(weights: nat, lists: nat)

  /** The lists paired with their weights, 1.0 each by default. */
  function Paired(lists: seq<seq<Id>>, weights: seq<real>): (r: seq<Channel>)
    requires |weights| == |lists|
  {
    seq(|lists|, i requires 0 <= i < |lists| => Channel(lists[i], weights[i]))
  }

  method RrfFuse(lists: seq<seq<Id>>, weights: Option<seq<real>>, k: nat) returns (r: Result<Scores, WeightsMismatch>)
    ensures r.Err? <==> weights.Some? && |weights.value| != |lists|
    ensures r.Ok? ==>
      Fused(r.value,
            Paired(lists, if weights.Some? then weights.value else seq(|lists|, i requires 0 <= i < |lists| => 1.0)), k)
  {
    var ws := if weights.Some? then weights.value else seq(|lists|, i requires 0 <= i < |lists| => 1.0);
    if |ws| != |lists| {
      return Err(WeightsMismatch(|ws|, |lists|));
    }
    ghost var channels := Paired(lists, ws);
    var scored: Scores := map[];
    for i := 0 to |lists|
      invariant Fused(scored, channels[..i], k)
    {
      ghost var before := scored;
      scored := AddList(scored, lists[i], ws[i], k);
      ListAdded(before, scored, channels[..i], channels[i], k);
      assert channels[..i + 1] == channels[..i] + [channels[i]];
    }
    assert channels[..|lists|] == channels;
    return Ok(scored);
  }

  function VecWeight(vec: seq<Id>, chunkVec: seq<Id>, quality: real): real {
    if vec != [] || chunkVec != [] then (if quality > VEC_WEIGHT_FLOOR then quality else VEC_WEIGHT_FLOOR) else 0.0
  }

  /** The five channels of a search in one database, with their weights. */
  function SearchChannels(fts: seq<Id>, chunkFts: seq<Id>, vec: seq<Id>, chunkVec: seq<Id>, graph: seq<Id>,
                          quality: real): seq<Channel> {
    var v := VecWeight(vec, chunkVec, quality);
    [Channel(fts, 1.0), Channel(chunkFts, 1.0), Channel(vec, v), Channel(chunkVec, v),
     Channel(graph, if graph != [] then GRAPH_WEIGHT else 0.0)]
  }

  /** The five loops of a search, one after the other. */
  method FuseChannels(fts: seq<Id>, chunkFts: seq<Id>, vec: seq<Id>, chunkVec: seq<Id>, graph: seq<Id>, quality: real)
    returns (raw: Scores)
    ensures Fused(raw, SearchChannels(fts, chunkFts, vec, chunkVec, graph, quality), RRF_K)
  {
    var ftsWeight := 1.0;
    var vecWeight := VecWeight(vec, chunkVec, quality);
    var graphWeight := if graph != [] then GRAPH_WEIGHT else 0.0;
    var raw0: Scores := map[];
    var raw1 := AddList(raw0, fts, ftsWeight, RRF_K);
    var raw2 := AddList(raw1, chunkFts, ftsWeight, RRF_K);
    var raw3 := AddList(raw2, vec, vecWeight, RRF_K);
    var raw4 := AddList(raw3, chunkVec, vecWeight, RRF_K);
    raw := AddList(raw4, graph, graphWeight, RRF_K);
    ghost var cs := SearchChannels(fts, chunkFts, vec, chunkVec, graph, quality);
    ListAdded(raw0, raw1, [], cs[0], RRF_K);
    ListAdded(raw1, raw2, [] + [cs[0]], cs[1], RRF_K);
    ListAdded(raw2, raw3, [] + [cs[0]] + [cs[1]], cs[2], RRF_K);
    ListAdded(raw3, raw4, [] + [cs[0]] + [cs[1]] + [cs[2]], cs[3], RRF_K);
    ListAdded(raw4, raw, [] + [cs[0]] + [cs[1]] + [cs[2]] + [cs[3]], cs[4], RRF_K);
    assert [] + [cs[0]] + [cs[1]] + [cs[2]] + [cs[3]] + [cs[4]] == cs;
  }

  /** Fused scores are unique, so the five loops compute what RrfFuse computes. */
  lemma FusedUnique(a: Scores, b: Scores, channels: seq<Channel>, k: nat)
    requires Fused(a, channels, k) && Fused(b, channels, k)
    ensures a == b
  {
    assert a.Keys == b.Keys;
  }

  // ----- the order of the lists does not matter

  lemma {:induction false} ScoreWithout(a: seq<Channel>, c: Channel, b: seq<Channel>, k: nat, x: Id)
    ensures Score(a + [c] + b, k, x) == Score(a + b, k, x) + Contribution(c.items, c.weight, k, x)
    decreases |b|
  {
    if b == [] {
      assert (a + [c] + b)[..|a|] == a && a + b == a;
    } else {
      var n := |b| - 1;
      assert (a + [c] + b)[..|a| + 1 + n] == a + [c] + b[..n];
      assert (a + b)[..|a| + n] == a + b[..n];
      ScoreWithout(a, c, b[..n], k, x);
    }
  }

  lemma {:induction false} ItemsWithout(a: seq<Channel>, c: Channel, b: seq<Channel>)
    ensures Items(a + [c] + b) == Items(a + b) + ItemsOf(c.items)
    decreases |b|
  {
    if b == [] {
      assert (a + [c] + b)[..|a|] == a && a + b == a;
    } else {
      var n := |b| - 1;
      assert (a + [c] + b)[..|a| + 1 + n] == a + [c] + b[..n];
      assert (a + b)[..|a| + n] == a + b[..n];
      ItemsWithout(a, c, b[..n]);
    }
  }

  lemma {:induction false} ItemsInAnyOrder(a: seq<Channel>, b: seq<Channel>)
    requires multiset(a) == multiset(b)
    ensures Items(a) == Items(b)
    decreases |a|
  {
    if a == [] {
      assert |multiset(b)| == 0;
    } else {
      var init, c, b1, b2 := TakeOut(a, b);
      ItemsInAnyOrder(init, b1 + b2);
      ItemsWithout(b1, c, b2);
    }
  }

  /** Lists given in another order, each with its weight, fuse to the same scores. */
  lemma {:induction false} OrderIndependent(a: seq<Channel>, b: seq<Channel>, k: nat, x: Id)
    requires multiset(a) == multiset(b)
    ensures Score(a, k, x) == Score(b, k, x)
    decreases |a|
  {
    if a == [] {
      assert |multiset(b)| == 0;
    } else {
      var init, c, b1, b2 := TakeOut(a, b);
      OrderIndependent(init, b1 + b2, k, x);
      ScoreWithout(b1, c, b2, k, x);
    }
  }

  lemma FusedInAnyOrder(scores: Scores, a: seq<Channel>, b: seq<Channel>, k: nat)
    requires multiset(a) == multiset(b) && Fused(scores, a, k)
    ensures Fused(scores, b, k)
  {
    ItemsInAnyOrder(a, b);
    forall x ensures Score(a, k, x) == Score(b, k, x) {
      OrderIndependent(a, b, k, x);
    }
  }

  /** An empty list changes nothing, whatever its weight. */
  lemma EmptyListAddsNothing(scores: Scores, a: seq<Channel>, b: seq<Channel>, weight: real, k: nat)
    ensures Fused(scores, a + [Channel([], weight)] + b, k) <==> Fused(scores, a + b, k)
  {
    ItemsWithout(a, Channel([], weight), b);
    forall x ensures Score(a + [Channel([], weight)] + b, k, x) == Score(a + b, k, x) {
      ScoreWithout(a, Channel([], weight), b, k, x);
    }
  }

  // ----- moving up

  function Swapped(items: seq<Id>, i: nat): seq<Id>
    requires 0 < i < |items|
  {
    items[i - 1 := items[i]][i := items[i - 1]]
  }

  lemma LessShare(weight: real, a: int, b: int)
    requires weight >= 0.0 && 0 < a < b
    ensures weight / (b as real) <= weight / (a as real)
    ensures weight > 0.0 ==> weight / (b as real) < weight / (a as real)
  {
    var p, q := weight / (a as real), weight / (b as real);
    assert p * (a as real) == weight && q * (b as real) == weight;
    if weight == 0.0 {
      assert p == 0.0 && q == 0.0;
    } else {
      assert q > 0.0;
      assert q * (a as real) < q * (b as real);
    }
  }

  /** Trading places with the item in front raises an item's score and lowers no other but that one's. */
  lemma {:induction false} SwapRaises(items: seq<Id>, i: nat, weight: real, k: nat, x: Id)
    requires 0 < i < |items| && weight >= 0.0
    ensures var before, after := Contribution(items, weight, k, x), Contribution(Swapped(items, i), weight, k, x);
      && (x == items[i] ==> before <= after)
      && (x != items[i] ==> after <= before)
      && (x == items[i] != items[i - 1] && weight > 0.0 ==> before < after)
      && (x != items[i] && x != items[i - 1] ==> after == before)
    decreases |items|
  {
    var n := |items| - 1;
    var items' := Swapped(items, i);
    if i < n {
      assert items'[..n] == Swapped(items[..n], i);
      SwapRaises(items[..n], i, weight, k, x);
    } else {
      LessShare(weight, k + i, k + i + 1);
      TwoLast(items, weight, k, x);
      TwoLast(items', weight, k, x);
      assert items'[..n - 1] == items[..n - 1];
    }
  }

  lemma TwoLast(items: seq<Id>, weight: real, k: nat, x: Id)
    requires |items| >= 2
    ensures var n := |items|;
      Contribution(items, weight, k, x)
        == Contribution(items[..n - 2], weight, k, x) + Share(items[n - 2], n - 1, weight, k, x)
            + Share(items[n - 1], n, weight, k, x)
  {
    var n := |items|;
    assert items[..n - 1][..n - 2] == items[..n - 2];
  }

  /** The item at `from` put in front of the one at `to`. */
  function Moved(items: seq<Id>, from: nat, to: nat): seq<Id>
    requires to <= from < |items|
  {
    items[..to] + [items[from]] + items[to..from] + items[from + 1..]
  }

  lemma {:induction false} MoveUpRaises(items: seq<Id>, from: nat, to: nat, weight: real, k: nat, x: Id)
    requires to <= from < |items| && weight >= 0.0
    ensures var before, after := Contribution(items, weight, k, x), Contribution(Moved(items, from, to), weight, k, x);
      (x == items[from] ==> before <= after) && (x != items[from] ==> after <= before)
    decreases from - to
  {
    if to == from {
      assert Moved(items, from, to) == items;
    } else {
      var items' := Swapped(items, from);
      SwapRaises(items, from, weight, k, x);
      MoveUpRaises(items', from - 1, to, weight, k, x);
      SwapThenMove(items, from, to);
    }
  }

  lemma SwapThenMove(items: seq<Id>, from: nat, to: nat)
    requires to < from < |items|
    ensures Moved(Swapped(items, from), from - 1, to) == Moved(items, from, to)
        && Swapped(items, from)[from - 1] == items[from]
  {
  }

  lemma ScoreReplaced(channels: seq<Channel>, j: nat, c: Channel, k: nat, x: Id)
    requires j < |channels|
    ensures Score(channels[j := c], k, x) - Score(channels, k, x)
         == Contribution(c.items, c.weight, k, x) - Contribution(channels[j].items, channels[j].weight, k, x)
  {
    var a, b := channels[..j], channels[j + 1..];
    assert channels == a + [channels[j]] + b && channels[j := c] == a + [c] + b;
    ScoreWithout(a, channels[j], b, k, x);
    ScoreWithout(a, c, b, k, x);
  }

  /** Moving an item up in one list never lowers its fused score and never raises another's. */
  lemma MovingUpHelps(channels: seq<Channel>, j: nat, from: nat, to: nat, k: nat, x: Id)
    requires j < |channels| && to <= from < |channels[j].items| && channels[j].weight >= 0.0
    ensures var c := channels[j]; var channels' := channels[j := c.(items := Moved(c.items, from, to))];
      && (x == c.items[from] ==> Score(channels, k, x) <= Score(channels', k, x))
      && (x != c.items[from] ==> Score(channels', k, x) <= Score(channels, k, x))
  {
    var c := channels[j];
    MoveUpRaises(c.items, from, to, c.weight, k, x);
    ScoreReplaced(channels, j, c.(items := Moved(c.items, from, to)), k, x);
  }

  // ----- normalisation

  ghost predicate Extremes(raw: Scores, lo: real, hi: real) {
    && (exists x :: x in raw && raw[x] == lo) && (exists x :: x in raw && raw[x] == hi)
    && forall x :: x in raw ==> lo <= raw[x] <= hi
  }

  function Relevance(score: real, lo: real, hi: real): real {
    (score - lo) / (if hi > lo then hi - lo else 1.0)
  }

  method MinAndMax(raw: Scores) returns (lo: real, hi: real)
    requires raw != map[]
    ensures Extremes(raw, lo, hi)
  {
    var first :| first in raw;
    lo, hi := raw[first], raw[first];
    var rest := raw.Keys - {first};
    while rest != {}
      invariant rest <= raw.Keys
      invariant (exists x :: x in raw && raw[x] == lo) && (exists x :: x in raw && raw[x] == hi)
      invariant forall x :: x in raw && x !in rest ==> lo <= raw[x] <= hi
      decreases |rest|
    {
      var x :| x in rest;
      lo := if raw[x] < lo then raw[x] else lo;
      hi := if raw[x] > hi then raw[x] else hi;
      rest := rest - {x};
    }
  }

  method Normalise(raw: Scores) returns (relevance: Scores)
    requires raw != map[]
    ensures relevance.Keys == raw.Keys
    ensures forall x :: x in raw ==> 0.0 <= relevance[x] <= 1.0
    ensures forall x, y :: x in raw && y in raw ==> (relevance[x] < relevance[y] <==> raw[x] < raw[y])
    ensures exists lo, hi :: Extremes(raw, lo, hi) && forall x :: x in raw ==> relevance[x] == Relevance(raw[x], lo, hi)
  {
    var lo, hi := MinAndMax(raw);
    relevance := map x | x in raw :: Relevance(raw[x], lo, hi);
    forall x, y | x in raw && y in raw
      ensures 0.0 <= relevance[x] <= 1.0 && (relevance[x] < relevance[y] <==> raw[x] < raw[y])
    {
      RelevanceOrders(raw[x], raw[y], lo, hi);
    }
  }

  /** Relevance lies between 0 and 1, orders as the raw scores do, and is 0 at the bottom and 1 at the top. */
  lemma RelevanceOrders(a: real, b: real, lo: real, hi: real)
    requires lo <= a <= hi && lo <= b <= hi
    ensures 0.0 <= Relevance(a, lo, hi) <= 1.0
    ensures Relevance(a, lo, hi) < Relevance(b, lo, hi) <==> a < b
    ensures Relevance(lo, lo, hi) == 0.0 && (lo < hi ==> Relevance(hi, lo, hi) == 1.0)
  {
    var range := if hi > lo then hi - lo else 1.0;
    RatioOrders(a - lo, b - lo, range);
    RatioOrders(lo - lo, hi - lo, range);
  }

  lemma RatioOrders(a: real, b: real, range: real)
    requires 0.0 <= a <= range && 0.0 <= b <= range && range > 0.0
    ensures 0.0 <= a / range <= 1.0 && 0.0 <= b / range <= 1.0 && (a / range < b / range <==> a < b)
    ensures (a == 0.0 ==> a / range == 0.0) && (b == range ==> b / range == 1.0)
  {
    var p, q := a / range, b / range;
    assert p * range == a && q * range == b;
    Scaled(p, q, range);
    UnitRange(p, a, range);
    UnitRange(q, b, range);
  }

  lemma UnitRange(p: real, a: real, range: real)
    requires range > 0.0 && p * range == a && 0.0 <= a <= range
    ensures 0.0 <= p <= 1.0 && (a == 0.0 ==> p == 0.0) && (a == range ==> p == 1.0)
  {
    Scaled(p, 0.0, range);
    Scaled(0.0, p, range);
    Scaled(1.0, p, range);
    Scaled(p, 1.0, range);
    assert 0.0 * range == 0.0 && 1.0 * range == range;
  }

  lemma Scaled(p: real, q: real, range: real)
    requires range > 0.0
    ensures p < q <==> p * range < q * range
  {
    assert (q - p) * range == q * range - p * range;
  }
}
